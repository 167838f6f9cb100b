/** `status` (git_scratch/commands/status.py): a read-only comparison of the
    files of HEAD's tree, the index and the working directory. The project
    file listing (`files`, in the order the recursive glob yields them) and
    the ignore rules (`ignored`) are parameters. */
module Status {
  import opened Common
  import opened Text
  import opened Dicts
  import opened Objects
  import opened Repository
  import opened TreeWalk
  import opened Commits

  // ---------------------------------------------------------------- get_head_tree_oid

  /** The commit id HEAD names: a `ref: ` HEAD is followed to its ref file,
      anything else is taken as the id itself. A missing file raises. */
  function HeadCommitId(head: Option<string>, refs: map<string, string>): (r: Result<string>)
    ensures r.Err? ==> r.error == NotFound
  {
    if head.None? then Err(NotFound)
    else
      var content := Strip(head.value);
      if StartsWith(content, "ref: ") then
        var name := content[5..];
        if name in refs then Ok(Strip(refs[name])) else Err(NotFound)
      else Ok(content)
  }

  /** The second word of the first line that starts with `tree `. */
  function TreeFromLines(lines: seq<string>): Result<string> {
    if lines == [] then Err(Malformed)
    else if StartsWith(lines[0], "tree ") then
      var words := Words(lines[0], IsByteSpace);
      if |words| >= 2 then Ok(words[1]) else Err(Malformed)
    else TreeFromLines(lines[1..])
  }

  /** `get_head_tree_oid()`: HEAD's object must be a commit, and its first
      `tree ` line gives the tree id. */
  function HeadTreeSpec(store: map<string, string>, head: Option<string>, refs: map<string, string>): Result<string> {
    match HeadCommitId(head, refs)
    case Err(e) => Err(e)
    case Ok(c) =>
      match ReadObject(store, c)
      case Err(e) => Err(e)
      case Ok((kind, data)) =>
        if kind != "commit" then Err(NotACommit) else TreeFromLines(Split(data, '\n'))
  }

  method GetHeadTreeOid(repo: Repo) returns (r: Result<string>)
    ensures r == HeadTreeSpec(repo.store, repo.head, repo.refs)
  {
    var c := HeadCommitId(repo.head, repo.refs);
    if c.Err? {
      return Err(c.error);
    }
    var obj := ReadObject(repo.store, c.value);
    if obj.Err? {
      return Err(obj.error);
    }
    var (kind, data) := obj.value;
    if kind != "commit" {
      return Err(NotACommit);
    }
    r := FirstTreeLine(data);
  }

  /** The loop of `get_head_tree_oid` over the commit's lines. */
  method FirstTreeLine(data: string) returns (r: Result<string>)
    ensures r == TreeFromLines(Split(data, '\n'))
  {
    var lines := Split(data, '\n');
    var i := 0;
    while i < |lines|
      invariant 0 <= i <= |lines|
      invariant TreeFromLines(lines[i..]) == TreeFromLines(lines)
    {
      var rest := lines[i..];
      assert rest[0] == lines[i] && rest[1..] == lines[i + 1..];
      if StartsWith(lines[i], "tree ") {
        var words := Words(lines[i], IsByteSpace);
        if |words| < 2 {
          return Err(Malformed);
        }
        return Ok(words[1]);
      }
      i := i + 1;
    }
    return Err(Malformed);
  }

  /** `git_hash_object`: the id of the file's bytes framed as a blob. */
  function GitHashObject(hash: string -> Oid, data: string): Oid {
    hash("blob " + Decimal(|data|) + "\0" + data)
  }

  // ---------------------------------------------------------------- the classification

  /** One line of a section: the action (`new file`, `modified`, `deleted`
      or `?`) and the path. */
  datatype Change = Change(action: string, path: string)

  datatype Report = Report(staged: seq<Change>, unstaged: seq<Change>, untracked: seq<Change>)

  /** The clean message is printed exactly when every section is empty. */
  predicate Clean(r: Report) {
    r.staged == [] && r.unstaged == [] && r.untracked == []
  }

  /** `{e['path']: e['oid'] for e in entries}`: later entries win. */
  function PathMap(es: seq<IndexEntry>): Dict<Oid> {
    LastWins(Pairs(es))
  }

  function Pairs(es: seq<IndexEntry>): (r: Dict<Oid>)
    ensures |r| == |es|
  {
    if es == [] then [] else [(es[0].path, es[0].oid)] + Pairs(es[1..])
  }

  /** What one listed, non-ignored file adds to the staged and untracked
      sections. */
  function FileChanges(f: string, idx: Dict<Oid>, commit: Dict<Oid>): (seq<Change>, seq<Change>) {
    var i := Get(idx, f);
    var c := Get(commit, f);
    if i.Some? then
      if c.None? then ([Change("new file", f)], [])
      else if c.value != i.value then ([Change("modified", f)], [])
      else ([], [])
    else if c.None? then ([], [Change("?", f)])
    else ([], [])
  }

  /** The first loop, over the project's files. */
  function ScanFiles(files: seq<string>, ignored: string -> bool, idx: Dict<Oid>, commit: Dict<Oid>): (seq<Change>, seq<Change>) {
    if files == [] then ([], [])
    else
      var (s, u) := ScanFiles(files[..|files| - 1], ignored, idx, commit);
      var f := files[|files| - 1];
      if ignored(f) then (s, u)
      else
        var (s1, u1) := FileChanges(f, idx, commit);
        (s + s1, u + u1)
  }

  /** The second loop: every path of HEAD's tree missing from the index. */
  function Deleted(paths: seq<string>, idx: Dict<Oid>): seq<Change> {
    if paths == [] then []
    else
      var p := paths[|paths| - 1];
      Deleted(paths[..|paths| - 1], idx) + (if Get(idx, p).None? then [Change("deleted", p)] else [])
  }

  /** What one index item adds to the unstaged section. */
  function UnstagedFor(hash: string -> Oid, p: string, oid: Oid, workdir: map<string, string>): seq<Change> {
    if p !in workdir then [Change("deleted", p)]
    else if GitHashObject(hash, workdir[p]) != oid then [Change("modified", p)]
    else []
  }

  /** The third loop, over the index: a path missing on disk, or whose bytes
      hash to another id. */
  function Unstaged(hash: string -> Oid, items: Dict<Oid>, workdir: map<string, string>): seq<Change> {
    if items == [] then []
    else
      var last := items[|items| - 1];
      Unstaged(hash, items[..|items| - 1], workdir) + UnstagedFor(hash, last.0, last.1, workdir)
  }

  /** The three sections, from the two path maps and the working directory. */
  function Classify(hash: string -> Oid, idx: Dict<Oid>, commit: Dict<Oid>, workdir: map<string, string>,
                    files: seq<string>, ignored: string -> bool): Report
  {
    var (s, u) := ScanFiles(files, ignored, idx, commit);
    Report(s + Deleted(Keys(commit), idx), Unstaged(hash, idx, workdir), u)
  }

  /** `status()`: the report, or why HEAD's tree could not be read. */
  function StatusSpec(hash: string -> Oid, store: map<string, string>, head: Option<string>, refs: map<string, string>,
                      index: seq<IndexEntry>, workdir: map<string, string>,
                      files: seq<string>, ignored: string -> bool, fuel: nat): Result<Report>
  {
    match HeadTreeSpec(store, head, refs)
    case Err(e) => Err(e)
    case Ok(t) =>
      match Walk(store, t, "", fuel)
      case Err(e) => Err(e)
      case Ok(es) => Ok(Classify(hash, PathMap(index), PathMap(es), workdir, files, ignored))
  }

  /** `status()`. It has no `modifies` clause: no repository state changes. */
  method StatusCommand(repo: Repo, files: seq<string>, ignored: string -> bool, fuel: nat) returns (r: Result<Report>)
    ensures r == StatusSpec(repo.hash, repo.store, repo.head, repo.refs, repo.LoadIndex(), repo.workdir, files, ignored, fuel)
  {
    var tree := GetHeadTreeOid(repo);
    if tree.Err? {
      return Err(tree.error);
    }
    var es := EntriesFromTree(repo, tree.value, "", fuel);
    if es.Err? {
      return Err(es.error);
    }
    var commit := PathMap(es.value);
    var idx := PathMap(repo.LoadIndex());
    var staged, untracked := ClassifyFiles(files, ignored, idx, commit);
    staged := StagedDeletions(commit, idx, staged);
    var unstaged := UnstagedChanges(repo.hash, idx, repo.workdir);
    return Ok(Report(staged, unstaged, untracked));
  }

  method ClassifyFiles(files: seq<string>, ignored: string -> bool, idx: Dict<Oid>, commit: Dict<Oid>)
    returns (staged: seq<Change>, untracked: seq<Change>)
    ensures (staged, untracked) == ScanFiles(files, ignored, idx, commit)
  {
    staged, untracked := [], [];
    var k := 0;
    while k < |files|
      invariant 0 <= k <= |files|
      invariant (staged, untracked) == ScanFiles(files[..k], ignored, idx, commit)
    {
      var f := files[k];
      assert files[..k + 1][..k] == files[..k] && files[..k + 1][k] == f;
      ghost var next := if ignored(f) then (staged, untracked)
        else (staged + FileChanges(f, idx, commit).0, untracked + FileChanges(f, idx, commit).1);
      assert next == ScanFiles(files[..k + 1], ignored, idx, commit);
      assert staged + [] == staged && untracked + [] == untracked;
      if !ignored(f) {
        var inIndex := Get(idx, f).Some?;
        var inCommit := Get(commit, f).Some?;
        if inIndex {
          var oidIdx := Get(idx, f).value;
          if !inCommit {
            assert FileChanges(f, idx, commit) == ([Change("new file", f)], []);
            staged := staged + [Change("new file", f)];
          } else if Get(commit, f).value != oidIdx {
            assert FileChanges(f, idx, commit) == ([Change("modified", f)], []);
            staged := staged + [Change("modified", f)];
          } else {
            assert FileChanges(f, idx, commit) == ([], []);
          }
        } else if !inCommit {
          assert FileChanges(f, idx, commit) == ([], [Change("?", f)]);
          untracked := untracked + [Change("?", f)];
        } else {
          assert FileChanges(f, idx, commit) == ([], []);
        }
      }
      assert (staged, untracked) == next;
      k := k + 1;
    }
    assert files[..k] == files;
  }

  method StagedDeletions(commit: Dict<Oid>, idx: Dict<Oid>, staged0: seq<Change>) returns (staged: seq<Change>)
    ensures staged == staged0 + Deleted(Keys(commit), idx)
  {
    var paths := Keys(commit);
    staged := staged0;
    var k := 0;
    while k < |paths|
      invariant 0 <= k <= |paths|
      invariant staged == staged0 + Deleted(paths[..k], idx)
    {
      var p := paths[k];
      assert paths[..k + 1][..k] == paths[..k] && paths[..k + 1][k] == p;
      if Get(idx, p).None? {
        staged := staged + [Change("deleted", p)];
      }
      k := k + 1;
    }
    assert paths[..k] == paths;
  }

  method UnstagedChanges(hash: string -> Oid, idx: Dict<Oid>, workdir: map<string, string>) returns (unstaged: seq<Change>)
    ensures unstaged == Unstaged(hash, idx, workdir)
  {
    unstaged := [];
    var k := 0;
    while k < |idx|
      invariant 0 <= k <= |idx|
      invariant unstaged == Unstaged(hash, idx[..k], workdir)
    {
      var p, oid := idx[k].0, idx[k].1;
      assert idx[..k + 1][..k] == idx[..k] && idx[..k + 1][k] == (p, oid);
      if p !in workdir {
        unstaged := unstaged + [Change("deleted", p)];
      } else if GitHashObject(hash, workdir[p]) != oid {
        unstaged := unstaged + [Change("modified", p)];
      }
      k := k + 1;
    }
    assert idx[..k] == idx;
  }

  // ---------------------------------------------------------------- properties

  /** The hash `status` computes is the blob id `add` stores under. */
  lemma SameBlobHash(hash: string -> Oid, data: string)
    ensures GitHashObject(hash, data) == ComputeBlobHash(hash, data).0
    ensures GitHashObject(hash, data) == ObjectId(hash, "blob", data)
  {
  }

  /** A listed, non-ignored file in the index is staged as new when HEAD's
      tree lacks it and as modified when the ids differ; nothing else from
      the file loop is staged. */
  lemma {:induction false} ScanStaged(files: seq<string>, ignored: string -> bool, idx: Dict<Oid>, commit: Dict<Oid>, x: Change)
    ensures x in ScanFiles(files, ignored, idx, commit).0 <==>
      x.path in files && !ignored(x.path) && Get(idx, x.path).Some?
      && ((x.action == "new file" && Get(commit, x.path).None?)
          || (x.action == "modified" && Get(commit, x.path).Some? && Get(commit, x.path) != Get(idx, x.path)))
    decreases |files|
  {
    if files != [] {
      var init := files[..|files| - 1];
      var f := files[|files| - 1];
      ScanStaged(init, ignored, idx, commit, x);
      assert files == init + [f];
      assert x.path in files <==> x.path in init || x.path == f;
    }
  }

  /** A listed, non-ignored file in neither the index nor HEAD's tree is
      untracked, and only those. */
  lemma {:induction false} ScanUntracked(files: seq<string>, ignored: string -> bool, idx: Dict<Oid>, commit: Dict<Oid>, x: Change)
    ensures x in ScanFiles(files, ignored, idx, commit).1 <==>
      x.path in files && !ignored(x.path) && x.action == "?" && Get(idx, x.path).None? && Get(commit, x.path).None?
    decreases |files|
  {
    if files != [] {
      var init := files[..|files| - 1];
      var f := files[|files| - 1];
      ScanUntracked(init, ignored, idx, commit, x);
      assert files == init + [f];
      assert x.path in files <==> x.path in init || x.path == f;
    }
  }

  /** Every path of HEAD's tree missing from the index is staged as
      deleted, whatever the disk holds and whatever the ignore rules say. */
  lemma {:induction false} DeletedMembers(paths: seq<string>, idx: Dict<Oid>, x: Change)
    ensures x in Deleted(paths, idx) <==> x.action == "deleted" && x.path in paths && Get(idx, x.path).None?
    decreases |paths|
  {
    if paths != [] {
      var init := paths[..|paths| - 1];
      DeletedMembers(init, idx, x);
      assert paths == init + [paths[|paths| - 1]];
    }
  }

  /** An index path missing on disk is unstaged as deleted; one whose bytes
      hash to another id than the index records is unstaged as modified. */
  lemma {:induction false} UnstagedMembers(hash: string -> Oid, d: Dict<Oid>, workdir: map<string, string>, x: Change)
    requires DistinctKeys(d)
    ensures x in Unstaged(hash, d, workdir) <==>
      Get(d, x.path).Some?
      && ((x.action == "deleted" && x.path !in workdir)
          || (x.action == "modified" && x.path in workdir && GitHashObject(hash, workdir[x.path]) != Get(d, x.path).value))
    decreases |d|
  {
    if d != [] {
      var init := d[..|d| - 1];
      var last := d[|d| - 1];
      assert d == init + [(last.0, last.1)];
      assert DistinctKeys(init);
      UnstagedMembers(hash, init, workdir, x);
      GetSnoc(init, last.0, last.1, x.path);
      if x.path == last.0 {
        assert Get(init, x.path).None? by {
          forall i | 0 <= i < |init| ensures Keys(init)[i] != last.0 {
            assert init[i] == d[i];
          }
        }
      }
    }
  }

  /** Reading a dictionary with one more, new key at the end. */
  lemma {:induction false} GetSnoc<V>(d: Dict<V>, k: string, v: V, x: string)
    requires DistinctKeys(d + [(k, v)])
    ensures Get(d + [(k, v)], x) == if x == k then Some(v) else Get(d, x)
    decreases |d|
  {
    if d == [] {
      assert Get([(k, v)][1..], x) == None;
    } else {
      assert (d + [(k, v)])[1..] == d[1..] + [(k, v)];
      assert DistinctKeys(d[1..] + [(k, v)]) by {
        var e := d[1..] + [(k, v)];
        forall i, j | 0 <= i < j < |e| ensures e[i].0 != e[j].0 {
          assert e[i] == (d + [(k, v)])[i + 1] && e[j] == (d + [(k, v)])[j + 1];
        }
      }
      GetSnoc(d[1..], k, v, x);
      assert (d + [(k, v)])[0] == d[0];
      if x == k {
        assert d[0].0 != k by {
          assert (d + [(k, v)])[|d|] == (k, v);
        }
      }
    }
  }

  /** The condition under which `status` prints the clean message: among
      the listed, non-ignored files, every one is in the index with the id
      HEAD's tree has; every file of HEAD's tree is in the index; and every
      indexed file is on disk with the bytes of its indexed id. */
  predicate UpToDate(hash: string -> Oid, idx: Dict<Oid>, commit: Dict<Oid>, workdir: map<string, string>,
                     files: seq<string>, ignored: string -> bool)
  {
    && (forall f | f in files && !ignored(f) :: Get(idx, f) == Get(commit, f) && Get(idx, f).Some?)
    && (forall p | p in Keys(commit) :: Get(idx, p).Some?)
    && (forall p | p in Keys(idx) :: p in workdir && GitHashObject(hash, workdir[p]) == Get(idx, p).value)
  }

  /** The clean message is printed exactly when the three agree. */
  lemma CleanIff(hash: string -> Oid, idx: Dict<Oid>, commit: Dict<Oid>, workdir: map<string, string>,
                 files: seq<string>, ignored: string -> bool)
    requires DistinctKeys(idx)
    ensures Clean(Classify(hash, idx, commit, workdir, files, ignored)) <==> UpToDate(hash, idx, commit, workdir, files, ignored)
  {
    if Clean(Classify(hash, idx, commit, workdir, files, ignored)) {
      CleanIsUpToDate(hash, idx, commit, workdir, files, ignored);
    }
    if UpToDate(hash, idx, commit, workdir, files, ignored) {
      UpToDateIsClean(hash, idx, commit, workdir, files, ignored);
    }
  }

  lemma CleanIsUpToDate(hash: string -> Oid, idx: Dict<Oid>, commit: Dict<Oid>, workdir: map<string, string>,
                        files: seq<string>, ignored: string -> bool)
    requires DistinctKeys(idx)
    requires Clean(Classify(hash, idx, commit, workdir, files, ignored))
    ensures UpToDate(hash, idx, commit, workdir, files, ignored)
  {
    var sc := ScanFiles(files, ignored, idx, commit);
    assert sc.0 == [] && sc.1 == [] && Deleted(Keys(commit), idx) == [];
    NothingStagedOrUntracked(files, ignored, idx, commit);
    forall p | p in Keys(commit) ensures Get(idx, p).Some? {
      DeletedMembers(Keys(commit), idx, Change("deleted", p));
    }
    forall f | f in files && !ignored(f) ensures Get(idx, f) == Get(commit, f) && Get(idx, f).Some? {
      assert Get(commit, f).Some? ==> f in Keys(commit);
    }
    NothingUnstaged(hash, idx, workdir);
  }

  lemma NothingStagedOrUntracked(files: seq<string>, ignored: string -> bool, idx: Dict<Oid>, commit: Dict<Oid>)
    requires ScanFiles(files, ignored, idx, commit) == ([], [])
    ensures forall f | f in files && !ignored(f) ::
      (Get(idx, f).Some? ==> Get(idx, f) == Get(commit, f)) && (Get(idx, f).Some? || Get(commit, f).Some?)
  {
    forall f | f in files && !ignored(f)
      ensures (Get(idx, f).Some? ==> Get(idx, f) == Get(commit, f)) && (Get(idx, f).Some? || Get(commit, f).Some?)
    {
      ScanStaged(files, ignored, idx, commit, Change("new file", f));
      ScanStaged(files, ignored, idx, commit, Change("modified", f));
      ScanUntracked(files, ignored, idx, commit, Change("?", f));
    }
  }

  lemma NothingUnstaged(hash: string -> Oid, idx: Dict<Oid>, workdir: map<string, string>)
    requires DistinctKeys(idx) && Unstaged(hash, idx, workdir) == []
    ensures forall p | p in Keys(idx) :: p in workdir && GitHashObject(hash, workdir[p]) == Get(idx, p).value
  {
    forall p | p in Keys(idx) ensures p in workdir && GitHashObject(hash, workdir[p]) == Get(idx, p).value {
      UnstagedMembers(hash, idx, workdir, Change("deleted", p));
      UnstagedMembers(hash, idx, workdir, Change("modified", p));
    }
  }

  lemma UpToDateIsClean(hash: string -> Oid, idx: Dict<Oid>, commit: Dict<Oid>, workdir: map<string, string>,
                        files: seq<string>, ignored: string -> bool)
    requires DistinctKeys(idx)
    requires UpToDate(hash, idx, commit, workdir, files, ignored)
    ensures Clean(Classify(hash, idx, commit, workdir, files, ignored))
  {
    var sc := ScanFiles(files, ignored, idx, commit);
    var del := Deleted(Keys(commit), idx);
    var un := Unstaged(hash, idx, workdir);
    if sc.0 != [] {
      ScanStaged(files, ignored, idx, commit, sc.0[0]);
    }
    if del != [] {
      DeletedMembers(Keys(commit), idx, del[0]);
    }
    if sc.1 != [] {
      ScanUntracked(files, ignored, idx, commit, sc.1[0]);
    }
    if un != [] {
      UnstagedMembers(hash, idx, workdir, un[0]);
    }
  }

  // ---------------------------------------------------------------- list_project_files

  /** `'.git' in p.parts`: some `/`-separated component of the path is `.git`. */
  predicate HasGitPart(p: string) {
    ".git" in Split(p, '/')
  }

  /** What `list_project_files()` returns: every working file without a
      `.git` component, each once. */
  predicate ProjectFiles(files: seq<string>, workdir: map<string, string>) {
    && (forall i, j | 0 <= i < j < |files| :: files[i] != files[j])
    && (forall f | f in files :: f in workdir && !HasGitPart(f))
    && (forall f | f in workdir && !HasGitPart(f) :: f in files)
  }

  /** `UpToDate` with the working directory in place of the listing: every
      non-ignored working file outside `.git` is in the index with the id
      HEAD's tree has, every file of HEAD's tree is in the index, and every
      indexed file is on disk with the bytes of its indexed id. */
  predicate WorkdirUpToDate(hash: string -> Oid, idx: Dict<Oid>, commit: Dict<Oid>, workdir: map<string, string>,
                            ignored: string -> bool)
  {
    && (forall f | f in workdir && !HasGitPart(f) && !ignored(f) :: Get(idx, f) == Get(commit, f) && Get(idx, f).Some?)
    && (forall p | p in Keys(commit) :: Get(idx, p).Some?)
    && (forall p | p in Keys(idx) :: p in workdir && GitHashObject(hash, workdir[p]) == Get(idx, p).value)
  }

  /** With the listing `list_project_files()` gives, the clean message is
      printed exactly when HEAD's tree, the index and the working directory
      agree. */
  lemma CleanIffWorkdir(hash: string -> Oid, idx: Dict<Oid>, commit: Dict<Oid>, workdir: map<string, string>,
                        files: seq<string>, ignored: string -> bool)
    requires DistinctKeys(idx) && ProjectFiles(files, workdir)
    ensures Clean(Classify(hash, idx, commit, workdir, files, ignored)) <==> WorkdirUpToDate(hash, idx, commit, workdir, ignored)
  {
    CleanIff(hash, idx, commit, workdir, files, ignored);
    if UpToDate(hash, idx, commit, workdir, files, ignored) {
      forall f | f in workdir && !HasGitPart(f) && !ignored(f) ensures Get(idx, f) == Get(commit, f) && Get(idx, f).Some? {
        assert f in files;
      }
    }
    if WorkdirUpToDate(hash, idx, commit, workdir, ignored) {
      forall f | f in files && !ignored(f) ensures Get(idx, f) == Get(commit, f) && Get(idx, f).Some? {
        assert f in workdir && !HasGitPart(f);
      }
    }
  }

  /** With that listing, a working file is reported untracked exactly when it
      lies outside `.git`, is not ignored, and is in neither the index nor
      HEAD's tree. */
  lemma UntrackedWorkdir(hash: string -> Oid, idx: Dict<Oid>, commit: Dict<Oid>, workdir: map<string, string>,
                         files: seq<string>, ignored: string -> bool, f: string)
    requires ProjectFiles(files, workdir)
    ensures Change("?", f) in Classify(hash, idx, commit, workdir, files, ignored).untracked <==>
      f in workdir && !HasGitPart(f) && !ignored(f) && Get(idx, f).None? && Get(commit, f).None?
  {
    ScanUntracked(files, ignored, idx, commit, Change("?", f));
  }

  /** A file under a `.git` directory is never reported untracked, whatever
      the ignore rules say. */
  lemma GitFilesNeverUntracked(hash: string -> Oid, idx: Dict<Oid>, commit: Dict<Oid>, workdir: map<string, string>,
                               files: seq<string>, ignored: string -> bool, name: string)
    requires ProjectFiles(files, workdir)
    requires '/' !in name
    ensures Change("?", ".git/" + name) !in Classify(hash, idx, commit, workdir, files, ignored).untracked
  {
    var p := ".git/" + name;
    assert Find(p, '/', 0) == 4 by { FindFirst(p, '/', 0, 4); }
    assert p[..4] == ".git";
    assert HasGitPart(p);
    UntrackedWorkdir(hash, idx, commit, workdir, files, ignored, p);
  }

  /** One path can be staged and unstaged at once: staged as modified
      against HEAD's tree and unstaged as modified against the disk. */
  lemma StagedAndUnstaged(hash: string -> Oid, idx: Dict<Oid>, commit: Dict<Oid>, workdir: map<string, string>,
                          files: seq<string>, ignored: string -> bool, f: string)
    requires DistinctKeys(idx)
    requires f in files && !ignored(f) && f in workdir
    requires Get(idx, f).Some? && Get(commit, f).Some? && Get(idx, f) != Get(commit, f)
    requires GitHashObject(hash, workdir[f]) != Get(idx, f).value
    ensures var r := Classify(hash, idx, commit, workdir, files, ignored);
      Change("modified", f) in r.staged && Change("modified", f) in r.unstaged
  {
    ScanStaged(files, ignored, idx, commit, Change("modified", f));
    UnstagedMembers(hash, idx, workdir, Change("modified", f));
  }

  /** The path map keeps one item per path. */
  lemma PathMapDistinct(es: seq<IndexEntry>)
    ensures DistinctKeys(PathMap(es))
  {
    UpdateDistinct([], Pairs(es));
  }

  lemma {:induction false} UpdateDistinct<V>(d: Dict<V>, e: Dict<V>)
    requires DistinctKeys(d)
    ensures DistinctKeys(Update(d, e))
    decreases |e|
  {
    if e != [] {
      PutDistinct(d, e[0].0, e[0].1);
      UpdateDistinct(Put(d, e[0].0, e[0].1), e[1..]);
    }
  }

  /** HEAD pointing at a commit the commit command wrote: `status` compares
      against that commit's root tree. */
  lemma HeadTreeOfBuiltCommit(store: map<string, string>, head: Option<string>, refs: map<string, string>,
                              tree: Oid, sig: Signature, message: string, parent: Option<string>)
    requires HeadCommitId(head, refs).Ok?
    requires ReadObject(store, HeadCommitId(head, refs).value) == Ok(("commit", CommitContent(tree, sig, message, parent)))
    ensures HeadTreeSpec(store, head, refs) == Ok(tree)
  {
    var data := CommitContent(tree, sig, message, parent);
    CommitFirstLine(tree, sig, message, parent);
    TreeFromTreeLine(tree, Split(data, '\n'));
  }

  /** The first line of a built commit is its `tree` line. */
  lemma CommitFirstLine(tree: Oid, sig: Signature, message: string, parent: Option<string>)
    ensures Split(CommitContent(tree, sig, message, parent), '\n')[0] == "tree " + tree
  {
    var lines := CommitLines(tree, sig, message, parent);
    var first := "tree " + tree;
    assert lines == [first] + lines[1..];
    TreeWord(tree);
    FirstLineOfJoin(first, lines[1..]);
  }

  /** Lines that start with a `tree` line give its id. */
  lemma TreeFromTreeLine(tree: Oid, lines: seq<string>)
    requires |lines| >= 1 && lines[0] == "tree " + tree
    ensures TreeFromLines(lines) == Ok(tree)
  {
    TreeWord(tree);
  }

  /** A `tree <id>` line yields the id. */
  lemma TreeWord(tree: Oid)
    ensures '\n' !in "tree " + tree
    ensures StartsWith("tree " + tree, "tree ")
    ensures var w := Words("tree " + tree, IsByteSpace); |w| >= 2 && w[1] == tree
  {
    OidIsPlain(tree);
    TreeLineShape(tree);
    TreeLineWords(tree);
  }

  /** An object id holds no whitespace and no line break. */
  lemma OidIsPlain(o: Oid)
    ensures NoneSpace(o, IsByteSpace) && '\n' !in o
  {
    forall k | 0 <= k < |o| ensures !IsByteSpace(o[k]) && o[k] != '\n' {
      assert IsLowerHexChar(o[k]);
    }
  }

  lemma TreeLineShape(tree: string)
    requires '\n' !in tree
    ensures '\n' !in "tree " + tree
    ensures StartsWith("tree " + tree, "tree ")
  {
    assert ("tree " + tree)[..5] == "tree ";
  }

  lemma TreeLineWords(tree: string)
    requires tree != [] && NoneSpace(tree, IsByteSpace)
    ensures Words("tree " + tree, IsByteSpace) == ["tree", tree]
  {
    assert "tree " + tree == "tree" + " " + tree;
    WordsPair("tree", tree, IsByteSpace);
  }
}
