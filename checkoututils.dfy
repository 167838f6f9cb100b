/** The helpers of git_scratch/utils/checkout_utils.py that `checkout`
    uses: resolving HEAD, finding a commit's tree, deciding whether the
    working directory differs from HEAD, writing a ref file, and replacing
    the working directory by a commit's top-level files. The tree readers
    `read_tree` and `read_tree_files` are in TreeWalk; the listing of
    working files is the key set of the working directory. */
module CheckoutUtils {
  import opened Common
  import opened Text
  import opened Dicts
  import opened Objects
  import opened Repository
  import opened TreeCodec
  import opened TreeWalk
  import opened Commits

  /** Python's `s[n:]`: empty when `s` is shorter than `n`. */
  function Drop(s: string, n: nat): (r: string)
    ensures |s| <= n ==> r == []
    ensures n <= |s| ==> r == s[n..]
  {
    if |s| <= n then [] else s[n..]
  }

  // ---------------------------------------------------------------- get_oid_from_ref

  /** `get_oid_from_ref(ref_name)`: the argument is not used; HEAD is read
      and stripped, and when it starts with "ref:" the ref file named by the
      text after its fifth character is read and stripped, otherwise HEAD's
      own text is the answer. A missing HEAD or ref file raises. */
  function GetOidFromRef(refName: string, head: Option<string>, refs: map<string, string>): (r: Result<string>)
    ensures r.Err? ==> r.error == NotFound
    ensures head.None? ==> r == Err(NotFound)
  {
    if head.None? then Err(NotFound)
    else
      var data := Strip(head.value);
      if StartsWith(data, "ref:") then
        var name := Drop(data, 5);
        if name in refs then Ok(Strip(refs[name])) else Err(NotFound)
      else Ok(data)
  }

  /** The name passed in makes no difference. */
  lemma IgnoresItsArgument(a: string, b: string, head: Option<string>, refs: map<string, string>)
    ensures GetOidFromRef(a, head, refs) == GetOidFromRef(b, head, refs)
  {
  }

  /** A HEAD written as "ref: <name>" gives the named ref's stripped text, or
      fails when that ref does not exist; a detached HEAD gives its own
      stripped text. */
  lemma OidFromHead(name: string, refs: map<string, string>, id: string)
    requires name != [] && !IsStrSpace(name[|name| - 1])
    requires id != [] && !IsStrSpace(id[0]) && !IsStrSpace(id[|id| - 1]) && !StartsWith(id, "ref:")
    ensures GetOidFromRef("HEAD", Some("ref: " + name + "\n"), refs)
      == if name in refs then Ok(Strip(refs[name])) else Err(NotFound)
    ensures GetOidFromRef("HEAD", Some(id + "\n"), refs) == Ok(id)
  {
    var c := "ref: " + name;
    StripPlainText(c);
    assert c[..4] == "ref:";
    assert c[5..] == name;
    StripPlainText(id);
  }

  // ---------------------------------------------------------------- get_commit_tree

  /** `get_commit_tree(oid)`: the object must be a commit (an assertion);
      its first newline-separated line is split at single spaces and the
      second piece is the tree. Fewer than two pieces is an IndexError. */
  function GetCommitTree(store: map<string, string>, oid: string): (r: Result<string>)
    ensures oid !in store ==> r == Err(NotFound)
    ensures r.Ok? ==> ReadObjectLoose(store, oid).Ok? && ReadObjectLoose(store, oid).value.0 == "commit"
  {
    match ReadObjectLoose(store, oid)
    case Err(e) => Err(e)
    case Ok((kind, c)) =>
      if kind != "commit" then Err(NotACommit)
      else
        var parts := Split(Split(c, '\n')[0], ' ');
        if |parts| < 2 then Err(Malformed) else Ok(parts[1])
  }

  /** For a commit the project builds, the tree it names is found. */
  lemma CommitTreeOfBuiltCommit(store: map<string, string>, oid: string,
                                tree: Oid, sig: Signature, message: string, parent: Option<string>)
    requires ReadObjectLoose(store, oid) == Ok(("commit", CommitContent(tree, sig, message, parent)))
    ensures GetCommitTree(store, oid) == Ok(tree)
  {
    var lines := CommitLines(tree, sig, message, parent);
    var first := "tree " + tree;
    assert lines == [first] + lines[1..];
    assert ' ' !in tree && '\n' !in tree by {
      forall k | 0 <= k < |tree| ensures tree[k] != ' ' && tree[k] != '\n' {
        assert IsLowerHexChar(tree[k]);
      }
    }
    assert '\n' !in first by {
      assert forall k | 5 <= k < |first| :: first[k] == tree[k - 5];
    }
    FirstLineOfJoin(first, lines[1..]);
    assert JoinWith(["tree", tree], ' ') == first;
    SplitJoin(["tree", tree], ' ');
  }

  // ---------------------------------------------------------------- detect_dirty_workdir

  /** A tracked file that makes the working directory dirty: it is missing,
      or its blob can be read and differs from the file. */
  predicate Differs(store: map<string, string>, f: (string, string), workdir: map<string, string>) {
    f.0 !in workdir
    || (ReadObjectLoose(store, f.1).Ok? && ReadObjectLoose(store, f.1).value.1 != workdir[f.0])
  }

  /** The comparison loop of `detect_dirty_workdir` over the tracked files
      in order: a missing file or a different content answers true at once;
      a blob that cannot be read raises. */
  function DirtyFrom(store: map<string, string>, files: Dict<string>, workdir: map<string, string>): Result<bool>
    decreases |files|
  {
    if files == [] then Ok(false)
    else if files[0].0 !in workdir then Ok(true)
    else
      match ReadObjectLoose(store, files[0].1)
      case Err(e) => Err(e)
      case Ok((_, blob)) => if blob != workdir[files[0].0] then Ok(true) else DirtyFrom(store, files[1..], workdir)
  }

  /** HEAD's commit for `detect_dirty_workdir`: None when there is no HEAD or
      its symbolic target has no ref file. */
  function DirtyHeadOid(head: Option<string>, refs: map<string, string>): Option<string> {
    if head.None? then None
    else
      var text := Strip(head.value);
      if StartsWith(text, "ref:") then
        var name := Drop(text, 5);
        if name in refs then Some(Strip(refs[name])) else None
      else Some(text)
  }

  /** `detect_dirty_workdir()`. */
  function DirtySpec(store: map<string, string>, head: Option<string>, refs: map<string, string>,
                     workdir: map<string, string>, fuel: nat): Result<bool>
  {
    var id := DirtyHeadOid(head, refs);
    if id.None? || id.value == "" then Ok(false)
    else
      match GetCommitTree(store, id.value)
      case Err(e) => Err(e)
      case Ok(tree) =>
        match TreeFiles(store, tree, "", fuel)
        case Err(e) => Err(e)
        case Ok(files) => DirtyFrom(store, files, workdir)
  }

  method DetectDirtyWorkdir(repo: Repo, fuel: nat) returns (r: Result<bool>)
    ensures r == DirtySpec(repo.store, repo.head, repo.refs, repo.workdir, fuel)
  {
    if repo.head.None? {
      return Ok(false);
    }
    var text := Strip(repo.head.value);
    var id := text;
    if StartsWith(text, "ref:") {
      var name := Drop(text, 5);
      if name !in repo.refs {
        return Ok(false);
      }
      id := Strip(repo.refs[name]);
    }
    assert DirtyHeadOid(repo.head, repo.refs) == Some(id);
    if id == "" {
      return Ok(false);
    }
    var tree := GetCommitTree(repo.store, id);
    if tree.Err? {
      return Err(tree.error);
    }
    var tracked := ReadTreeFiles(repo, tree.value, "", fuel);
    if tracked.Err? {
      return Err(tracked.error);
    }
    var files := tracked.value;
    var i := 0;
    while i < |files|
      invariant 0 <= i <= |files|
      invariant DirtyFrom(repo.store, files, repo.workdir) == DirtyFrom(repo.store, files[i..], repo.workdir)
    {
      assert files[i..][1..] == files[i + 1..];
      var (path, oid) := files[i];
      if path !in repo.workdir {
        return Ok(true);
      }
      var obj := ReadObjectLoose(repo.store, oid);
      if obj.Err? {
        return Err(obj.error);
      }
      if obj.value.1 != repo.workdir[path] {
        return Ok(true);
      }
      i := i + 1;
    }
    return Ok(false);
  }

  /** No HEAD, a symbolic HEAD whose ref file is missing, or an empty id: the
      working directory counts as clean. */
  lemma CleanWithoutCommit(store: map<string, string>, head: Option<string>, refs: map<string, string>,
                           workdir: map<string, string>, fuel: nat)
    requires head.None? || DirtyHeadOid(head, refs).None? || DirtyHeadOid(head, refs) == Some("")
    ensures DirtySpec(store, head, refs, workdir, fuel) == Ok(false)
  {
  }

  /** When every tracked file that exists can be read, the answer is true
      exactly when some tracked file is missing or differs. */
  lemma {:induction false} DirtyIff(store: map<string, string>, files: Dict<string>, workdir: map<string, string>)
    requires forall k | 0 <= k < |files| :: files[k].0 in workdir ==> ReadObjectLoose(store, files[k].1).Ok?
    ensures DirtyFrom(store, files, workdir) == Ok(exists k | 0 <= k < |files| :: Differs(store, files[k], workdir))
    decreases |files|
  {
    if files != [] {
      DirtyIff(store, files[1..], workdir);
      if Differs(store, files[0], workdir) {
        assert exists k | 0 <= k < |files| :: Differs(store, files[k], workdir);
      } else {
        assert (exists k | 0 <= k < |files| :: Differs(store, files[k], workdir))
          == (exists k | 0 <= k < |files[1..]| :: Differs(store, files[1..][k], workdir)) by {
          forall k | 0 <= k < |files| && Differs(store, files[k], workdir)
            ensures 1 <= k && Differs(store, files[1..][k - 1], workdir)
          {
            assert files[1..][k - 1] == files[k];
          }
          forall k | 0 <= k < |files[1..]| && Differs(store, files[1..][k], workdir)
            ensures Differs(store, files[k + 1], workdir)
          {
            assert files[1..][k] == files[k + 1];
          }
        }
      }
    }
  }

  /** Untracked files never matter: two working directories that agree on
      the tracked paths get the same answer. */
  lemma {:induction false} UntrackedIgnored(store: map<string, string>, files: Dict<string>,
                                            w1: map<string, string>, w2: map<string, string>)
    requires forall k | 0 <= k < |files| :: (files[k].0 in w1 <==> files[k].0 in w2)
    requires forall k | 0 <= k < |files| :: files[k].0 in w1 ==> w1[files[k].0] == w2[files[k].0]
    ensures DirtyFrom(store, files, w1) == DirtyFrom(store, files, w2)
    decreases |files|
  {
    if files != [] {
      assert forall k | 0 <= k < |files[1..]| :: files[1..][k] == files[k + 1];
      UntrackedIgnored(store, files[1..], w1, w2);
    }
  }

  // ---------------------------------------------------------------- write_ref, resolve_target_to_oid

  /** `write_ref(path, oid)`: the ref file holds the id and a newline. */
  method WriteRefFile(repo: Repo, name: string, oid: string)
    modifies repo`refs
    ensures repo.refs == old(repo.refs)[name := oid + "\n"]
  {
    repo.WriteRef(name, oid + "\n");
  }

  /** `resolve_target_to_oid(target)` of checkout_utils.py: the branch's
      stripped text when the branch exists, otherwise the target itself. */
  function ResolveTarget(target: string, refs: map<string, string>): (r: string)
    ensures "refs/heads/" + target !in refs ==> r == target
  {
    var name := "refs/heads/" + target;
    if name in refs then Strip(refs[name]) else target
  }

  /** A branch written by `write_ref` resolves back to the id it holds. */
  lemma WrittenBranchResolves(target: string, refs: map<string, string>, oid: string)
    requires oid != [] && !IsStrSpace(oid[0]) && !IsStrSpace(oid[|oid| - 1])
    ensures ResolveTarget(target, refs["refs/heads/" + target := oid + "\n"]) == oid
  {
    StripPlainText(oid);
  }

  // ---------------------------------------------------------------- restore_working_dir

  /** A readable blob. */
  predicate IsBlob(store: map<string, string>, oid: string) {
    ReadObjectLoose(store, oid).Ok? && ReadObjectLoose(store, oid).value.0 == "blob"
  }

  /** The rewriting loop of `restore_working_dir`: each entry's object is
      read, must be a blob, and is written at the entry's name. */
  function RestoreFrom(store: map<string, string>, entries: Dict<(string, string)>, workdir: map<string, string>)
    : (map<string, string>, Option<Failure>)
    decreases |entries|
  {
    if entries == [] then (workdir, None)
    else
      match ReadObjectLoose(store, entries[0].1.1)
      case Err(e) => (workdir, Some(e))
      case Ok((kind, data)) =>
        if kind != "blob" then (workdir, Some(NotABlob))
        else RestoreFrom(store, entries[1..], workdir[entries[0].0 := data])
  }

  /** `restore_working_dir(oid)`: the commit's tree is read first, so a bad
      commit or tree changes nothing; then every working file is removed and
      the tree's top-level entries are written. */
  function RestoreSpec(store: map<string, string>, oid: string, workdir: map<string, string>)
    : (map<string, string>, Option<Failure>)
  {
    match GetCommitTree(store, oid)
    case Err(e) => (workdir, Some(e))
    case Ok(tree) =>
      match ReadTreeSpec(store, tree)
      case Err(e) => (workdir, Some(e))
      case Ok(entries) => RestoreFrom(store, entries, map[])
  }

  method RestoreWorkingDir(repo: Repo, oid: string) returns (err: Option<Failure>)
    modifies repo`workdir
    ensures (repo.workdir, err) == RestoreSpec(repo.store, oid, old(repo.workdir))
  {
    var tree := GetCommitTree(repo.store, oid);
    if tree.Err? {
      return Some(tree.error);
    }
    var read := ReadTree(repo, tree.value);
    if read.Err? {
      return Some(read.error);
    }
    var entries := read.value;
    while repo.workdir != map[]
      invariant ReadTreeSpec(repo.store, tree.value) == Ok(entries)
      decreases |repo.workdir.Keys|
    {
      assert repo.workdir.Keys != {};
      var f :| f in repo.workdir;
      repo.RemoveFile(f);
    }
    var i := 0;
    while i < |entries|
      invariant 0 <= i <= |entries|
      invariant RestoreSpec(repo.store, oid, old(repo.workdir)) == RestoreFrom(repo.store, entries[i..], repo.workdir)
    {
      assert entries[i..][1..] == entries[i + 1..];
      var (path, item) := entries[i];
      var obj := ReadObjectLoose(repo.store, item.1);
      if obj.Err? {
        return Some(obj.error);
      }
      if obj.value.0 != "blob" {
        return Some(NotABlob);
      }
      repo.WriteFile(path, obj.value.1);
      i := i + 1;
    }
    return None;
  }

  /** The rewriting succeeds exactly when every entry is a readable blob. */
  lemma {:induction false} RestoreComplete(store: map<string, string>, entries: Dict<(string, string)>, w: map<string, string>)
    ensures RestoreFrom(store, entries, w).1.None? <==> forall k | 0 <= k < |entries| :: IsBlob(store, entries[k].1.1)
    decreases |entries|
  {
    if entries != [] && IsBlob(store, entries[0].1.1) {
      RestoreComplete(store, entries[1..], w[entries[0].0 := ReadObjectLoose(store, entries[0].1.1).value.1]);
      assert forall k | 1 <= k < |entries| :: entries[k] == entries[1..][k - 1];
    }
  }

  /** A name no entry has keeps its file, or its absence. */
  lemma {:induction false} RestoreKeeps(store: map<string, string>, entries: Dict<(string, string)>, w: map<string, string>, p: string)
    requires p !in Keys(entries)
    ensures var w' := RestoreFrom(store, entries, w).0;
      (p in w' <==> p in w) && (p in w ==> w'[p] == w[p])
    decreases |entries|
  {
    if entries != [] && IsBlob(store, entries[0].1.1) {
      assert p !in Keys(entries[1..]);
      RestoreKeeps(store, entries[1..], w[entries[0].0 := ReadObjectLoose(store, entries[0].1.1).value.1], p);
    }
  }

  /** After complete rewriting with distinct names, every entry's name holds
      its blob. */
  lemma {:induction false} RestoreWrites(store: map<string, string>, entries: Dict<(string, string)>, w: map<string, string>, k: nat)
    requires RestoreFrom(store, entries, w).1.None? && DistinctKeys(entries) && k < |entries|
    ensures IsBlob(store, entries[k].1.1)
    ensures var w' := RestoreFrom(store, entries, w).0;
      entries[k].0 in w' && w'[entries[k].0] == ReadObjectLoose(store, entries[k].1.1).value.1
    decreases |entries|
  {
    var w1 := w[entries[0].0 := ReadObjectLoose(store, entries[0].1.1).value.1];
    if k == 0 {
      assert entries[0].0 !in Keys(entries[1..]) by {
        assert forall j | 0 <= j < |entries[1..]| :: entries[1..][j] == entries[j + 1];
      }
      RestoreKeeps(store, entries[1..], w1, entries[0].0);
    } else {
      assert DistinctKeys(entries[1..]) by {
        assert forall j | 0 <= j < |entries[1..]| :: entries[1..][j] == entries[j + 1];
      }
      RestoreWrites(store, entries[1..], w1, k - 1);
      assert entries[1..][k - 1] == entries[k];
    }
  }

  /** After a successful `restore_working_dir`, the working directory holds
      exactly the tree's top-level names, each with its blob: every other
      file, tracked or not, is gone. */
  lemma RestoreResult(store: map<string, string>, oid: string, w: map<string, string>, p: string, k: nat)
    requires RestoreSpec(store, oid, w).1.None?
    ensures GetCommitTree(store, oid).Ok? && ReadTreeSpec(store, GetCommitTree(store, oid).value).Ok?
    ensures var entries := ReadTreeSpec(store, GetCommitTree(store, oid).value).value;
      var w' := RestoreSpec(store, oid, w).0;
      && (p in w' <==> p in Keys(entries))
      && (k < |entries| ==> IsBlob(store, entries[k].1.1) && entries[k].0 in w' && w'[entries[k].0] == ReadObjectLoose(store, entries[k].1.1).value.1)
  {
    var tree := GetCommitTree(store, oid).value;
    var entries := ReadTreeSpec(store, tree).value;
    assert RestoreSpec(store, oid, w) == RestoreFrom(store, entries, map[]);
    ReadTreeDistinct(store, tree);
    if p !in Keys(entries) {
      RestoreKeeps(store, entries, map[], p);
    } else {
      var j :| 0 <= j < |entries| && entries[j].0 == p;
      RestoreWrites(store, entries, map[], j);
    }
    if k < |entries| {
      RestoreWrites(store, entries, map[], k);
    }
  }

  /** `read_tree` keeps one item per name. */
  lemma ReadTreeDistinct(store: map<string, string>, oid: string)
    requires ReadTreeSpec(store, oid).Ok?
    ensures DistinctKeys(ReadTreeSpec(store, oid).value)
  {
    var c := ReadObjectLoose(store, oid).value.1;
    ReadTreeFromDistinct(c, 0, []);
  }

  lemma {:induction false} ReadTreeFromDistinct(c: string, i: nat, d: Dict<(string, string)>)
    requires i <= |c| && DistinctKeys(d)
    ensures ReadTreeFrom(c, i, d).Ok? ==> DistinctKeys(ReadTreeFrom(c, i, d).value)
    decreases |c| - i
  {
    if i < |c| && NextRecord(c, i).Ok? {
      var (rec, j) := NextRecord(c, i).value;
      PutDistinct(d, rec.name, (rec.mode, RecordOid(rec)));
      ReadTreeFromDistinct(c, j, Put(d, rec.name, (rec.mode, RecordOid(rec))));
    }
  }
}
