/** Staging: `add` (one file or a directory), `rmfile`, and the file-mode
    classification of `compute_mode`. */
module Index {
  import opened Common
  import opened Text
  import opened Objects
  import opened Repository

  // ---------------------------------------------------------------- modes

  /** `stat.S_ISLNK`: the file-type bits are those of a symbolic link (0o12). */
  predicate IsSymlinkMode(stMode: nat) {
    (stMode / 4096) % 16 == 10
  }

  /** `st_mode & stat.S_IXUSR`: the owner-execute bit (0o100). */
  predicate OwnerExecutable(stMode: nat) {
    (stMode / 64) % 2 == 1
  }

  /** The three modes an index entry for a file can carry. */
  predicate IsFileMode(m: string) {
    m == "100644" || m == "100755" || m == "120000"
  }

  /** `compute_mode` applied to the `st_mode` that `os.stat` reports:
      "120000" exactly when the type bits are a link's, which `os.stat`,
      following links, never reports. */
  function ComputeMode(stMode: nat): (r: string)
    ensures IsFileMode(r)
    ensures r == "120000" <==> IsSymlinkMode(stMode)
    ensures r == "100755" <==> !IsSymlinkMode(stMode) && OwnerExecutable(stMode)
    ensures r == "100644" <==> !IsSymlinkMode(stMode) && !OwnerExecutable(stMode)
  {
    if IsSymlinkMode(stMode) then "120000"
    else if OwnerExecutable(stMode) then "100755"
    else "100644"
  }

  /** The link test comes before the execute test: an `st_mode` with a
      link's type bits and every permission bit (0o120777) is "120000", a
      regular executable file (0o100755) is "100755". `os.stat` follows
      links, so in the source a link's type bits are never seen. */
  lemma ModePrecedence()
    ensures ComputeMode(0xA1FF) == "120000"
    ensures ComputeMode(0x81ED) == "100755"
    ensures ComputeMode(0x81A4) == "100644"
  {
  }

  // ---------------------------------------------------------------- index edits

  /** `[e for e in index if e["path"] != path]`. */
  function WithoutPath(entries: seq<IndexEntry>, path: string): (r: seq<IndexEntry>)
    ensures |r| <= |entries|
    ensures forall e :: e in r <==> e in entries && e.path != path
    decreases |entries|
  {
    if entries == [] then []
    else if entries[0].path == path then WithoutPath(entries[1..], path)
    else [entries[0]] + WithoutPath(entries[1..], path)
  }

  predicate HasPath(entries: seq<IndexEntry>, path: string) {
    exists i | 0 <= i < |entries| :: entries[i].path == path
  }

  /** The filter shortens the list exactly when some entry had the path, so
      "removed from staging area" is reported iff the path was staged. */
  lemma {:induction false} WithoutPathShrinks(entries: seq<IndexEntry>, path: string)
    ensures |WithoutPath(entries, path)| != |entries| <==> HasPath(entries, path)
    ensures !HasPath(entries, path) ==> WithoutPath(entries, path) == entries
    decreases |entries|
  {
    if entries != [] {
      WithoutPathShrinks(entries[1..], path);
      if entries[0].path == path {
        assert HasPath(entries, path);
      } else {
        HasPathTail(entries, path);
        assert entries == [entries[0]] + entries[1..];
      }
    }
  }

  lemma HasPathTail(entries: seq<IndexEntry>, path: string)
    requires entries != [] && entries[0].path != path
    ensures HasPath(entries, path) <==> HasPath(entries[1..], path)
  {
    if HasPath(entries[1..], path) {
      var i :| 0 <= i < |entries[1..]| && entries[1..][i].path == path;
      assert entries[i + 1].path == path;
    }
    if HasPath(entries, path) {
      var i :| 0 <= i < |entries| && entries[i].path == path;
      assert entries[1..][i - 1].path == path;
    }
  }

  /** Filtering is order-preserving: the kept entries form a subsequence. */
  predicate Subsequence(a: seq<IndexEntry>, b: seq<IndexEntry>)
    decreases |b|
  {
    if a == [] then true
    else if b == [] then false
    else if a[0] == b[0] then Subsequence(a[1..], b[1..])
    else Subsequence(a, b[1..])
  }

  lemma {:induction false} WithoutPathKeepsOrder(entries: seq<IndexEntry>, path: string)
    ensures Subsequence(WithoutPath(entries, path), entries)
    decreases |entries|
  {
    if entries != [] {
      WithoutPathKeepsOrder(entries[1..], path);
      var r := WithoutPath(entries, path);
      if entries[0].path != path {
        assert r[0] == entries[0] && r[1..] == WithoutPath(entries[1..], path);
      } else {
        SubsequenceCons(WithoutPath(entries[1..], path), entries[0], entries[1..]);
        assert entries == [entries[0]] + entries[1..];
      }
    }
  }

  lemma SubsequenceCons(a: seq<IndexEntry>, x: IndexEntry, b: seq<IndexEntry>)
    requires Subsequence(a, b)
    ensures Subsequence(a, [x] + b)
    decreases |b|, 1
  {
    assert ([x] + b)[1..] == b;
    if a != [] && a[0] == x {
      SubsequenceTail(a, b);
    }
  }

  lemma SubsequenceTail(a: seq<IndexEntry>, b: seq<IndexEntry>)
    requires a != [] && Subsequence(a, b)
    ensures Subsequence(a[1..], b)
    decreases |b|, 0
  {
    if a[0] == b[0] {
      SubsequenceCons(a[1..], b[0], b[1..]);
      assert b == [b[0]] + b[1..];
    } else {
      SubsequenceTail(a, b[1..]);
      SubsequenceCons(a[1..], b[0], b[1..]);
      assert b == [b[0]] + b[1..];
    }
  }

  /** The index edit of `add_file_to_index`: drop every entry for the path,
      then append the new one. */
  function Upsert(entries: seq<IndexEntry>, e: IndexEntry): seq<IndexEntry> {
    WithoutPath(entries, e.path) + [e]
  }

  /** After an upsert the new entry is the last one and the only one for its
      path; entries for other paths are kept. */
  lemma UpsertSpec(entries: seq<IndexEntry>, e: IndexEntry)
    ensures var r := Upsert(entries, e);
      |r| >= 1 && r[|r| - 1] == e
      && (forall i | 0 <= i < |r| - 1 :: r[i].path != e.path)
      && (forall x :: x in r && x.path != e.path <==> x in entries && x.path != e.path)
  {
    var w := WithoutPath(entries, e.path);
    forall i | 0 <= i < |w| ensures w[i].path != e.path {
      assert w[i] in w;
    }
  }

  /** Adding the same entry twice gives the index that adding it once gives. */
  lemma {:induction false} UpsertIdempotent(entries: seq<IndexEntry>, e: IndexEntry)
    ensures Upsert(Upsert(entries, e), e) == Upsert(entries, e)
  {
    var w := WithoutPath(entries, e.path);
    WithoutPathAppend(w, e);
    WithoutPathTwice(entries, e.path);
  }

  lemma {:induction false} WithoutPathAppend(w: seq<IndexEntry>, e: IndexEntry)
    ensures WithoutPath(w + [e], e.path) == WithoutPath(w, e.path)
    decreases |w|
  {
    if w == [] {
      assert [] + [e] == [e];
      assert [e][1..] == [];
    } else {
      assert (w + [e])[1..] == w[1..] + [e];
      WithoutPathAppend(w[1..], e);
    }
  }

  lemma {:induction false} WithoutPathTwice(entries: seq<IndexEntry>, path: string)
    ensures WithoutPath(WithoutPath(entries, path), path) == WithoutPath(entries, path)
    decreases |entries|
  {
    if entries != [] {
      WithoutPathTwice(entries[1..], path);
      if entries[0].path != path {
        var r := WithoutPath(entries, path);
        assert r[0] == entries[0] && r[1..] == WithoutPath(entries[1..], path);
      }
    }
  }

  // ---------------------------------------------------------------- add

  /** The index entry `add` stages for a file with these bytes and mode bits. */
  function StagedEntry(hash: string -> Oid, path: string, data: string, stMode: nat): IndexEntry {
    IndexEntry(ComputeMode(stMode), ObjectId(hash, "blob", data), path)
  }

  /** `add_file_to_index`: the blob is written unconditionally, and the index
      gets the file's entry by filter-then-append. `stat` stands for `os.stat`. */
  method AddFileToIndex(repo: Repo, path: string, stat: string -> nat) returns (oid: Oid)
    requires path in repo.workdir
    modifies repo`store, repo`index
    ensures oid == ObjectId(repo.hash, "blob", repo.workdir[path])
    ensures repo.store == StoreOverwrite(repo.hash, old(repo.store), Frame("blob", repo.workdir[path]))
    ensures repo.LoadIndex()
      == Upsert(old(repo.LoadIndex()), StagedEntry(repo.hash, path, repo.workdir[path], stat(path)))
    ensures old(repo.Valid()) ==> repo.Valid()
  {
    var content := repo.workdir[path];
    oid := repo.StoreObject(content, "blob");
    var entries := repo.LoadIndex();
    var mode := ComputeMode(stat(path));
    var entry := IndexEntry(mode, oid, path);
    entries := WithoutPath(entries, path) + [entry];
    repo.SaveIndex(entries);
  }

  /** A path names a directory when some working file lies beneath it; "."
      is the top of the working tree. */
  predicate Beneath(file: string, dir: string) {
    dir == "." || StartsWith(file, dir + "/")
  }

  predicate IsDirectory(workdir: map<string, string>, dir: string) {
    dir == "." || exists f | f in workdir :: Beneath(f, dir)
  }

  /** What the directory walk of `add` stages: every walked file whose path
      does not contain ".git", in walk order. */
  function AddedFiles(walk: seq<string>): (r: seq<string>)
    ensures forall f | f in r :: f in walk
  {
    if walk == [] then []
    else
      var f := walk[|walk| - 1];
      AddedFiles(walk[..|walk| - 1]) + (if Contains(f, ".git") then [] else [f])
  }

  lemma {:induction false} AddedFilesMembers(walk: seq<string>)
    ensures forall f :: f in AddedFiles(walk) <==> f in walk && !Contains(f, ".git")
  {
    if walk != [] {
      AddedFilesMembers(walk[..|walk| - 1]);
      assert walk == walk[..|walk| - 1] + [walk[|walk| - 1]];
    }
  }

  /** The index after staging `files` one after another. */
  function StageAll(hash: string -> Oid, entries: seq<IndexEntry>, workdir: map<string, string>,
                    stat: string -> nat, files: seq<string>): seq<IndexEntry>
    requires forall f | f in files :: f in workdir
  {
    if files == [] then entries
    else
      var f := files[|files| - 1];
      Upsert(StageAll(hash, entries, workdir, stat, files[..|files| - 1]), StagedEntry(hash, f, workdir[f], stat(f)))
  }

  /** The blob frames written while staging `files`. */
  function BlobFrames(workdir: map<string, string>, files: seq<string>): (r: seq<string>)
    requires forall f | f in files :: f in workdir
    ensures |r| == |files| && forall i | 0 <= i < |files| :: r[i] == Frame("blob", workdir[files[i]])
  {
    seq(|files|, i requires 0 <= i < |files| => Frame("blob", workdir[files[i]]))
  }

  /** After staging a list of files, each of them has exactly one entry, and
      that entry holds the id of the file's blob; an entry for any other path
      is the one that was there before. */
  lemma {:induction false} StageAllSpec(hash: string -> Oid, entries: seq<IndexEntry>,
                                        workdir: map<string, string>, stat: string -> nat,
                                        files: seq<string>)
    requires forall f | f in files :: f in workdir
    ensures var r := StageAll(hash, entries, workdir, stat, files);
      (forall f | f in files :: StagedEntry(hash, f, workdir[f], stat(f)) in r)
      && (forall f, i | f in files && 0 <= i < |r| && r[i].path == f ::
            r[i] == StagedEntry(hash, f, workdir[f], stat(f)))
      && (forall x: IndexEntry :: x.path !in files ==> (x in r <==> x in entries))
  {
    if files != [] {
      var init := files[..|files| - 1];
      var last := files[|files| - 1];
      assert files == init + [last];
      var e := StagedEntry(hash, last, workdir[last], stat(last));
      var prev := StageAll(hash, entries, workdir, stat, init);
      StageAllSpec(hash, entries, workdir, stat, init);
      var r := Upsert(prev, e);
      UpsertSpec(prev, e);
      forall f | f in files ensures StagedEntry(hash, f, workdir[f], stat(f)) in r {
        if f != last {
          assert f in init;
        }
      }
      forall f, i | f in files && 0 <= i < |r| && r[i].path == f
        ensures r[i] == StagedEntry(hash, f, workdir[f], stat(f))
      {
        if f != last {
          assert f in init;
          assert i < |r| - 1;
          assert r[i] in prev;
          var j :| 0 <= j < |prev| && prev[j] == r[i];
        }
      }
      forall x: IndexEntry | x.path !in files ensures x in r <==> x in entries {
        assert x.path != last && x.path !in init;
      }
    }
  }

  lemma AddedFilesSnoc(walk: seq<string>, k: nat)
    requires k < |walk|
    ensures AddedFiles(walk[..k + 1])
      == AddedFiles(walk[..k]) + (if Contains(walk[k], ".git") then [] else [walk[k]])
  {
    assert walk[..k + 1][..k] == walk[..k];
  }

  lemma StageAllSnoc(hash: string -> Oid, entries: seq<IndexEntry>, workdir: map<string, string>,
                     stat: string -> nat, files: seq<string>, f: string)
    requires forall g | g in files :: g in workdir
    requires f in workdir
    ensures StageAll(hash, entries, workdir, stat, files + [f])
      == Upsert(StageAll(hash, entries, workdir, stat, files), StagedEntry(hash, f, workdir[f], stat(f)))
  {
    assert (files + [f])[..|files|] == files;
  }

  lemma BlobFramesSnoc(workdir: map<string, string>, files: seq<string>, f: string)
    requires forall g | g in files :: g in workdir
    requires f in workdir
    ensures BlobFrames(workdir, files + [f]) == BlobFrames(workdir, files) + [Frame("blob", workdir[f])]
  {
  }

  /** One round of the directory walk, in terms of the staged prefix. */
  lemma DirectoryStep(hash: string -> Oid, entries: seq<IndexEntry>, store: map<string, string>,
                      workdir: map<string, string>, stat: string -> nat, walk: seq<string>, k: nat)
    requires k < |walk| && forall f | f in walk :: f in workdir
    ensures forall g | g in AddedFiles(walk[..k + 1]) :: g in workdir
    ensures var before := AddedFiles(walk[..k]); var after := AddedFiles(walk[..k + 1]); var f := walk[k];
      && (Contains(f, ".git") ==> after == before)
      && (!Contains(f, ".git") ==>
            && |after| == |before| + 1
            && StageAll(hash, entries, workdir, stat, after)
               == Upsert(StageAll(hash, entries, workdir, stat, before), StagedEntry(hash, f, workdir[f], stat(f)))
            && OverwriteAll(hash, store, BlobFrames(workdir, after))
               == StoreOverwrite(hash, OverwriteAll(hash, store, BlobFrames(workdir, before)), Frame("blob", workdir[f])))
  {
    var before := AddedFiles(walk[..k]);
    var f := walk[k];
    AddedFilesSnoc(walk, k);
    assert forall g | g in before :: g in walk;
    if !Contains(f, ".git") {
      StageAllSnoc(hash, entries, workdir, stat, before, f);
      BlobFramesSnoc(workdir, before, f);
      OverwriteAllSnoc(hash, store, BlobFrames(workdir, before), Frame("blob", workdir[f]));
    } else {
      assert before + [] == before;
    }
  }

  /** One round of the directory walk of `add`: the walked file at `k` is
      staged unless its path contains ".git". */
  method AddWalked(repo: Repo, stat: string -> nat, walk: seq<string>, k: nat,
                   ghost index0: seq<IndexEntry>, ghost store0: map<string, string>) returns (added: seq<Oid>)
    requires k < |walk| && forall f | f in walk :: f in repo.workdir
    requires repo.LoadIndex() == StageAll(repo.hash, index0, repo.workdir, stat, AddedFiles(walk[..k]))
    requires repo.store == OverwriteAll(repo.hash, store0, BlobFrames(repo.workdir, AddedFiles(walk[..k])))
    modifies repo`store, repo`index
    ensures |AddedFiles(walk[..k + 1])| == |AddedFiles(walk[..k])| + |added|
    ensures repo.LoadIndex() == StageAll(repo.hash, index0, repo.workdir, stat, AddedFiles(walk[..k + 1]))
    ensures repo.store == OverwriteAll(repo.hash, store0, BlobFrames(repo.workdir, AddedFiles(walk[..k + 1])))
    ensures old(repo.Valid()) ==> repo.Valid()
  {
    var f := walk[k];
    DirectoryStep(repo.hash, index0, store0, repo.workdir, stat, walk, k);
    added := [];
    if !Contains(f, ".git") {
      var oid := AddFileToIndex(repo, f, stat);
      added := [oid];
    }
  }

  /** The directory walk of `add`: every walked file whose path does not
      contain ".git" is staged, in walk order. */
  method AddDirectory(repo: Repo, stat: string -> nat, walk: seq<string>) returns (oids: seq<Oid>)
    requires forall f | f in walk :: f in repo.workdir
    modifies repo`store, repo`index
    ensures |oids| == |AddedFiles(walk)|
    ensures repo.LoadIndex() == StageAll(repo.hash, old(repo.LoadIndex()), repo.workdir, stat, AddedFiles(walk))
    ensures repo.store == OverwriteAll(repo.hash, old(repo.store), BlobFrames(repo.workdir, AddedFiles(walk)))
    ensures old(repo.Valid()) ==> repo.Valid()
  {
    ghost var index0, store0, valid0 := repo.LoadIndex(), repo.store, repo.Valid();
    oids := [];
    var k := 0;
    while k < |walk|
      invariant 0 <= k <= |walk|
      invariant |oids| == |AddedFiles(walk[..k])|
      invariant repo.LoadIndex() == StageAll(repo.hash, index0, repo.workdir, stat, AddedFiles(walk[..k]))
      invariant repo.store == OverwriteAll(repo.hash, store0, BlobFrames(repo.workdir, AddedFiles(walk[..k])))
      invariant valid0 ==> repo.Valid()
    {
      var added := AddWalked(repo, stat, walk, k, index0, store0);
      oids := oids + added;
      k := k + 1;
    }
    assert walk[..|walk|] == walk;
  }

  /** `add`: a path that does not exist fails and changes nothing; a file is
      staged; a directory stages every walked file whose path does not
      contain ".git". `walk` is the order in which `os.walk` lists the files
      beneath the directory. */
  method Add(repo: Repo, path: string, stat: string -> nat, walk: seq<string>) returns (r: Result<seq<Oid>>)
    requires forall f :: f in walk <==> f in repo.workdir && Beneath(f, path)
    modifies repo`store, repo`index
    ensures path !in repo.workdir && !IsDirectory(repo.workdir, path) ==>
      r == Err(NotFound) && unchanged(repo)
    ensures path in repo.workdir ==>
      && r == Ok([ObjectId(repo.hash, "blob", repo.workdir[path])])
      && repo.LoadIndex() == StageAll(repo.hash, old(repo.LoadIndex()), repo.workdir, stat, [path])
      && repo.store == OverwriteAll(repo.hash, old(repo.store), BlobFrames(repo.workdir, [path]))
    ensures path !in repo.workdir && IsDirectory(repo.workdir, path) ==>
      && r.Ok? && |r.value| == |AddedFiles(walk)|
      && repo.LoadIndex() == StageAll(repo.hash, old(repo.LoadIndex()), repo.workdir, stat, AddedFiles(walk))
      && repo.store == OverwriteAll(repo.hash, old(repo.store), BlobFrames(repo.workdir, AddedFiles(walk)))
    ensures old(repo.Valid()) ==> repo.Valid()
  {
    if path !in repo.workdir && !IsDirectory(repo.workdir, path) {
      return Err(NotFound);
    }
    if path in repo.workdir {
      var oid := AddFileToIndex(repo, path, stat);
      assert [path][..0] == [];
      return Ok([oid]);
    }
    var oids := AddDirectory(repo, stat, walk);
    return Ok(oids);
  }

  // ---------------------------------------------------------------- rmfile

  /** `rmfile`: deletes the working file if there is one, then drops every
      index entry for the path; the index is saved only when that removed
      something. Returns whether the file existed and whether it was staged. */
  method RmFile(repo: Repo, path: string) returns (fileExisted: bool, removed: bool)
    modifies repo`workdir, repo`index
    ensures fileExisted == (path in old(repo.workdir))
    ensures repo.workdir == old(repo.workdir) - {path}
    ensures removed == HasPath(old(repo.LoadIndex()), path)
    ensures removed ==> repo.index == Some(WithoutPath(old(repo.LoadIndex()), path))
    ensures !removed ==> repo.index == old(repo.index)
  {
    var entries := repo.LoadIndex();
    fileExisted := path in repo.workdir;
    if fileExisted {
      repo.RemoveFile(path);
    }
    var kept := WithoutPath(entries, path);
    WithoutPathShrinks(entries, path);
    removed := |kept| != |entries|;
    if removed {
      repo.SaveIndex(kept);
    }
  }
}
