/** `build_tree`: the recursive construction of tree objects from the index
    entries. Each level collects, in a dictionary keyed by name, the files
    directly under its base path and the subdirectories (each built, written
    and entered by its id on first sight); its content is the records of that
    dictionary in sorted name order. The two copies of the builder differ only
    in how a subtree is written: with the deduplicating `write_object`
    (git_scratch/utils/tree.py) or the overwriting `store_object`
    (git_scratch/commands/write_tree.py). */
module TreeBuild {
  import opened Common
  import opened Text
  import opened Dicts
  import opened Objects
  import opened Repository
  import opened TreeCodec

  /** The name-to-(mode, raw id) dictionary of one level. */
  type Level = Dict<(string, string)>

  /** How a subtree is stored. */
  datatype WritePolicy = Dedup | Overwrite

  function WriteAll(hash: string -> Oid, policy: WritePolicy, store: map<string, string>, frames: seq<string>): map<string, string> {
    if policy == Dedup then DedupAll(hash, store, frames) else OverwriteAll(hash, store, frames)
  }

  /** The longest path among the entries: bounds the depth of the recursion. */
  function MaxLen(es: seq<IndexEntry>): (m: nat)
    ensures forall i | 0 <= i < |es| :: |es[i].path| <= m
  {
    if es == [] then 0
    else var m := MaxLen(es[1..]); if |es[0].path| > m then |es[0].path| else m
  }

  /** The part of `path` below `base`, leading slashes removed. */
  function Below(path: string, base: string): string
    requires StartsWith(path, base)
  {
    LStrip(path[|base|..], '/')
  }

  /** A subdirectory's base path is strictly longer than its parent's and no
      longer than the entry path that led to it. */
  lemma SubBaseBound(path: string, base: string)
    requires StartsWith(path, base) && '/' in Below(path, base)
    ensures var dir := SplitOnce(Below(path, base), '/')[0];
      dir != [] && dir[0] != '/' && |base| < |PathJoin(base, dir)| <= |path|
  {
    var sub := Below(path, base);
    assert |sub| <= |path| - |base|;
    DirOfSub(sub);
    PathJoinLen(base, SplitOnce(sub, '/')[0]);
  }

  lemma DirOfSub(sub: string)
    requires '/' in sub && sub[0] != '/'
    ensures var dir := SplitOnce(sub, '/')[0]; 0 < |dir| < |sub| && dir[0] != '/'
  {
    var m :| 0 <= m < |sub| && sub[m] == '/';
    var k := Find(sub, '/', 0);
    assert k >= 0;
  }

  lemma PathJoinLen(base: string, dir: string)
    requires dir != [] && dir[0] != '/'
    ensures |base| < |PathJoin(base, dir)| <= |base| + 1 + |dir|
  {
    assert !StartsWith(dir, "/") by {
      assert dir[..1] != "/";
    }
  }

  /** One level of the builder after the first `k` entries: the dictionary so
      far and the subtree frames written so far, in order. */
  function LevelUpTo(hash: string -> Oid, es: seq<IndexEntry>, base: string, k: nat): (Level, seq<string>)
    requires k <= |es|
    decreases MaxLen(es) - |base|, 0, k
  {
    if k == 0 then ([], [])
    else
      var (d, w) := LevelUpTo(hash, es, base, k - 1);
      Step(hash, es, base, d, w, es[k - 1])
  }

  /** One round of the loop over the entries: a file directly under `base`
      is assigned; a directory not yet in the dictionary is built, written
      and entered with mode "40000"; anything else is skipped. */
  function Step(hash: string -> Oid, es: seq<IndexEntry>, base: string, d: Level, w: seq<string>, e: IndexEntry): (Level, seq<string>)
    requires |e.path| <= MaxLen(es)
    decreases MaxLen(es) - |base|, 0, 0
  {
    if !StartsWith(e.path, base) then (d, w)
    else
      var sub := Below(e.path, base);
      var parts := SplitOnce(sub, '/');
      if |parts| == 1 then (Put(d, sub, (e.mode, FromHex(e.oid))), w)
      else if parts[0] in Keys(d) then (d, w)
      else
        SubBaseBound(e.path, base);
        var (bytes, sw) := Build(hash, es, PathJoin(base, parts[0]));
        var f := Frame("tree", bytes);
        (Put(d, parts[0], ("40000", FromHex(hash(f)))), w + sw + [f])
  }

  /** The content of the tree at `base` and every subtree frame written while
      building it, in write order. */
  function Build(hash: string -> Oid, es: seq<IndexEntry>, base: string): (string, seq<string>)
    decreases MaxLen(es) - |base|, 1, 0
  {
    var (d, w) := LevelUpTo(hash, es, base, |es|);
    (EncodeRecords(LevelRecords(d)), w)
  }

  /** The records of the named entries of a level, in the given order
      (a name the level lacks contributes nothing). */
  function RecordsOf(d: Level, names: seq<string>): seq<Record> {
    if names == [] then []
    else
      match Get(d, names[0])
      case None => RecordsOf(d, names[1..])
      case Some(v) => [Record(v.0, names[0], v.1)] + RecordsOf(d, names[1..])
  }

  /** For names the level holds, one record per name, carrying its value. */
  lemma {:induction false} RecordsOfKeys(d: Level, names: seq<string>)
    requires forall i | 0 <= i < |names| :: names[i] in Keys(d)
    ensures var r := RecordsOf(d, names);
      |r| == |names| && forall i | 0 <= i < |r| ::
        r[i].name == names[i] && Get(d, names[i]) == Some((r[i].mode, r[i].raw))
    decreases |names|
  {
    if names != [] {
      RecordsOfKeys(d, names[1..]);
    }
  }

  lemma SortedKeysAreKeys(d: Level)
    ensures forall i | 0 <= i < |Sort(Keys(d))| :: Sort(Keys(d))[i] in Keys(d)
  {
    var names := Sort(Keys(d));
    SortPerm(Keys(d));
    forall i | 0 <= i < |names| ensures names[i] in Keys(d) {
      assert names[i] in multiset(names);
    }
  }

  /** The records of a level, in sorted name order. */
  function LevelRecords(d: Level): seq<Record> {
    RecordsOf(d, Sort(Keys(d)))
  }

  /** A level's records are its items, one per key, in sorted key order. */
  lemma LevelRecordsFacts(d: Level)
    ensures var r := LevelRecords(d); var names := Sort(Keys(d));
      |r| == |names| && forall i | 0 <= i < |r| ::
        r[i].name == names[i] && Get(d, names[i]) == Some((r[i].mode, r[i].raw))
  {
    SortedKeysAreKeys(d);
    RecordsOfKeys(d, Sort(Keys(d)));
  }

  // ---------------------------------------------------------------- the method

  /** `build_tree(entries, base_path)`: returns the content of the tree at
      `base` and leaves the subtrees written in the database, with
      `write_object` (policy `Dedup`) or `store_object` (policy `Overwrite`). */
  method BuildTree(repo: Repo, es: seq<IndexEntry>, base: string, policy: WritePolicy) returns (tree: string)
    modifies repo`store
    ensures tree == Build(repo.hash, es, base).0
    ensures repo.store == WriteAll(repo.hash, policy, old(repo.store), Build(repo.hash, es, base).1)
    decreases MaxLen(es) - |base|
  {
    var d: Level := [];
    ghost var w: seq<string> := [];
    var k := 0;
    while k < |es|
      invariant 0 <= k <= |es|
      invariant (d, w) == LevelUpTo(repo.hash, es, base, k)
      invariant repo.store == WriteAll(repo.hash, policy, old(repo.store), w)
    {
      var e := es[k];
      ghost var next := Step(repo.hash, es, base, d, w, e);
      if StartsWith(e.path, base) {
        var sub := LStrip(e.path[|base|..], '/');
        var parts := SplitOnce(sub, '/');
        if |parts| == 1 {
          d := Put(d, sub, (e.mode, FromHex(e.oid)));
        } else {
          var dir := parts[0];
          if dir !in Keys(d) {
            SubBaseBound(e.path, base);
            ghost var before := repo.store;
            var subTree := BuildTree(repo, es, PathJoin(base, dir), policy);
            ghost var sw := Build(repo.hash, es, PathJoin(base, dir)).1;
            var subOid := WriteSubtree(repo, subTree, policy);
            WriteStep(repo.hash, policy, old(repo.store), w, sw, Frame("tree", subTree));
            d := Put(d, dir, ("40000", FromHex(subOid)));
            w := w + sw + [Frame("tree", subTree)];
          }
        }
      }
      assert (d, w) == next;
      k := k + 1;
    }
    tree := EncodeLevel(d);
  }

  /** Stores one subtree under the given policy and returns its id. */
  method WriteSubtree(repo: Repo, content: string, policy: WritePolicy) returns (oid: Oid)
    modifies repo`store
    ensures oid == ObjectId(repo.hash, "tree", content)
    ensures policy == Dedup ==> repo.store == StoreDedup(repo.hash, old(repo.store), Frame("tree", content))
    ensures policy == Overwrite ==> repo.store == StoreOverwrite(repo.hash, old(repo.store), Frame("tree", content))
  {
    if policy == Dedup {
      var r := repo.WriteObject(content, "tree");
      oid := r.value;
    } else {
      oid := repo.StoreObject(content, "tree");
    }
  }

  lemma WriteStep(hash: string -> Oid, policy: WritePolicy, s0: map<string, string>, w: seq<string>, sw: seq<string>, f: string)
    ensures var s := WriteAll(hash, policy, WriteAll(hash, policy, s0, w), sw);
      WriteAll(hash, policy, s0, w + sw + [f])
        == if policy == Dedup then StoreDedup(hash, s, f) else StoreOverwrite(hash, s, f)
  {
    WritesAppend(hash, s0, w, sw);
    assert (w + sw + [f])[..|w + sw + [f]| - 1] == w + sw;
  }

  /** The loop over `sorted(tree_entries)` that concatenates the records. */
  method EncodeLevel(d: Level) returns (tree: string)
    ensures tree == EncodeRecords(LevelRecords(d))
  {
    var names := Sort(Keys(d));
    SortedKeysAreKeys(d);
    RecordsOfKeys(d, names);
    ghost var rs := RecordsOf(d, names);
    tree := "";
    var j := 0;
    while j < |names|
      invariant 0 <= j <= |names|
      invariant tree == EncodeRecords(rs[..j])
    {
      var v := Get(d, names[j]).value;
      assert rs[j] == Record(v.0, names[j], v.1);
      EncodeRecordsSnoc(rs[..j], rs[j]);
      assert rs[..j + 1] == rs[..j] + [rs[j]];
      tree := tree + (v.0 + " " + names[j] + "\0" + v.1);
      j := j + 1;
    }
    assert rs[..j] == rs;
  }

  // ---------------------------------------------------------------- what a level holds

  /** The name an entry contributes at level `base`, and whether it enters
      there as a directory; `None` when the path does not start with `base`. */
  function Slot(e: IndexEntry, base: string): Option<(string, bool)> {
    if !StartsWith(e.path, base) then None
    else
      var sub := Below(e.path, base);
      if '/' !in sub then Some((sub, false)) else Some((SplitOnce(sub, '/')[0], true))
  }

  /** The last of the first `k` entries that is a file named `n` at `base`. */
  function LastLeaf(es: seq<IndexEntry>, base: string, n: string, k: nat): (r: Option<nat>)
    requires k <= |es|
    ensures r.Some? ==> r.value < k && Slot(es[r.value], base) == Some((n, false))
    ensures r.None? ==> forall i | 0 <= i < k :: Slot(es[i], base) != Some((n, false))
  {
    if k == 0 then None
    else if Slot(es[k - 1], base) == Some((n, false)) then Some(k - 1)
    else LastLeaf(es, base, n, k - 1)
  }

  /** Whether one of the first `k` entries enters level `base` as directory `n`. */
  predicate DirSeen(es: seq<IndexEntry>, base: string, n: string, k: nat)
    requires k <= |es|
  {
    exists i | 0 <= i < k :: Slot(es[i], base) == Some((n, true))
  }

  /** The value a subdirectory `n` of level `base` gets: mode "40000" and the
      raw id of its tree. */
  function DirValue(hash: string -> Oid, es: seq<IndexEntry>, base: string, n: string): (string, string) {
    ("40000", FromHex(hash(Frame("tree", Build(hash, es, PathJoin(base, n)).0))))
  }

  /** What the dictionary of a level holds for a name, stated without the
      loop: the last file of that name wins, whatever came before or after
      it; otherwise a directory of that name gets its subtree, built once;
      otherwise the name is absent. */
  function LevelSpec(hash: string -> Oid, es: seq<IndexEntry>, base: string, k: nat, n: string): Option<(string, string)>
    requires k <= |es|
  {
    var leaf := LastLeaf(es, base, n, k);
    if leaf.Some? then Some((es[leaf.value].mode, FromHex(es[leaf.value].oid)))
    else if DirSeen(es, base, n, k) then Some(DirValue(hash, es, base, n))
    else None
  }

  /** One round of the loop, name by name. */
  lemma StepGet(hash: string -> Oid, es: seq<IndexEntry>, base: string, d: Level, w: seq<string>, e: IndexEntry, n: string)
    requires |e.path| <= MaxLen(es)
    ensures Get(Step(hash, es, base, d, w, e).0, n) ==
      match Slot(e, base)
      case None => Get(d, n)
      case Some((m, isDir)) =>
        if m != n then Get(d, n)
        else if !isDir then Some((e.mode, FromHex(e.oid)))
        else if Get(d, n).Some? then Get(d, n)
        else Some(DirValue(hash, es, base, n))
  {
    if StartsWith(e.path, base) {
      var sub := Below(e.path, base);
      var parts := SplitOnce(sub, '/');
      if |parts| == 1 {
        PutGet(d, sub, (e.mode, FromHex(e.oid)), n);
      } else if parts[0] !in Keys(d) {
        SubBaseBound(e.path, base);
        var (bytes, sw) := Build(hash, es, PathJoin(base, parts[0]));
        PutGet(d, parts[0], ("40000", FromHex(hash(Frame("tree", bytes)))), n);
      }
    }
  }

  /** A round of the loop only adds frames to those written so far. */
  lemma StepWrites(hash: string -> Oid, es: seq<IndexEntry>, base: string, d: Level, w: seq<string>, e: IndexEntry)
    requires |e.path| <= MaxLen(es)
    ensures forall f | f in w :: f in Step(hash, es, base, d, w, e).1
    ensures match Slot(e, base)
      case Some((n, true)) =>
        Get(d, n).None? ==> var sub := Build(hash, es, PathJoin(base, n));
          forall f | f in sub.1 + [Frame("tree", sub.0)] :: f in Step(hash, es, base, d, w, e).1
      case _ => true
  {
  }

  lemma {:induction false} LevelChar(hash: string -> Oid, es: seq<IndexEntry>, base: string, k: nat, n: string)
    requires k <= |es|
    ensures Get(LevelUpTo(hash, es, base, k).0, n) == LevelSpec(hash, es, base, k, n)
  {
    if k > 0 {
      LevelChar(hash, es, base, k - 1, n);
      var (d, w) := LevelUpTo(hash, es, base, k - 1);
      var e := es[k - 1];
      assert LevelUpTo(hash, es, base, k) == Step(hash, es, base, d, w, e);
      StepGet(hash, es, base, d, w, e, n);
      DirSeenStep(es, base, n, k);
      var slot := Slot(e, base);
      var prev := LevelSpec(hash, es, base, k - 1, n);
      var cur := LevelSpec(hash, es, base, k, n);
      assert Get(d, n) == prev;
      if slot == Some((n, false)) {
        assert LastLeaf(es, base, n, k) == Some(k - 1);
        assert cur == Some((e.mode, FromHex(e.oid)));
      } else if slot == Some((n, true)) {
        assert LastLeaf(es, base, n, k) == LastLeaf(es, base, n, k - 1);
        assert DirSeen(es, base, n, k);
        assert prev.Some? ==> cur == prev;
        assert prev.None? ==> cur == Some(DirValue(hash, es, base, n));
      } else {
        assert LastLeaf(es, base, n, k) == LastLeaf(es, base, n, k - 1);
        assert cur == prev;
      }
    }
  }

  lemma DirSeenStep(es: seq<IndexEntry>, base: string, n: string, k: nat)
    requires 0 < k <= |es|
    ensures DirSeen(es, base, n, k) <==> DirSeen(es, base, n, k - 1) || Slot(es[k - 1], base) == Some((n, true))
  {
    if DirSeen(es, base, n, k) && Slot(es[k - 1], base) != Some((n, true)) {
      var i :| 0 <= i < k && Slot(es[i], base) == Some((n, true));
      assert DirSeen(es, base, n, k - 1);
    }
    if DirSeen(es, base, n, k - 1) {
      var i :| 0 <= i < k - 1 && Slot(es[i], base) == Some((n, true));
      assert DirSeen(es, base, n, k);
    }
  }

  /** A directory that no file of the same name shadows is built, and its
      frames are among those the level writes. */
  lemma {:induction false} DirWritten(hash: string -> Oid, es: seq<IndexEntry>, base: string, k: nat, n: string)
    requires k <= |es|
    requires LastLeaf(es, base, n, k).None? && DirSeen(es, base, n, k)
    ensures var sub := Build(hash, es, PathJoin(base, n));
      forall f | f in sub.1 + [Frame("tree", sub.0)] :: f in LevelUpTo(hash, es, base, k).1
  {
    var (d, w) := LevelUpTo(hash, es, base, k - 1);
    StepWrites(hash, es, base, d, w, es[k - 1]);
    if DirSeen(es, base, n, k - 1) {
      DirWritten(hash, es, base, k - 1, n);
    } else {
      LevelChar(hash, es, base, k - 1, n);
      var i :| 0 <= i < k && Slot(es[i], base) == Some((n, true));
      assert i == k - 1;
    }
  }

  /** Membership in a level is a plain string-prefix test: at level `base`
      a path that continues `base` without a slash (at level "src", the
      path "srcx") counts as a file named by the rest. */
  lemma PrefixQuirk(hash: string -> Oid, e: IndexEntry, base: string, name: string)
    requires name != [] && '/' !in name && e.path == base + name
    ensures Get(LevelUpTo(hash, [e], base, 1).0, name) == Some((e.mode, FromHex(e.oid)))
  {
    assert StartsWith(e.path, base) by {
      assert e.path[..|base|] == base;
    }
    assert e.path[|base|..] == name;
    assert LStrip(name, '/') == name;
    assert Slot(e, base) == Some((name, false));
    LevelChar(hash, [e], base, 1, name);
  }
}
