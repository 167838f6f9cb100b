/** The tree round trip: writing the index as trees with `build_tree` and
    flattening the root again with `entries_from_tree` gives back exactly the
    index entries, for an index whose paths are well formed, distinct, and
    never extend a directory name as a plain string prefix. */
module RoundTrip {
  import opened Common
  import opened Text
  import opened Dicts
  import opened Objects
  import opened Repository
  import opened Index
  import opened TreeCodec
  import opened TreeBuild
  import opened TreeWalk

  // ---------------------------------------------------------------- well-formed indexes

  /** A relative path: non-empty segments separated by single slashes, no NUL. */
  predicate WfPath(p: string) {
    p != [] && p[0] != '/' && p[|p| - 1] != '/' && '\0' !in p
    && forall k | 0 < k < |p| :: NoDoubleSlash(p, k)
  }

  /** Position `k` does not hold the second slash of a pair. */
  predicate NoDoubleSlash(p: string, k: nat)
    requires 0 < k < |p|
  {
    p[k] == '/' ==> p[k - 1] != '/'
  }

  /** An index the builder and the walker agree on: well-formed paths and
      file modes, distinct paths, and every path that starts with the
      directory part `p[..k]` of another path continues with a slash there
      (so no file is also a directory, and no name extends a directory name). */
  predicate WellFormedIndex(es: seq<IndexEntry>) {
    (forall i | 0 <= i < |es| :: WfPath(es[i].path) && IsFileMode(es[i].mode))
    && (forall i, j | 0 <= i < j < |es| :: es[i].path != es[j].path)
    && (forall i, j | 0 <= i < |es| && 0 <= j < |es| :: PrefixSafePair(es[i].path, es[j].path))
  }

  /** `q` never extends a directory part `p[..k]` of `p` other than with a slash. */
  predicate PrefixSafePair(p: string, q: string) {
    forall k | 0 < k < |p| && p[k] == '/' && StartsWith(q, p[..k]) :: k < |q| && q[k] == '/'
  }

  /** `b` is the root or a directory: every path under it continues with a
      slash right after it. */
  predicate AtBase(es: seq<IndexEntry>, b: string) {
    b == "" || (b[0] != '/' && b[|b| - 1] != '/'
      && forall j | 0 <= j < |es| && StartsWith(es[j].path, b) :: |b| < |es[j].path| && es[j].path[|b|] == '/')
  }

  /** The text that precedes a name directly under `b`. */
  function Pre(b: string): string {
    if b == "" then "" else b + "/"
  }

  /** The first segment of `p` below `b`. */
  function Seg(p: string, b: string): string
    requires StartsWith(p, b)
  {
    SplitOnce(Below(p, b), '/')[0]
  }

  lemma LStripNone(s: string)
    requires s == [] || s[0] != '/'
    ensures LStrip(s, '/') == s
  {
  }

  /** A well-formed path under a base that it continues with a slash. */
  predicate UnderBase(p: string, b: string) {
    WfPath(p) && StartsWith(p, b) && (b == "" || (|b| < |p| && p[|b|] == '/'))
  }

  lemma UnderBaseAt(es: seq<IndexEntry>, b: string, j: nat)
    requires WellFormedIndex(es) && AtBase(es, b)
    requires j < |es| && StartsWith(es[j].path, b)
    ensures UnderBase(es[j].path, b)
  {
    assert WfPath(es[j].path);
  }

  /** Below a base, a path is the base, one slash, and the rest. */
  lemma BelowAt(p: string, b: string)
    requires UnderBase(p, b)
    ensures var r := Below(p, b);
      p == Pre(b) + r && r != [] && r[0] != '/' && '\0' !in r
  {
    if b == "" {
      assert p[|b|..] == p;
      LStripNone(p);
    } else {
      var t := p[|b| + 1..];
      assert NoDoubleSlash(p, |b| + 1);
      assert p[|b|..] == ['/'] + t;
      assert t[0] == p[|b| + 1];
      LStripNone(t);
      assert p == b + "/" + t;
    }
  }

  /** A base that a path continues with a slash does not end in one. */
  lemma BaseEnd(p: string, b: string)
    requires UnderBase(p, b)
    ensures b == "" || b[|b| - 1] != '/'
  {
    if b != "" {
      assert NoDoubleSlash(p, |b|);
      assert b[|b| - 1] == p[|b| - 1];
    }
  }

  /** The first segment of a relative rest. */
  lemma FirstSegment(r: string)
    requires r != [] && r[0] != '/' && '\0' !in r
    ensures var n := SplitOnce(r, '/')[0];
      n != [] && n[0] != '/' && '/' !in n && '\0' !in n
      && ('/' !in r ==> n == r)
      && ('/' in r ==> |n| < |r| && r[|n|] == '/' && r[..|n|] == n)
  {
    var k := Find(r, '/', 0);
    if k >= 0 {
      var n := r[..k];
      assert SplitOnce(r, '/')[0] == n;
      assert forall i | 0 <= i < |n| :: n[i] == r[i];
    }
  }

  lemma PathJoinPre(b: string, n: string)
    requires b == "" || b[|b| - 1] != '/'
    requires n != [] && n[0] != '/'
    ensures PathJoin(b, n) == Pre(b) + n
  {
    assert !StartsWith(n, "/") by {
      assert n[..1] == [n[0]];
    }
  }

  /** The first segment below a base is a non-empty name without slash or
      NUL, and joining it to the base gives the directory (or file) path. */
  lemma SegAt(p: string, b: string)
    requires UnderBase(p, b)
    ensures var n := Seg(p, b); var r := Below(p, b);
      n != [] && n[0] != '/' && '/' !in n && '\0' !in n
      && PathJoin(b, n) == Pre(b) + n
      && ('/' !in r ==> p == Pre(b) + n)
      && ('/' in r ==> |Pre(b) + n| < |p| && p[|Pre(b) + n|] == '/' && p[..|Pre(b) + n|] == Pre(b) + n)
  {
    var r := Below(p, b);
    var n := Seg(p, b);
    BelowAt(p, b);
    FirstSegment(r);
    BaseEnd(p, b);
    PathJoinPre(b, n);
    if '/' in r {
      assert p == Pre(b) + r;
      assert p[|Pre(b) + n|] == r[|n|];
      assert p[..|Pre(b) + n|] == Pre(b) + r[..|n|];
    }
  }

  lemma SlotSeg(e: IndexEntry, b: string)
    requires StartsWith(e.path, b)
    ensures Slot(e, b) == Some((Seg(e.path, b), '/' in Below(e.path, b)))
  {
  }

  /** The prefix-safety clause of a well-formed index, for one pair. */
  lemma PrefixSafe(es: seq<IndexEntry>, i: nat, j: nat, k: nat)
    requires WellFormedIndex(es) && i < |es| && j < |es|
    requires 0 < k < |es[i].path| && es[i].path[k] == '/' && StartsWith(es[j].path, es[i].path[..k])
    ensures k < |es[j].path| && es[j].path[k] == '/'
  {
  }

  /** The directory a path enters below a base is itself a base. */
  lemma SubAtBase(es: seq<IndexEntry>, b: string, j: nat)
    requires WellFormedIndex(es) && AtBase(es, b)
    requires j < |es| && StartsWith(es[j].path, b) && '/' in Below(es[j].path, b)
    ensures AtBase(es, PathJoin(b, Seg(es[j].path, b)))
  {
    var p := es[j].path;
    UnderBaseAt(es, b, j);
    SegAt(p, b);
    var sub := PathJoin(b, Seg(p, b));
    var m := |sub|;
    assert sub == p[..m];
    assert sub[0] == p[0];
    forall x | 0 <= x < |es| && StartsWith(es[x].path, sub)
      ensures m < |es[x].path| && es[x].path[m] == '/'
    {
      PrefixSafe(es, j, x, m);
    }
  }

  /** Sequence facts behind `SegIn`: a path that starts with `P + n` and
      continues with a slash has a rest of `n`, a slash, and more. */
  lemma PrefixRest(pre: string, n: string, r: string)
    requires StartsWith(pre + r, pre + n)
    requires |pre + n| < |pre + r| && (pre + r)[|pre + n|] == '/'
    ensures |n| < |r| && r[..|n|] == n && r[|n|] == '/'
  {
    assert (pre + r)[..|pre + n|] == pre + r[..|n|];
    assert (pre + r)[|pre + n|] == r[|n|];
    assert (pre + n)[|pre|..] == n;
    assert (pre + r[..|n|])[|pre|..] == r[..|n|];
  }

  lemma StartsWithPre(q: string, b: string, n: string)
    requires StartsWith(q, Pre(b) + n)
    ensures StartsWith(q, b)
  {
    assert q[..|b|] == (Pre(b) + n)[..|b|];
  }

  /** The prefix-safety of one pair, at one position. */
  lemma PairAt(p: string, q: string, k: nat)
    requires PrefixSafePair(p, q)
    requires 0 < k < |p| && p[k] == '/' && StartsWith(q, p[..k])
    ensures k < |q| && q[k] == '/'
  {
  }

  /** A path in the directory `n` below `b` has first segment `n`. */
  lemma SegIn(p: string, q: string, b: string)
    requires UnderBase(p, b) && '/' in Below(p, b)
    requires WfPath(q) && PrefixSafePair(p, q)
    requires StartsWith(q, b) ==> UnderBase(q, b)
    requires StartsWith(q, PathJoin(b, Seg(p, b)))
    ensures StartsWith(q, b) && Seg(q, b) == Seg(p, b)
  {
    var n := Seg(p, b);
    SegAt(p, b);
    var pn := Pre(b) + n;
    var m := |pn|;
    StartsWithPre(q, b, n);
    PairAt(p, q, m);
    BelowAt(q, b);
    var r := Below(q, b);
    PrefixRest(Pre(b), n, r);
    SameFirstSegment(r, n);
  }

  /** A file directly below `b` is its base joined with its name. */
  lemma FileSeg(q: string, b: string)
    requires UnderBase(q, b) && '/' !in Below(q, b)
    ensures q == PathJoin(b, Seg(q, b))
  {
    SegAt(q, b);
  }

  /** A path deeper below `b` continues its first directory with a slash. */
  lemma DirSeg(q: string, b: string)
    requires UnderBase(q, b) && '/' in Below(q, b)
    ensures var s := PathJoin(b, Seg(q, b));
      0 < |s| < |q| && q[|s|] == '/' && q[..|s|] == s
  {
    SegAt(q, b);
  }

  /** A path sharing its first segment with a deeper path is deeper too. */
  lemma StillDir(p: string, q: string, b: string)
    requires UnderBase(p, b) && '/' in Below(p, b)
    requires UnderBase(q, b) && PrefixSafePair(p, q)
    requires Seg(q, b) == Seg(p, b)
    ensures '/' in Below(q, b)
  {
    if '/' !in Below(q, b) {
      DirSeg(p, b);
      FileSeg(q, b);
      assert false;
    }
  }

  /** A path with first segment `n` below `b` lies in the directory `n`. */
  lemma SegOut(p: string, q: string, b: string)
    requires UnderBase(p, b) && '/' in Below(p, b)
    requires UnderBase(q, b) && PrefixSafePair(p, q)
    requires Seg(q, b) == Seg(p, b)
    ensures StartsWith(q, PathJoin(b, Seg(p, b)))
  {
    StillDir(p, q, b);
    DirSeg(q, b);
  }

  /** A path lies in the directory `n` below `b` exactly when its first
      segment below `b` is `n`. */
  lemma SegIff(es: seq<IndexEntry>, b: string, j: nat, x: nat)
    requires WellFormedIndex(es) && AtBase(es, b)
    requires j < |es| && StartsWith(es[j].path, b) && '/' in Below(es[j].path, b)
    requires x < |es|
    ensures var sub := PathJoin(b, Seg(es[j].path, b));
      StartsWith(es[x].path, sub) <==> StartsWith(es[x].path, b) && Seg(es[x].path, b) == Seg(es[j].path, b)
  {
    var p := es[j].path;
    var q := es[x].path;
    UnderBaseAt(es, b, j);
    assert WfPath(q) && PrefixSafePair(p, q);
    if StartsWith(q, b) {
      UnderBaseAt(es, b, x);
    }
    if StartsWith(q, PathJoin(b, Seg(p, b))) {
      SegIn(p, q, b);
    }
    if StartsWith(q, b) && Seg(q, b) == Seg(p, b) {
      SegOut(p, q, b);
    }
  }

  /** The first segment of `r` is `n` when `r` is `n`, a slash, and more. */
  lemma SameFirstSegment(r: string, n: string)
    requires n != [] && '/' !in n && |n| < |r| && r[..|n|] == n && r[|n|] == '/'
    ensures SplitOnce(r, '/')[0] == n
  {
    forall i | 0 <= i < |n| ensures r[i] != '/' {
      assert r[i] == n[i];
    }
    FindFirst(r, '/', 0, |n|);
  }

  /** Two paths with the same first segment below `b`, one of them a file
      there, are the same path. */
  lemma LeafSame(p: string, q: string, b: string)
    requires UnderBase(p, b) && '/' !in Below(p, b)
    requires UnderBase(q, b) && PrefixSafePair(q, p)
    requires Seg(q, b) == Seg(p, b)
    ensures q == p
  {
    StillFile(p, q, b);
    FileSeg(p, b);
    FileSeg(q, b);
  }

  /** A path sharing its first segment with a file is a file too. */
  lemma StillFile(p: string, q: string, b: string)
    requires UnderBase(p, b) && '/' !in Below(p, b)
    requires UnderBase(q, b) && PrefixSafePair(q, p)
    requires Seg(q, b) == Seg(p, b)
    ensures '/' !in Below(q, b)
  {
    if '/' in Below(q, b) {
      StillDir(q, p, b);
      assert false;
    }
  }

  /** A file directly below `b` is the only entry with its first segment. */
  lemma LeafUnique(es: seq<IndexEntry>, b: string, j: nat, x: nat)
    requires WellFormedIndex(es) && AtBase(es, b)
    requires j < |es| && StartsWith(es[j].path, b) && '/' !in Below(es[j].path, b)
    requires x < |es| && StartsWith(es[x].path, b) && Seg(es[x].path, b) == Seg(es[j].path, b)
    ensures x == j
  {
    UnderBaseAt(es, b, j);
    UnderBaseAt(es, b, x);
    assert PrefixSafePair(es[x].path, es[j].path);
    LeafSame(es[j].path, es[x].path, b);
  }

  // ---------------------------------------------------------------- the levels the builder makes

  /** The dictionary the builder fills at `b`. */
  function LevelAt(hash: string -> Oid, es: seq<IndexEntry>, b: string): Level {
    LevelUpTo(hash, es, b, |es|).0
  }

  /** Every level holds each name once. */
  lemma {:induction false} LevelDistinct(hash: string -> Oid, es: seq<IndexEntry>, b: string, k: nat)
    requires k <= |es|
    ensures DistinctKeys(LevelUpTo(hash, es, b, k).0)
  {
    if k > 0 {
      LevelDistinct(hash, es, b, k - 1);
      var (d, w) := LevelUpTo(hash, es, b, k - 1);
      StepDistinct(hash, es, b, d, w, es[k - 1]);
    }
  }

  /** One step of the level loop keeps the names distinct. */
  lemma StepDistinct(hash: string -> Oid, es: seq<IndexEntry>, b: string, d: Level, w: seq<string>, e: IndexEntry)
    requires |e.path| <= MaxLen(es) && DistinctKeys(d)
    ensures DistinctKeys(Step(hash, es, b, d, w, e).0)
  {
    if StartsWith(e.path, b) {
      var sub := Below(e.path, b);
      var parts := SplitOnce(sub, '/');
      if |parts| == 1 {
        PutDistinct(d, sub, (e.mode, FromHex(e.oid)));
      } else if parts[0] !in Keys(d) {
        SubBaseBound(e.path, b);
        var (bytes, sw) := Build(hash, es, PathJoin(b, parts[0]));
        PutDistinct(d, parts[0], ("40000", FromHex(hash(Frame("tree", bytes)))));
      }
    }
  }


  /** Where a record of a level comes from: a file directly under `b` whose
      entry it copies, or a directory whose subtree it points at. */
  lemma RecordSource(hash: string -> Oid, es: seq<IndexEntry>, b: string, r: Record) returns (i: nat, isDir: bool)
    requires Get(LevelAt(hash, es, b), r.name) == Some((r.mode, r.raw))
    ensures i < |es|
    ensures !isDir ==> (r.mode, r.raw) == (es[i].mode, FromHex(es[i].oid))
    ensures StartsWith(es[i].path, b) && Slot(es[i], b) == Some((r.name, isDir))
    ensures isDir ==> LastLeaf(es, b, r.name, |es|).None? && DirSeen(es, b, r.name, |es|)
  {
    var found;
    i, isDir, found := LevelCases(hash, es, b, r.name);
    SourceOfValue(LevelAt(hash, es, b), es, b, r, i, isDir, found);
  }

  lemma SourceOfValue(d: Level, es: seq<IndexEntry>, b: string, r: Record, i: nat, isDir: bool, found: bool)
    requires Get(d, r.name) == Some((r.mode, r.raw))
    requires found ==> i < |es|
    requires found && !isDir ==> Get(d, r.name) == Some((es[i].mode, FromHex(es[i].oid)))
    requires found ==> Slot(es[i], b) == Some((r.name, isDir))
    requires !found ==> Get(d, r.name) == None
    ensures found && i < |es|
    ensures !isDir ==> (r.mode, r.raw) == (es[i].mode, FromHex(es[i].oid))
    ensures StartsWith(es[i].path, b) && Slot(es[i], b) == Some((r.name, isDir))
  {
  }

  /** The three cases of a level's value for a name, with the entry that
      decides it. */
  lemma LevelCases(hash: string -> Oid, es: seq<IndexEntry>, b: string, n: string) returns (i: nat, isDir: bool, found: bool)
    ensures found ==> i < |es|
    ensures found && !isDir ==> Get(LevelAt(hash, es, b), n) == Some((es[i].mode, FromHex(es[i].oid)))
    ensures found ==> Slot(es[i], b) == Some((n, isDir))
    ensures found && isDir ==> LastLeaf(es, b, n, |es|).None? && DirSeen(es, b, n, |es|)
    ensures !found ==> Get(LevelAt(hash, es, b), n) == None
  {
    var leaf := LastLeaf(es, b, n, |es|);
    if leaf.Some? {
      i, isDir, found := leaf.value, false, true;
      LevelLeaf(hash, es, b, n);
    } else if DirSeen(es, b, n, |es|) {
      i := DirWitness(es, b, n);
      isDir, found := true, true;
    } else {
      LevelNone(hash, es, b, n);
      i, isDir, found := 0, false, false;
    }
  }

  lemma LevelLeaf(hash: string -> Oid, es: seq<IndexEntry>, b: string, n: string)
    requires LastLeaf(es, b, n, |es|).Some?
    ensures var i := LastLeaf(es, b, n, |es|).value;
      Get(LevelAt(hash, es, b), n) == Some((es[i].mode, FromHex(es[i].oid)))
  {
    LevelChar(hash, es, b, |es|, n);
    LeafSpec(hash, es, b, n);
  }

  lemma LevelDir(hash: string -> Oid, es: seq<IndexEntry>, b: string, n: string)
    requires LastLeaf(es, b, n, |es|).None? && DirSeen(es, b, n, |es|)
    ensures Get(LevelAt(hash, es, b), n) == Some(DirValue(hash, es, b, n))
  {
    LevelChar(hash, es, b, |es|, n);
    DirSpec(hash, es, b, n);
  }

  lemma LevelNone(hash: string -> Oid, es: seq<IndexEntry>, b: string, n: string)
    requires LastLeaf(es, b, n, |es|).None? && !DirSeen(es, b, n, |es|)
    ensures Get(LevelAt(hash, es, b), n) == None
  {
    LevelChar(hash, es, b, |es|, n);
    NoSpec(hash, es, b, n);
  }

  lemma DirWitness(es: seq<IndexEntry>, b: string, n: string) returns (i: nat)
    requires DirSeen(es, b, n, |es|)
    ensures i < |es| && Slot(es[i], b) == Some((n, true))
  {
    i :| 0 <= i < |es| && Slot(es[i], b) == Some((n, true));
  }

  lemma LeafSpec(hash: string -> Oid, es: seq<IndexEntry>, b: string, n: string)
    requires LastLeaf(es, b, n, |es|).Some?
    ensures var i := LastLeaf(es, b, n, |es|).value;
      LevelSpec(hash, es, b, |es|, n) == Some((es[i].mode, FromHex(es[i].oid)))
  {
  }

  lemma DirSpec(hash: string -> Oid, es: seq<IndexEntry>, b: string, n: string)
    requires LastLeaf(es, b, n, |es|).None? && DirSeen(es, b, n, |es|)
    ensures LevelSpec(hash, es, b, |es|, n) == Some(DirValue(hash, es, b, n))
  {
  }

  lemma NoSpec(hash: string -> Oid, es: seq<IndexEntry>, b: string, n: string)
    requires LastLeaf(es, b, n, |es|).None? && !DirSeen(es, b, n, |es|)
    ensures LevelSpec(hash, es, b, |es|, n) == None
  {
  }

  /** Every name an entry contributes at `b` is a key of the level. */
  lemma SlotInLevel(hash: string -> Oid, es: seq<IndexEntry>, b: string, x: nat)
    requires x < |es| && StartsWith(es[x].path, b)
    ensures Seg(es[x].path, b) in Keys(LevelAt(hash, es, b))
  {
    var n := Seg(es[x].path, b);
    SlotSeg(es[x], b);
    LevelChar(hash, es, b, |es|, n);
    if '/' in Below(es[x].path, b) {
      assert DirSeen(es, b, n, |es|);
    }
  }

  /** The records of a well-formed level read back. */
  lemma RecordEncodable(hash: string -> Oid, es: seq<IndexEntry>, b: string, r: Record)
    requires WellFormedIndex(es) && AtBase(es, b)
    requires Get(LevelAt(hash, es, b), r.name) == Some((r.mode, r.raw))
    ensures Encodable(r)
  {
    var i, isDir := RecordSource(hash, es, b, r);
    if isDir {
      DirEncodable(hash, es, b, r, i);
    } else {
      LeafEncodable(es, b, r, i);
    }
  }

  lemma LeafEncodable(es: seq<IndexEntry>, b: string, r: Record, i: nat)
    requires WellFormedIndex(es) && AtBase(es, b)
    requires i < |es| && (r.mode, r.raw) == (es[i].mode, FromHex(es[i].oid))
    requires Slot(es[i], b) == Some((r.name, false))
    ensures Encodable(r)
  {
    SlotName(es, b, i, r.name, false);
    FileModeShape(es[i].mode, es[i].oid);
  }

  lemma DirEncodable(hash: string -> Oid, es: seq<IndexEntry>, b: string, r: Record, i: nat)
    requires WellFormedIndex(es) && AtBase(es, b)
    requires Get(LevelAt(hash, es, b), r.name) == Some((r.mode, r.raw))
    requires LastLeaf(es, b, r.name, |es|).None? && DirSeen(es, b, r.name, |es|)
    requires i < |es| && Slot(es[i], b) == Some((r.name, true))
    ensures Encodable(r)
  {
    SlotName(es, b, i, r.name, true);
    DirRecordShape(hash, es, b, r);
    DirRecordEncodable(r);
  }

  lemma DirRecordEncodable(r: Record)
    requires r.mode == "40000" && |r.raw| == 20 && '\0' !in r.name
    ensures Encodable(r)
  {
  }

  /** The name an entry contributes at a base has no slash and no NUL. */
  lemma SlotName(es: seq<IndexEntry>, b: string, i: nat, n: string, isDir: bool)
    requires WellFormedIndex(es) && AtBase(es, b)
    requires i < |es| && Slot(es[i], b) == Some((n, isDir))
    ensures StartsWith(es[i].path, b) && Seg(es[i].path, b) == n && ('/' in Below(es[i].path, b) <==> isDir)
    ensures n != [] && '/' !in n && '\0' !in n
  {
    SlotSeg(es[i], b);
    UnderBaseAt(es, b, i);
    SegAt(es[i].path, b);
  }

  lemma FileModeShape(m: string, oid: Oid)
    requires IsFileMode(m)
    ensures ' ' !in m && m != "40000" && |FromHex(oid)| == 20
  {
  }

  lemma DirRecordShape(hash: string -> Oid, es: seq<IndexEntry>, b: string, r: Record)
    requires Get(LevelAt(hash, es, b), r.name) == Some((r.mode, r.raw))
    requires LastLeaf(es, b, r.name, |es|).None? && DirSeen(es, b, r.name, |es|)
    ensures r.mode == "40000" && |r.raw| == 20
  {
    LevelDir(hash, es, b, r.name);
    DirValueShape(hash, es, b, r.name);
  }

  lemma DirValueShape(hash: string -> Oid, es: seq<IndexEntry>, b: string, n: string)
    ensures DirValue(hash, es, b, n).0 == "40000" && |DirValue(hash, es, b, n).1| == 20
  {
  }

  /** Every frame listed is stored under its hash. */
  predicate Holds(hash: string -> Oid, store: map<string, string>, frames: seq<string>) {
    forall f | f in frames :: hash(f) in store && store[hash(f)] == f
  }

  predicate NoDup(s: seq<IndexEntry>) {
    forall i, j | 0 <= i < j < |s| :: s[i] != s[j]
  }

  /** A stored tree frame reads back as that tree. */
  lemma ReadStoredTree(hash: string -> Oid, store: map<string, string>, c: string)
    requires Holds(hash, store, [Frame("tree", c)])
    ensures ReadObject(store, hash(Frame("tree", c))) == Ok(("tree", c))
  {
    assert Frame("tree", c) in [Frame("tree", c)];
    KindsAreWords("tree");
    ParseFrame("tree", c);
  }

  /** The names of a run of records. */
  function Names(rs: seq<Record>): (r: seq<string>)
    ensures |r| == |rs| && forall k | 0 <= k < |rs| :: r[k] == rs[k].name
  {
    if rs == [] then [] else [rs[0].name] + Names(rs[1..])
  }

  // ---------------------------------------------------------------- the round trip, level by level

  /** `w` succeeds with the entries of `es` beneath `b`, each once. */
  ghost predicate Flattens(w: Result<seq<IndexEntry>>, es: seq<IndexEntry>, b: string) {
    w.Ok? && NoDup(w.value) && forall x :: x in w.value <==> x in es && StartsWith(x.path, b)
  }

  /** `w` succeeds with the entries of `es` beneath `b` whose first segment
      below `b` is one of `names`, each once. */
  ghost predicate FlattensNames(w: Result<seq<IndexEntry>>, es: seq<IndexEntry>, b: string, names: seq<string>) {
    w.Ok? && NoDup(w.value) && forall x :: x in w.value <==> x in es && StartsWith(x.path, b) && Seg(x.path, b) in names
  }

  /** Records of the level at `b` that read back, with distinct names. */
  predicate LevelRun(hash: string -> Oid, es: seq<IndexEntry>, b: string, rs: seq<Record>) {
    (forall k | 0 <= k < |rs| :: Encodable(rs[k]) && Get(LevelAt(hash, es, b), rs[k].name) == Some((rs[k].mode, rs[k].raw)))
    && (forall k, l | 0 <= k < l < |rs| :: rs[k].name != rs[l].name)
  }

  /** The walker reads back a tree the builder wrote at `b`: the entries
      beneath `b`, each once. */
  lemma {:induction false} WalkBuilt(hash: string -> Oid, store: map<string, string>, es: seq<IndexEntry>, b: string, fuel: nat)
    requires WellFormedIndex(es) && AtBase(es, b)
    requires Holds(hash, store, Build(hash, es, b).1 + [Frame("tree", Build(hash, es, b).0)])
    requires fuel >= 1 && fuel + |b| > MaxLen(es)
    ensures Flattens(Walk(store, hash(Frame("tree", Build(hash, es, b).0)), b, fuel), es, b)
    decreases fuel, 0, 0
  {
    var c := Build(hash, es, b).0;
    var oid := hash(Frame("tree", c));
    var rs := LevelRecords(LevelAt(hash, es, b));
    var f: nat := fuel - 1;
    StoredBuild(hash, store, es, b);
    LevelFacts(hash, es, b);
    WalkRecsBuilt(hash, store, es, b, rs, f);
    TreeWalkIsRecs(hash, store, es, b, f);
    WalkConclude(store, oid, c, rs, es, b, fuel, f);
  }

  /** The walker reads back the records of a level, in any order, each
      giving the entries whose first segment below `b` it names. */
  lemma {:induction false} WalkRecsBuilt(hash: string -> Oid, store: map<string, string>, es: seq<IndexEntry>, b: string,
                                         rs: seq<Record>, fuel: nat)
    requires WellFormedIndex(es) && AtBase(es, b)
    requires LevelRun(hash, es, b, rs)
    requires Holds(hash, store, Build(hash, es, b).1)
    requires fuel + |b| >= MaxLen(es)
    ensures (forall k | 0 <= k < |rs| :: Encodable(rs[k])) && FlattensNames(WalkRecs(store, rs, b, fuel), es, b, Names(rs))
    decreases fuel, 2, |rs|
  {
    if rs == [] {
      assert Names(rs) == [];
    } else {
      LevelRunTail(hash, es, b, rs);
      RecordWalkBuilt(hash, store, es, b, rs[0], fuel);
      WalkRecsBuilt(hash, store, es, b, rs[1..], fuel);
      FlattensAppend(RecWalk(store, rs[0], b, fuel), WalkRecs(store, rs[1..], b, fuel), es, b, rs[0].name, Names(rs[1..]));
      assert Names(rs) == [rs[0].name] + Names(rs[1..]);
    }
  }

  /** The walker reads back one record of a level: the entries whose first
      segment below `b` is the record's name. */
  lemma {:induction false} RecordWalkBuilt(hash: string -> Oid, store: map<string, string>, es: seq<IndexEntry>, b: string,
                                           r: Record, fuel: nat)
    requires WellFormedIndex(es) && AtBase(es, b)
    requires Encodable(r) && Get(LevelAt(hash, es, b), r.name) == Some((r.mode, r.raw))
    requires Holds(hash, store, Build(hash, es, b).1)
    requires fuel + |b| >= MaxLen(es)
    ensures FlattensNames(RecWalk(store, r, b, fuel), es, b, [r.name])
    decreases fuel, 1, 0
  {
    var i, isDir := RecordSource(hash, es, b, r);
    if isDir {
      var sub := PathJoin(b, r.name);
      DirWalkPre(hash, store, es, b, r, i, fuel);
      WalkBuilt(hash, store, es, sub, fuel);
      DirFlattens(Walk(store, RecordOid(r), sub, fuel), es, b, sub, r.name);
    } else {
      LeafWalk(store, es, b, r, i, fuel);
    }
  }

  lemma LevelRunTail(hash: string -> Oid, es: seq<IndexEntry>, b: string, rs: seq<Record>)
    requires LevelRun(hash, es, b, rs) && rs != []
    ensures Encodable(rs[0]) && Get(LevelAt(hash, es, b), rs[0].name) == Some((rs[0].mode, rs[0].raw))
    ensures LevelRun(hash, es, b, rs[1..]) && rs[0].name !in Names(rs[1..])
  {
    var t := rs[1..];
    assert forall k | 0 <= k < |t| :: t[k] == rs[k + 1];
    forall m | 0 <= m < |t| ensures Names(t)[m] != rs[0].name {
      assert Names(t)[m] == rs[m + 1].name;
    }
  }

  /** Joining the entries of one name to those of other names. */
  lemma FlattensAppend(w1: Result<seq<IndexEntry>>, w2: Result<seq<IndexEntry>>, es: seq<IndexEntry>, b: string,
                       n: string, names: seq<string>)
    requires FlattensNames(w1, es, b, [n]) && FlattensNames(w2, es, b, names) && n !in names
    ensures FlattensNames(Then(w1.value, w2), es, b, [n] + names)
  {
    forall x | x in w1.value ensures x !in w2.value {
      assert Seg(x.path, b) in [n];
    }
    NoDupAppend(w1.value, w2.value);
  }

  /** Every entry beneath `b` names one of `names`: the entries of those
      names are all the entries beneath `b`. */
  lemma FlattensAll(w: Result<seq<IndexEntry>>, es: seq<IndexEntry>, b: string, names: seq<string>)
    requires FlattensNames(w, es, b, names)
    requires forall x | x in es && StartsWith(x.path, b) :: Seg(x.path, b) in names
    ensures Flattens(w, es, b)
  {
  }

  /** The entries beneath a subdirectory are those of its name. */
  lemma DirFlattens(w: Result<seq<IndexEntry>>, es: seq<IndexEntry>, b: string, sub: string, n: string)
    requires Flattens(w, es, sub)
    requires forall x | x in es :: StartsWith(x.path, sub) <==> StartsWith(x.path, b) && Seg(x.path, b) == n
    ensures FlattensNames(w, es, b, [n])
  {
  }

  /** The frames of the tree at `b` are stored; its root reads back. */
  lemma StoredBuild(hash: string -> Oid, store: map<string, string>, es: seq<IndexEntry>, b: string)
    requires Holds(hash, store, Build(hash, es, b).1 + [Frame("tree", Build(hash, es, b).0)])
    ensures Holds(hash, store, Build(hash, es, b).1)
    ensures ReadObject(store, hash(Frame("tree", Build(hash, es, b).0))) == Ok(("tree", Build(hash, es, b).0))
  {
    HoldsSplit(hash, store, Build(hash, es, b).1, [Frame("tree", Build(hash, es, b).0)]);
    ReadStoredTree(hash, store, Build(hash, es, b).0);
  }

  lemma HoldsSplit(hash: string -> Oid, store: map<string, string>, a: seq<string>, c: seq<string>)
    requires Holds(hash, store, a + c)
    ensures Holds(hash, store, a) && Holds(hash, store, c)
  {
    assert forall f | f in a :: f in a + c;
    assert forall f | f in c :: f in a + c;
  }

  lemma NoDupAppend(a: seq<IndexEntry>, c: seq<IndexEntry>)
    requires NoDup(a) && NoDup(c)
    requires forall x | x in a :: x !in c
    ensures NoDup(a + c)
  {
    forall i, j | 0 <= i < j < |a + c| ensures (a + c)[i] != (a + c)[j] {
      if i < |a| && j >= |a| {
        assert (a + c)[i] in a && (a + c)[j] == c[j - |a|];
      }
    }
  }

  /** The records of the level at `b`, with what the round trip needs of
      them: they are what the tree content encodes, they read back, their
      names are distinct, and every entry beneath `b` names one of them. */
  lemma LevelFacts(hash: string -> Oid, es: seq<IndexEntry>, b: string)
    requires WellFormedIndex(es) && AtBase(es, b)
    ensures LevelRun(hash, es, b, LevelRecords(LevelAt(hash, es, b)))
    ensures forall x | x in es && StartsWith(x.path, b) :: Seg(x.path, b) in Names(LevelRecords(LevelAt(hash, es, b)))
  {
    LevelRecordsRead(hash, es, b);
    LevelDistinct(hash, es, b, |es|);
    LevelNamesDistinct(LevelAt(hash, es, b));
    LevelCovers(hash, es, b);
  }

  /** The content of the tree at `b` is the encoding of its level's records. */
  lemma LevelEncoding(hash: string -> Oid, es: seq<IndexEntry>, b: string)
    ensures Build(hash, es, b).0 == EncodeRecords(LevelRecords(LevelAt(hash, es, b)))
  {
  }

  /** A tree whose content encodes `rs` walks as those records. */
  lemma EncodedWalk(store: map<string, string>, oid: string, c: string, rs: seq<Record>, b: string, f: nat)
    requires ReadObject(store, oid) == Ok(("tree", c))
    requires forall k | 0 <= k < |rs| :: Encodable(rs[k])
    requires WalkFrom(store, c, 0, b, f) == WalkRecs(store, rs, b, f)
    ensures Walk(store, oid, b, f + 1) == WalkRecs(store, rs, b, f)
  {
    WalkRead(store, oid, c, b, f);
  }

  /** The last step of `WalkBuilt`, on abstract values. */
  lemma WalkConclude(store: map<string, string>, oid: string, c: string, rs: seq<Record>, es: seq<IndexEntry>, b: string,
                      fuel: nat, f: nat)
    requires ReadObject(store, oid) == Ok(("tree", c)) && fuel == f + 1
    requires forall k | 0 <= k < |rs| :: Encodable(rs[k])
    requires WalkFrom(store, c, 0, b, f) == WalkRecs(store, rs, b, f)
    requires FlattensNames(WalkRecs(store, rs, b, f), es, b, Names(rs))
    requires forall x | x in es && StartsWith(x.path, b) :: Seg(x.path, b) in Names(rs)
    ensures Flattens(Walk(store, oid, b, fuel), es, b)
  {
    EncodedWalk(store, oid, c, rs, b, f);
    FlattensAll(WalkRecs(store, rs, b, f), es, b, Names(rs));
  }

  /** The content the builder wrote at `b` walks as the records of its level. */
  lemma TreeWalkIsRecs(hash: string -> Oid, store: map<string, string>, es: seq<IndexEntry>, b: string, fuel: nat)
    requires forall k | 0 <= k < |LevelRecords(LevelAt(hash, es, b))| :: Encodable(LevelRecords(LevelAt(hash, es, b))[k])
    ensures WalkFrom(store, Build(hash, es, b).0, 0, b, fuel) == WalkRecs(store, LevelRecords(LevelAt(hash, es, b)), b, fuel)
  {
    LevelEncoding(hash, es, b);
    WalkFromEncodedAt(store, Build(hash, es, b).0, LevelRecords(LevelAt(hash, es, b)), b, fuel);
  }

  lemma LevelRecordsRead(hash: string -> Oid, es: seq<IndexEntry>, b: string)
    requires WellFormedIndex(es) && AtBase(es, b)
    ensures var rs := LevelRecords(LevelAt(hash, es, b));
      forall k | 0 <= k < |rs| :: Encodable(rs[k]) && Get(LevelAt(hash, es, b), rs[k].name) == Some((rs[k].mode, rs[k].raw))
  {
    var d := LevelAt(hash, es, b);
    var rs := LevelRecords(d);
    LevelRecordsFacts(d);
    forall k | 0 <= k < |rs| ensures Encodable(rs[k]) {
      RecordEncodable(hash, es, b, rs[k]);
    }
  }

  lemma LevelNamesDistinct(d: Level)
    requires DistinctKeys(d)
    ensures var rs := LevelRecords(d); forall k, l | 0 <= k < l < |rs| :: rs[k].name != rs[l].name
  {
    LevelRecordsFacts(d);
    SortedDistinct(Keys(d));
  }

  lemma LevelCovers(hash: string -> Oid, es: seq<IndexEntry>, b: string)
    ensures forall x | x in es && StartsWith(x.path, b) :: Seg(x.path, b) in Names(LevelRecords(LevelAt(hash, es, b)))
  {
    var d := LevelAt(hash, es, b);
    LevelRecordsFacts(d);
    var names := Sort(Keys(d));
    assert Names(LevelRecords(d)) == names;
    SortPerm(Keys(d));
    forall x | x in es && StartsWith(x.path, b) ensures Seg(x.path, b) in names {
      var j :| 0 <= j < |es| && es[j] == x;
      SlotInLevel(hash, es, b, j);
      assert Seg(x.path, b) in multiset(Keys(d));
    }
  }

  /** The sorted keys of a level with distinct keys are distinct. */
  lemma SortedDistinct(ks: seq<string>)
    requires forall i, j | 0 <= i < j < |ks| :: ks[i] != ks[j]
    ensures forall k, l | 0 <= k < l < |Sort(ks)| :: Sort(ks)[k] != Sort(ks)[l]
  {
    SortSorted(ks);
    forall k, l | 0 <= k < l < |Sort(ks)| ensures Sort(ks)[k] != Sort(ks)[l] {
      LessIrreflexive(Sort(ks)[k]);
    }
  }

  /** A file record reads back as the one entry it copies. */
  lemma LeafWalk(store: map<string, string>, es: seq<IndexEntry>, b: string, r: Record, i: nat, fuel: nat)
    requires WellFormedIndex(es) && AtBase(es, b)
    requires Encodable(r) && i < |es| && (r.mode, r.raw) == (es[i].mode, FromHex(es[i].oid))
    requires StartsWith(es[i].path, b) && Slot(es[i], b) == Some((r.name, false))
    ensures FlattensNames(RecWalk(store, r, b, fuel), es, b, [r.name])
  {
    LeafEntry(store, es, b, r, i, fuel);
    LeafOnly(es, b, r.name, i);
    SingleFlattens(RecWalk(store, r, b, fuel), es, b, r.name, i);
  }

  /** A file record walks as the entry it copies. */
  lemma LeafEntry(store: map<string, string>, es: seq<IndexEntry>, b: string, r: Record, i: nat, fuel: nat)
    requires WellFormedIndex(es) && AtBase(es, b)
    requires Encodable(r) && i < |es| && (r.mode, r.raw) == (es[i].mode, FromHex(es[i].oid))
    requires StartsWith(es[i].path, b) && Slot(es[i], b) == Some((r.name, false))
    ensures RecWalk(store, r, b, fuel) == Ok([es[i]])
  {
    SlotName(es, b, i, r.name, false);
    FileModeShape(es[i].mode, es[i].oid);
    HexRoundTrip(es[i].oid);
    UnderBaseAt(es, b, i);
    FileSeg(es[i].path, b);
  }

  /** A file directly below `b` is the only entry beneath `b` with its name. */
  lemma LeafOnly(es: seq<IndexEntry>, b: string, n: string, i: nat)
    requires WellFormedIndex(es) && AtBase(es, b)
    requires i < |es| && StartsWith(es[i].path, b) && Slot(es[i], b) == Some((n, false))
    ensures Seg(es[i].path, b) == n
    ensures forall x | x in es && StartsWith(x.path, b) && Seg(x.path, b) == n :: x == es[i]
  {
    SlotName(es, b, i, n, false);
    forall x | x in es && StartsWith(x.path, b) && Seg(x.path, b) == n ensures x == es[i] {
      var j :| 0 <= j < |es| && es[j] == x;
      LeafUnique(es, b, i, j);
    }
  }

  lemma SingleFlattens(w: Result<seq<IndexEntry>>, es: seq<IndexEntry>, b: string, n: string, i: nat)
    requires i < |es| && StartsWith(es[i].path, b) && Seg(es[i].path, b) == n
    requires forall x | x in es && StartsWith(x.path, b) && Seg(x.path, b) == n :: x == es[i]
    requires w == Ok([es[i]])
    ensures FlattensNames(w, es, b, [n])
  {
  }

  /** What entering a directory record needs: the record points at the
      stored subtree, the subdirectory is a base with less fuel needed, and
      the entries beneath it are those whose first segment is its name. */
  lemma DirWalkPre(hash: string -> Oid, store: map<string, string>, es: seq<IndexEntry>, b: string, r: Record, i: nat, fuel: nat)
    requires WellFormedIndex(es) && AtBase(es, b)
    requires Encodable(r) && Get(LevelAt(hash, es, b), r.name) == Some((r.mode, r.raw))
    requires i < |es| && StartsWith(es[i].path, b) && Slot(es[i], b) == Some((r.name, true))
    requires LastLeaf(es, b, r.name, |es|).None? && DirSeen(es, b, r.name, |es|)
    requires Holds(hash, store, Build(hash, es, b).1)
    requires fuel + |b| >= MaxLen(es)
    ensures var sub := PathJoin(b, r.name);
      r.mode == "40000" && RecordOid(r) == hash(Frame("tree", Build(hash, es, sub).0))
    ensures var sub := PathJoin(b, r.name);
      AtBase(es, sub) && fuel >= 1 && fuel + |sub| > MaxLen(es)
    ensures var sub := PathJoin(b, r.name);
      Holds(hash, store, Build(hash, es, sub).1 + [Frame("tree", Build(hash, es, sub).0)])
    ensures var sub := PathJoin(b, r.name);
      forall x | x in es :: StartsWith(x.path, sub) <==> StartsWith(x.path, b) && Seg(x.path, b) == r.name
  {
    DirPointer(hash, es, b, r);
    DirPlace(es, b, r.name, i, fuel);
    DirHolds(hash, store, es, b, r.name);
    forall x | x in es
      ensures StartsWith(x.path, PathJoin(b, r.name)) <==> StartsWith(x.path, b) && Seg(x.path, b) == r.name
    {
      var j :| 0 <= j < |es| && es[j] == x;
      SegIff(es, b, i, j);
    }
  }

  lemma DirPointer(hash: string -> Oid, es: seq<IndexEntry>, b: string, r: Record)
    requires Encodable(r) && Get(LevelAt(hash, es, b), r.name) == Some((r.mode, r.raw))
    requires LastLeaf(es, b, r.name, |es|).None? && DirSeen(es, b, r.name, |es|)
    ensures r.mode == "40000" && RecordOid(r) == hash(Frame("tree", Build(hash, es, PathJoin(b, r.name)).0))
  {
    LevelDir(hash, es, b, r.name);
    HexRoundTrip(hash(Frame("tree", Build(hash, es, PathJoin(b, r.name)).0)));
  }

  lemma DirPlace(es: seq<IndexEntry>, b: string, n: string, i: nat, fuel: nat)
    requires WellFormedIndex(es) && AtBase(es, b)
    requires i < |es| && StartsWith(es[i].path, b) && Slot(es[i], b) == Some((n, true))
    requires fuel + |b| >= MaxLen(es)
    ensures Seg(es[i].path, b) == n && '/' in Below(es[i].path, b)
    ensures AtBase(es, PathJoin(b, n)) && fuel >= 1 && fuel + |PathJoin(b, n)| > MaxLen(es)
  {
    SlotName(es, b, i, n, true);
    UnderBaseAt(es, b, i);
    SubAtBase(es, b, i);
    SegAt(es[i].path, b);
  }

  lemma DirHolds(hash: string -> Oid, store: map<string, string>, es: seq<IndexEntry>, b: string, n: string)
    requires LastLeaf(es, b, n, |es|).None? && DirSeen(es, b, n, |es|)
    requires Holds(hash, store, Build(hash, es, b).1)
    ensures Holds(hash, store, Build(hash, es, PathJoin(b, n)).1 + [Frame("tree", Build(hash, es, PathJoin(b, n)).0)])
  {
    DirWritten(hash, es, b, |es|, n);
  }
}
