/** `write_tree` (git_scratch/commands/write_tree.py): the index is built into
    trees with the overwriting copy of `build_tree`, the root is stored with
    `store_object`, and its id is the result. Also the step the commit command
    calls `create_root_tree_object`, which does the same with the
    deduplicating copy of the builder, and the end-to-end round trip: the
    root that was written flattens back to the index. */
module WriteTree {
  import opened Common
  import opened Text
  import opened Objects
  import opened Repository
  import opened TreeBuild
  import opened TreeWalk
  import opened RoundTrip

  /** The root tree's content for an index. */
  function RootContent(hash: string -> Oid, es: seq<IndexEntry>): string {
    Build(hash, es, "").0
  }

  /** Every frame the builder writes for an index, the root last. */
  function TreeFrames(hash: string -> Oid, es: seq<IndexEntry>): seq<string> {
    Build(hash, es, "").1 + [Frame("tree", RootContent(hash, es))]
  }

  /** `write_tree()`: an empty or missing index is an error exit that writes
      nothing; otherwise every subtree and then the root are stored,
      overwriting, and the root's id is returned. */
  method WriteTreeCommand(repo: Repo) returns (r: Result<Oid>)
    modifies repo`store
    ensures repo.LoadIndex() == [] ==> r == Err(EmptyIndex) && repo.store == old(repo.store)
    ensures repo.LoadIndex() != [] ==>
      r == Ok(repo.hash(Frame("tree", RootContent(repo.hash, repo.LoadIndex()))))
      && repo.store == OverwriteAll(repo.hash, old(repo.store), TreeFrames(repo.hash, repo.LoadIndex()))
  {
    var index := repo.LoadIndex();
    if index == [] {
      return Err(EmptyIndex);
    }
    var tree := BuildTree(repo, index, "", Overwrite);
    var oid := repo.StoreObject(tree, "tree");
    OverwriteAllSnoc(repo.hash, old(repo.store), Build(repo.hash, index, "").1, Frame("tree", tree));
    return Ok(oid);
  }

  /** `create_root_tree_object()` as the commit command uses it: the index
      built with the deduplicating builder and the root written with
      `write_object`; the root's id is returned. */
  method CreateRootTree(repo: Repo) returns (oid: Oid)
    modifies repo`store
    ensures oid == repo.hash(Frame("tree", RootContent(repo.hash, repo.LoadIndex())))
    ensures repo.store == DedupAll(repo.hash, old(repo.store), TreeFrames(repo.hash, repo.LoadIndex()))
  {
    var index := repo.LoadIndex();
    var tree := BuildTree(repo, index, "", Dedup);
    var r := repo.WriteObject(tree, "tree");
    oid := r.value;
    assert TreeFrames(repo.hash, index)[..|TreeFrames(repo.hash, index)| - 1] == Build(repo.hash, index, "").1;
  }

  // ---------------------------------------------------------------- the writes hold what they wrote

  /** No two of the frames share an id unless they are equal. */
  predicate Injective(hash: string -> Oid, frames: seq<string>) {
    forall i, j | 0 <= i < |frames| && 0 <= j < |frames| :: hash(frames[i]) == hash(frames[j]) ==> frames[i] == frames[j]
  }

  /** After a run of overwriting writes, every frame written sits under its id. */
  lemma {:induction false} OverwriteHolds(hash: string -> Oid, s: map<string, string>, frames: seq<string>)
    requires Injective(hash, frames)
    ensures Holds(hash, OverwriteAll(hash, s, frames), frames)
    decreases |frames|
  {
    if frames != [] {
      var init := frames[..|frames| - 1];
      var f := frames[|frames| - 1];
      assert Injective(hash, init) by {
        forall i, j | 0 <= i < |init| && 0 <= j < |init| && hash(init[i]) == hash(init[j])
          ensures init[i] == init[j]
        {
          assert init[i] == frames[i] && init[j] == frames[j];
        }
      }
      OverwriteHolds(hash, s, init);
      forall g | g in frames
        ensures hash(g) in OverwriteAll(hash, s, frames) && OverwriteAll(hash, s, frames)[hash(g)] == g
      {
        var i :| 0 <= i < |frames| && frames[i] == g;
        if hash(g) != hash(f) {
          assert g in init;
        }
      }
    }
  }

  /** Every value a run of overwriting writes leaves is either an old value
      under the same id or one of the frames. */
  lemma {:induction false} OverwriteValues(hash: string -> Oid, s: map<string, string>, frames: seq<string>)
    ensures forall o | o in OverwriteAll(hash, s, frames) ::
      OverwriteAll(hash, s, frames)[o] in frames || (o in s && OverwriteAll(hash, s, frames)[o] == s[o])
    decreases |frames|
  {
    if frames != [] {
      var init := frames[..|frames| - 1];
      OverwriteValues(hash, s, init);
      forall o | o in OverwriteAll(hash, s, frames)
        ensures OverwriteAll(hash, s, frames)[o] in frames || (o in s && OverwriteAll(hash, s, frames)[o] == s[o])
      {
        if o != hash(frames[|frames| - 1]) {
          assert o in OverwriteAll(hash, s, init);
          var v := OverwriteAll(hash, s, init)[o];
          if v in init {
            assert v in frames;
          }
        }
      }
    }
  }

  /** Without collisions, the deduplicating and the overwriting writes leave
      the same database: the two builders agree on the store as well as on
      the bytes. */
  lemma {:induction false} DedupAllIsOverwriteAll(hash: string -> Oid, s: map<string, string>, frames: seq<string>)
    requires Consistent(hash, s) && Injective(hash, frames)
    requires forall i | 0 <= i < |frames| :: NoCollision(hash, s, frames[i])
    ensures DedupAll(hash, s, frames) == OverwriteAll(hash, s, frames)
    ensures Consistent(hash, OverwriteAll(hash, s, frames))
    decreases |frames|
  {
    if frames != [] {
      var init := frames[..|frames| - 1];
      var f := frames[|frames| - 1];
      assert Injective(hash, init) by {
        forall i, j | 0 <= i < |init| && 0 <= j < |init| && hash(init[i]) == hash(init[j])
          ensures init[i] == init[j]
        {
          assert init[i] == frames[i] && init[j] == frames[j];
        }
      }
      assert forall i | 0 <= i < |init| :: NoCollision(hash, s, init[i]) by {
        forall i | 0 <= i < |init| ensures NoCollision(hash, s, init[i]) {
          assert init[i] == frames[i];
        }
      }
      DedupAllIsOverwriteAll(hash, s, init);
      var d := OverwriteAll(hash, s, init);
      OverwriteValues(hash, s, init);
      assert NoCollision(hash, d, f) by {
        forall o | o in d && hash(d[o]) == hash(f) ensures d[o] == f {
          if d[o] !in init {
            assert NoCollision(hash, s, frames[|frames| - 1]);
          }
        }
      }
      DedupIsOverwrite(hash, d, f);
      WritesKeepConsistent(hash, d, f);
    }
  }

  // ---------------------------------------------------------------- the round trip

  /** Two lists without repeats that hold the same entries are permutations
      of each other. */
  lemma SameMembersPermutation(a: seq<IndexEntry>, b: seq<IndexEntry>)
    requires NoDup(a) && NoDup(b)
    requires forall x :: x in a <==> x in b
    ensures multiset(a) == multiset(b)
  {
    forall x ensures multiset(a)[x] == multiset(b)[x] {
      NoDupCount(a, x);
      NoDupCount(b, x);
    }
  }

  lemma {:induction false} NoDupCount(a: seq<IndexEntry>, x: IndexEntry)
    requires NoDup(a)
    ensures multiset(a)[x] == if x in a then 1 else 0
    decreases |a|
  {
    if a != [] {
      assert NoDup(a[1..]) by {
        forall i, j | 0 <= i < j < |a[1..]| ensures a[1..][i] != a[1..][j] {
          assert a[1..][i] == a[i + 1] && a[1..][j] == a[j + 1];
        }
      }
      NoDupCount(a[1..], x);
      assert a == [a[0]] + a[1..];
      assert multiset(a) == multiset{a[0]} + multiset(a[1..]);
      if a[0] == x {
        assert x !in a[1..] by {
          forall k | 0 <= k < |a[1..]| ensures a[1..][k] != x {
            assert a[1..][k] == a[k + 1];
          }
        }
      }
    }
  }

  /** A well-formed index has no repeated entry. */
  lemma IndexNoDup(es: seq<IndexEntry>)
    requires WellFormedIndex(es)
    ensures NoDup(es)
  {
    forall i, j | 0 <= i < j < |es| ensures es[i] != es[j] {
      assert es[i].path != es[j].path;
    }
  }

  /** Walking a root that was stored together with its subtrees gives back
      the index entries, each once, in some order. */
  lemma WalkRoot(hash: string -> Oid, store: map<string, string>, es: seq<IndexEntry>, fuel: nat)
    requires WellFormedIndex(es)
    requires Holds(hash, store, TreeFrames(hash, es))
    requires fuel > MaxLen(es)
    ensures var w := Walk(store, hash(Frame("tree", RootContent(hash, es))), "", fuel);
      w.Ok? && multiset(w.value) == multiset(es)
  {
    WalkBuilt(hash, store, es, "", fuel);
    var w := Walk(store, hash(Frame("tree", RootContent(hash, es))), "", fuel);
    IndexNoDup(es);
    forall x ensures x in w.value <==> x in es {
      assert StartsWith(x.path, "");
    }
    SameMembersPermutation(w.value, es);
  }

  /** `entries_from_tree(write_tree())` is the index: after `write_tree` on a
      well-formed, non-empty index whose tree frames do not collide, the
      flattener, started at the printed id, returns the index entries. */
  lemma WriteTreeRoundTrip(hash: string -> Oid, s: map<string, string>, es: seq<IndexEntry>, fuel: nat)
    requires WellFormedIndex(es) && Injective(hash, TreeFrames(hash, es))
    requires fuel > MaxLen(es)
    ensures var w := Walk(OverwriteAll(hash, s, TreeFrames(hash, es)), hash(Frame("tree", RootContent(hash, es))), "", fuel);
      w.Ok? && multiset(w.value) == multiset(es)
  {
    OverwriteHolds(hash, s, TreeFrames(hash, es));
    WalkRoot(hash, OverwriteAll(hash, s, TreeFrames(hash, es)), es, fuel);
  }

  /** The same for the root the commit command stores, when the database it
      writes into is consistent and holds nothing that collides with a
      frame of the tree. */
  lemma CreateRootTreeRoundTrip(hash: string -> Oid, s: map<string, string>, es: seq<IndexEntry>, fuel: nat)
    requires WellFormedIndex(es) && Injective(hash, TreeFrames(hash, es))
    requires Consistent(hash, s)
    requires forall i | 0 <= i < |TreeFrames(hash, es)| :: NoCollision(hash, s, TreeFrames(hash, es)[i])
    requires fuel > MaxLen(es)
    ensures var w := Walk(DedupAll(hash, s, TreeFrames(hash, es)), hash(Frame("tree", RootContent(hash, es))), "", fuel);
      w.Ok? && multiset(w.value) == multiset(es)
  {
    DedupAllIsOverwriteAll(hash, s, TreeFrames(hash, es));
    WriteTreeRoundTrip(hash, s, es, fuel);
  }
}
