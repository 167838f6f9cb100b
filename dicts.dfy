/** Python dictionaries with string keys, as association lists in insertion
    order: assigning to an existing key replaces its value in place, a new
    key goes to the end. */
module Dicts {
  import opened Common

  type Dict<V> = seq<(string, V)>

  function Keys<V>(d: Dict<V>): (r: seq<string>)
    ensures |r| == |d| && forall i | 0 <= i < |d| :: r[i] == d[i].0
  {
    if d == [] then [] else [d[0].0] + Keys(d[1..])
  }

  /** `d.get(k)`. */
  function Get<V>(d: Dict<V>, k: string): (r: Option<V>)
    ensures r.None? <==> k !in Keys(d)
  {
    if d == [] then None else if d[0].0 == k then Some(d[0].1) else Get(d[1..], k)
  }

  /** `d[k] = v`. */
  function Put<V>(d: Dict<V>, k: string, v: V): (r: Dict<V>)
    ensures forall x :: x in Keys(r) <==> x in Keys(d) || x == k
  {
    if d == [] then [(k, v)]
    else if d[0].0 == k then [(k, v)] + d[1..]
    else [d[0]] + Put(d[1..], k, v)
  }

  /** `d.update(e)`: the items of `e` assigned one after another. */
  function Update<V>(d: Dict<V>, e: Dict<V>): Dict<V>
    decreases |e|
  {
    if e == [] then d else Update(Put(d, e[0].0, e[0].1), e[1..])
  }

  predicate DistinctKeys<V>(d: Dict<V>) {
    forall i, j | 0 <= i < j < |d| :: d[i].0 != d[j].0
  }

  /** An assignment is read back, and leaves every other key alone. */
  lemma {:induction false} PutGet<V>(d: Dict<V>, k: string, v: V, x: string)
    ensures Get(Put(d, k, v), x) == if x == k then Some(v) else Get(d, x)
    decreases |d|
  {
    if d != [] && d[0].0 != k {
      PutGet(d[1..], k, v, x);
    }
  }

  /** A new key goes to the end. */
  lemma {:induction false} PutNew<V>(d: Dict<V>, k: string, v: V)
    requires k !in Keys(d)
    ensures Put(d, k, v) == d + [(k, v)]
    decreases |d|
  {
    if d != [] {
      assert k !in Keys(d[1..]);
      PutNew(d[1..], k, v);
    }
  }

  /** An existing key keeps its place. */
  lemma {:induction false} PutExisting<V>(d: Dict<V>, k: string, v: V)
    requires k in Keys(d)
    ensures Keys(Put(d, k, v)) == Keys(d)
    decreases |d|
  {
    if d[0].0 != k {
      assert k in Keys(d[1..]);
      PutExisting(d[1..], k, v);
      assert Keys(Put(d, k, v)) == [d[0].0] + Keys(Put(d[1..], k, v));
    }
  }

  /** Assignment keeps the keys distinct. */
  lemma PutDistinct<V>(d: Dict<V>, k: string, v: V)
    requires DistinctKeys(d)
    ensures DistinctKeys(Put(d, k, v))
  {
    var r := Put(d, k, v);
    if k in Keys(d) {
      PutExisting(d, k, v);
      forall i, j | 0 <= i < j < |r| ensures r[i].0 != r[j].0 {
        assert r[i].0 == Keys(d)[i] && r[j].0 == Keys(d)[j];
      }
    } else {
      PutNew(d, k, v);
      forall i | 0 <= i < |d| ensures d[i].0 != k {
        assert Keys(d)[i] == d[i].0;
      }
    }
  }

  /** An update reads back the updating items, later ones winning. */
  lemma {:induction false} UpdateGet<V>(d: Dict<V>, e: Dict<V>, x: string)
    ensures Get(Update(d, e), x) == if x in Keys(e) then Get(LastWins(e), x) else Get(d, x)
    decreases |e|
  {
    if e != [] {
      UpdateGet(Put(d, e[0].0, e[0].1), e[1..], x);
      PutGet(d, e[0].0, e[0].1, x);
      LastWinsCons(e, x);
    }
  }

  /** A dictionary built from a list of pairs, later pairs winning. */
  function LastWins<V>(e: Dict<V>): Dict<V> {
    Update([], e)
  }

  lemma {:induction false} LastWinsCons<V>(e: Dict<V>, x: string)
    requires e != []
    ensures Get(LastWins(e), x)
      == if x in Keys(e[1..]) then Get(LastWins(e[1..]), x) else if x == e[0].0 then Some(e[0].1) else None
  {
    UpdateGetAny(Put([], e[0].0, e[0].1), e[1..], x);
    UpdateGetAny([], e[1..], x);
    PutGet([], e[0].0, e[0].1, x);
  }

  lemma {:induction false} UpdateGetAny<V>(d: Dict<V>, e: Dict<V>, x: string)
    ensures x !in Keys(e) ==> Get(Update(d, e), x) == Get(d, x)
    ensures forall d2: Dict<V> :: x in Keys(e) ==> Get(Update(d, e), x) == Get(Update(d2, e), x)
    decreases |e|
  {
    if e != [] {
      UpdateGetAny(Put(d, e[0].0, e[0].1), e[1..], x);
      PutGet(d, e[0].0, e[0].1, x);
      forall d2: Dict<V> | x in Keys(e)
        ensures Get(Update(d, e), x) == Get(Update(d2, e), x)
      {
        UpdateGetAny(Put(d2, e[0].0, e[0].1), e[1..], x);
        PutGet(d2, e[0].0, e[0].1, x);
      }
    }
  }
}
