/** Loose objects: the `"<kind> <len>\0"` framing, the object id as the hash
    of the framed bytes, and the two readers that take a framed payload apart.
    The object database is a map from object id to framed (decompressed)
    bytes; SHA-1 is the parameter `hash`. */
module Objects {
  import opened Common
  import opened Text

  /** The kinds `write_object` accepts. */
  predicate IsKind(kind: string) {
    kind == "blob" || kind == "tree" || kind == "commit"
  }

  /** `f"{kind} {len(content)}\0"`. */
  function Header(kind: string, content: string): string {
    kind + " " + Decimal(|content|) + "\0"
  }

  /** The bytes that are hashed and stored for an object. */
  function Frame(kind: string, content: string): (f: string)
    ensures f == Header(kind, content) + content
  {
    Header(kind, content) + content
  }

  /** The object id of `(kind, content)`. */
  function ObjectId(hash: string -> Oid, kind: string, content: string): Oid {
    hash(Frame(kind, content))
  }

  /** Every stored payload sits under the hash of its own bytes. */
  predicate Consistent(hash: string -> Oid, store: map<string, string>) {
    forall o | o in store :: hash(store[o]) == o
  }

  /** No stored payload other than `f` has the hash of `f`. */
  predicate NoCollision(hash: string -> Oid, store: map<string, string>, f: string) {
    forall o | o in store :: hash(store[o]) == hash(f) ==> store[o] == f
  }

  /** A kind that can be read back: a single non-empty word without NUL. */
  predicate IsWord(k: string) {
    k != [] && NoneSpace(k, IsStrSpace) && '\0' !in k
  }

  lemma KindsAreWords(kind: string)
    requires IsKind(kind)
    ensures IsWord(kind)
  {
  }

  /** The payload-parsing half of `read_object`: the header ends at the
      first NUL, must split into exactly two words, and the first word is
      the kind; the declared length is not compared with anything. */
  function ParseObject(data: string): (r: Result<(string, string)>)
    ensures r.Ok? ==> exists k | 0 <= k < |data| :: data[k] == '\0' && r.value.1 == data[k + 1..]
    ensures '\0' !in data ==> r == Err(Malformed)
    ensures r.Err? ==> r.error == Malformed
  {
    var k := Find(data, '\0', 0);
    if k < 0 then Err(Malformed)
    else
      var words := Words(data[..k], IsStrSpace);
      if |words| != 2 then Err(Malformed) else Ok((words[0], data[k + 1..]))
  }

  /** `read_object` of git_scratch/utils/read_object.py. */
  function ReadObject(store: map<string, string>, oid: string): (r: Result<(string, string)>)
    ensures oid !in store ==> r == Err(NotFound)
    ensures oid in store ==> r == ParseObject(store[oid])
    ensures r.Err? ==> r.error == NotFound || r.error == Malformed
  {
    if oid !in store then Err(NotFound) else ParseObject(store[oid])
  }

  /** The payload-parsing half of the `read_object` in checkout_utils.py: a
      split at the first NUL, and the first byte-whitespace word of the header
      as the kind (no count of the words). */
  function ParseObjectLoose(data: string): Result<(string, string)> {
    var k := Find(data, '\0', 0);
    if k < 0 then Err(Malformed)
    else
      var words := Words(data[..k], IsByteSpace);
      if |words| == 0 then Err(Malformed) else Ok((words[0], data[k + 1..]))
  }

  /** The `read_object` of checkout_utils.py. */
  function ReadObjectLoose(store: map<string, string>, oid: string): Result<(string, string)> {
    if oid !in store then Err(NotFound) else ParseObjectLoose(store[oid])
  }

  /** `compute_blob_hash`: the blob's id and its framed bytes. */
  function ComputeBlobHash(hash: string -> Oid, content: string): (r: (Oid, string))
    ensures r.1 == "blob " + Decimal(|content|) + "\0" + content
    ensures r.0 == hash(r.1)
  {
    var full := Frame("blob", content);
    (hash(full), full)
  }

  // ---------------------------------------------------------------- lemmas

  /** The first NUL of a frame is the one that ends its header. */
  lemma FrameFirstNul(kind: string, content: string)
    requires '\0' !in kind
    ensures var h := Header(kind, content);
      Find(Frame(kind, content), '\0', 0) == |h| - 1
  {
    var h := Header(kind, content);
    var f := Frame(kind, content);
    var d := Decimal(|content|);
    assert h == kind + " " + d + "\0";
    forall j | 0 <= j < |h| - 1 ensures f[j] != '\0' {
      assert f[j] == h[j];
      if j < |kind| { assert h[j] == kind[j]; }
      else if j > |kind| { assert h[j] == d[j - |kind| - 1]; }
    }
    assert f[|h| - 1] == '\0';
    FindFirst(f, '\0', 0, |h| - 1);
  }

  /** Reading a frame back gives its kind and its content, whatever the
      content holds (later NULs included). */
  lemma ParseFrame(kind: string, content: string)
    requires IsWord(kind)
    ensures ParseObject(Frame(kind, content)) == Ok((kind, content))
    ensures ParseObjectLoose(Frame(kind, content)) == Ok((kind, content))
  {
    var f := Frame(kind, content);
    var k := Find(f, '\0', 0);
    FrameSplit(kind, content);
    HeaderWords(kind, Decimal(|content|));
  }

  /** The header before the NUL is the two words kind and length, under
      either notion of whitespace. */
  lemma HeaderWords(kind: string, d: string)
    requires IsWord(kind) && d != []
    requires forall k | 0 <= k < |d| :: '0' <= d[k] <= '9'
    ensures Words(kind + " " + d, IsStrSpace) == [kind, d]
    ensures Words(kind + " " + d, IsByteSpace) == [kind, d]
  {
    DigitsNoSpace(d);
    WordsPair(kind, d, IsStrSpace);
    assert NoneSpace(kind, IsByteSpace) by {
      forall j | 0 <= j < |kind| ensures !IsByteSpace(kind[j]) {
        assert !IsStrSpace(kind[j]);
      }
    }
    WordsPair(kind, d, IsByteSpace);
  }

  /** A frame is its header words, the first NUL, then the content. */
  lemma FrameSplit(kind: string, content: string)
    requires '\0' !in kind
    ensures var f := Frame(kind, content); var k := Find(f, '\0', 0);
      0 <= k < |f| && f[..k] == kind + " " + Decimal(|content|) && f[k + 1..] == content
  {
    var h := Header(kind, content);
    var f := Frame(kind, content);
    FrameFirstNul(kind, content);
    assert f[..|h| - 1] == kind + " " + Decimal(|content|);
    assert f[|h|..] == content;
  }

  lemma DigitsNoSpace(d: string)
    requires forall k | 0 <= k < |d| :: '0' <= d[k] <= '9'
    ensures NoneSpace(d, IsStrSpace) && NoneSpace(d, IsByteSpace)
  {
  }

  /** The declared length is never checked: a header that lies about the
      length still reads. */
  lemma LengthNotChecked()
    ensures ParseObject("blob 7\0abc") == Ok(("blob", "abc"))
  {
    var data := "blob 7\0abc";
    FindFirst(data, '\0', 0, 6);
    assert data[..6] == "blob" + " " + "7";
    WordsPair("blob", "7", IsStrSpace);
    assert data[7..] == "abc";
  }

  /** A header that is not exactly two words fails. */
  lemma OneWordHeaderFails()
    ensures ParseObject("blob\0abc") == Err(Malformed)
  {
    var data := "blob\0abc";
    FindFirst(data, '\0', 0, 4);
    assert data[..4] == "blob";
    WordsSingle("blob", IsStrSpace);
  }

  /** `compute_blob_hash` gives the id `write_object(content, "blob")` computes. */
  lemma BlobHashIsObjectId(hash: string -> Oid, content: string)
    ensures ComputeBlobHash(hash, content).0 == ObjectId(hash, "blob", content)
    ensures ParseObject(ComputeBlobHash(hash, content).1) == Ok(("blob", content))
  {
    ParseFrame("blob", content);
  }
  // ---------------------------------------------------------------- writes

  /** `write_object`'s effect on the database: nothing when the id is
      already present, otherwise the frame under its id. */
  function StoreDedup(hash: string -> Oid, store: map<string, string>, f: string): (r: map<string, string>)
    ensures hash(f) in r && r.Keys == store.Keys + {hash(f)}
    ensures forall o | o in store :: r[o] == store[o]
  {
    if hash(f) in store then store else store[hash(f) := f]
  }

  /** The unconditional write of `store_object` and of `add`: the frame under
      its id, replacing whatever was there. */
  function StoreOverwrite(hash: string -> Oid, store: map<string, string>, f: string): (r: map<string, string>)
    ensures r.Keys == store.Keys + {hash(f)} && r[hash(f)] == f
    ensures forall o | o in store && o != hash(f) :: r[o] == store[o]
  {
    store[hash(f) := f]
  }

  /** Both kinds of write keep the database consistent. */
  lemma WritesKeepConsistent(hash: string -> Oid, store: map<string, string>, f: string)
    requires Consistent(hash, store)
    ensures Consistent(hash, StoreDedup(hash, store, f))
    ensures Consistent(hash, StoreOverwrite(hash, store, f))
  {
  }

  /** Without a collision the two kinds of write have the same effect. */
  lemma DedupIsOverwrite(hash: string -> Oid, store: map<string, string>, f: string)
    requires Consistent(hash, store) && NoCollision(hash, store, f)
    ensures StoreDedup(hash, store, f) == StoreOverwrite(hash, store, f)
    ensures StoreDedup(hash, store, f)[hash(f)] == f
  {
    if hash(f) in store {
      assert hash(store[hash(f)]) == hash(f);
      assert store[hash(f) := f] == store;
    }
  }

  /** Writing the same frame a second time changes nothing. */
  lemma WritesIdempotent(hash: string -> Oid, store: map<string, string>, f: string)
    ensures StoreDedup(hash, StoreDedup(hash, store, f), f) == StoreDedup(hash, store, f)
    ensures StoreOverwrite(hash, StoreOverwrite(hash, store, f), f) == StoreOverwrite(hash, store, f)
  {
  }

  /** `read_object(write_object(content, kind)) == (kind, content)` when no
      other stored object shares the id. */
  lemma WriteThenRead(hash: string -> Oid, store: map<string, string>, kind: string, content: string)
    requires IsKind(kind) && Consistent(hash, store)
    requires NoCollision(hash, store, Frame(kind, content))
    ensures ReadObject(StoreDedup(hash, store, Frame(kind, content)), ObjectId(hash, kind, content))
      == Ok((kind, content))
  {
    DedupIsOverwrite(hash, store, Frame(kind, content));
    ParseFrame(kind, content);
  }

  /** The same (kind, content) always gets the same id, and a second write of
      it leaves the database as the first one did. */
  lemma SameObjectSameId(hash: string -> Oid, store: map<string, string>, kind: string, content: string)
    ensures var f := Frame(kind, content); var s1 := StoreDedup(hash, store, f);
      ObjectId(hash, kind, content) in s1 && StoreDedup(hash, s1, f) == s1
  {
  }
  /** A sequence of unconditional writes, in order. */
  function OverwriteAll(hash: string -> Oid, store: map<string, string>, frames: seq<string>): map<string, string>
  {
    if frames == [] then store
    else StoreOverwrite(hash, OverwriteAll(hash, store, frames[..|frames| - 1]), frames[|frames| - 1])
  }

  lemma OverwriteAllSnoc(hash: string -> Oid, store: map<string, string>, frames: seq<string>, f: string)
    ensures OverwriteAll(hash, store, frames + [f]) == StoreOverwrite(hash, OverwriteAll(hash, store, frames), f)
  {
    assert (frames + [f])[..|frames|] == frames;
  }

  /** A sequence of `write_object` writes, in order. */
  function DedupAll(hash: string -> Oid, store: map<string, string>, frames: seq<string>): map<string, string>
  {
    if frames == [] then store
    else StoreDedup(hash, DedupAll(hash, store, frames[..|frames| - 1]), frames[|frames| - 1])
  }

  /** Writing `a` then `b` is writing `a + b`, for either kind of write. */
  lemma {:induction false} WritesAppend(hash: string -> Oid, store: map<string, string>, a: seq<string>, b: seq<string>)
    ensures DedupAll(hash, store, a + b) == DedupAll(hash, DedupAll(hash, store, a), b)
    ensures OverwriteAll(hash, store, a + b) == OverwriteAll(hash, OverwriteAll(hash, store, a), b)
    decreases |b|
  {
    if b == [] {
      assert a + b == a;
    } else {
      var b' := b[..|b| - 1];
      WritesAppend(hash, store, a, b');
      assert (a + b)[..|a + b| - 1] == a + b';
      assert (a + b)[|a + b| - 1] == b[|b| - 1];
    }
  }
}
