/** The `cat-file` command (git_scratch/commands/cat_file.py): the flags and
    the id are checked before the object database is touched; `-t` prints the
    kind and wins over `-p`, which prints a blob's content and refuses every
    other kind. */
module CatFile {
  import opened Common
  import opened Text
  import opened Objects
  import opened Refs

  /** What `cat-file` prints, or why it exits with status 1. The object is
      looked up under the id exactly as typed. */
  function CatFile(store: map<string, string>, oid: string, showType: bool, pretty: bool): (r: Result<string>)
    ensures !showType && !pretty ==> r == Err(Usage)
    ensures (showType || pretty) && !IsValidOid(oid) ==> r == Err(InvalidOid)
    ensures r.Err? ==> r.error in {Usage, InvalidOid, NotFound, Malformed, NotABlob}
  {
    if !(showType || pretty) then Err(Usage)
    else if !IsValidOid(oid) then Err(InvalidOid)
    else
      match ReadObject(store, oid)
      case Err(e) => Err(if e == NotFound then NotFound else Malformed)
      case Ok((kind, content)) =>
        if showType then Ok(kind)
        else if kind != "blob" then Err(NotABlob)
        else Ok(content)
  }

  /** A flag and a well-formed id that names no object: "not found". */
  lemma AbsentIsNotFound(store: map<string, string>, oid: string, showType: bool, pretty: bool)
    requires showType || pretty
    requires IsValidOid(oid) && oid !in store
    ensures CatFile(store, oid, showType, pretty) == Err(NotFound)
  {
  }

  /** Every id the database can hold passes the format check. */
  lemma StoredIdsAreValid(o: Oid)
    ensures IsValidOid(o)
  {
    assert Lower(o) == o by {
      forall k | 0 <= k < |o| ensures Lower(o)[k] == o[k] {
        assert IsLowerHexChar(o[k]);
      }
    }
  }

  /** An object written as `(kind, content)` reads back through `cat-file`:
      `-t` gives the kind (also with `-p`), and `-p` alone gives the content
      of a blob and refuses any other kind. */
  lemma CatStoredObject(store: map<string, string>, oid: Oid, kind: string, content: string, pretty: bool)
    requires IsKind(kind)
    requires oid in store && store[oid] == Frame(kind, content)
    ensures CatFile(store, oid, true, pretty) == Ok(kind)
    ensures CatFile(store, oid, false, true) == if kind == "blob" then Ok(content) else Err(NotABlob)
  {
    StoredIdsAreValid(oid);
    KindsAreWords(kind);
    ParseFrame(kind, content);
  }

  /** A written object, under the id the write returned. */
  lemma CatAfterWrite(hash: string -> Oid, store: map<string, string>, kind: string, content: string)
    requires IsKind(kind) && Consistent(hash, store)
    requires NoCollision(hash, store, Frame(kind, content))
    ensures var s := StoreDedup(hash, store, Frame(kind, content));
      && CatFile(s, ObjectId(hash, kind, content), true, false) == Ok(kind)
      && (kind == "blob" ==> CatFile(s, ObjectId(hash, kind, content), false, true) == Ok(content))
  {
    var s := StoreDedup(hash, store, Frame(kind, content));
    WriteThenRead(hash, store, kind, content);
    StoredIdsAreValid(ObjectId(hash, kind, content));
  }

  /** The format check accepts upper-case digits, but the lookup uses the id
      as typed, and every stored id is lower-case: such an id is never found. */
  lemma UpperCaseIdNotFound(hash: string -> Oid, store: map<string, string>, oid: string, k: nat,
                            showType: bool, pretty: bool)
    requires Consistent(hash, store) && (showType || pretty) && IsValidOid(oid)
    requires k < |oid| && 'A' <= oid[k] <= 'F'
    ensures CatFile(store, oid, showType, pretty) == Err(NotFound)
  {
    assert !IsOid(oid) by {
      assert !IsLowerHexChar(oid[k]);
    }
    assert forall o | o in store :: IsOid(hash(store[o]));
  }
}
