/** The state a command works on: the object database, the ref files, HEAD,
    the index file, the packed-refs file and the working directory, with the
    primitive writes the commands are made of. */
module Repository {
  import opened Common
  import opened Text
  import opened Objects

  /** One staged file, as `index.json` records it. */
  datatype IndexEntry = IndexEntry(mode: string, oid: Oid, path: string)

  /** What the ref-moving commands may change: HEAD, the ref files, the
      index and the working directory. */
  datatype RepoState = RepoState(head: Option<string>, refs: map<string, string>,
                                 index: Option<seq<IndexEntry>>, workdir: map<string, string>)

  /** A command's effect: the state it leaves and what it answers. */
  datatype Outcome = Outcome(state: RepoState, out: Result<string>)

  /** A repository under `.git` plus its working directory.
      - `store`: object id to framed object bytes (`.git/objects`, decompressed);
      - `refs`: ref name relative to `.git` (such as `refs/heads/main`) to file text;
      - `head`: the text of `.git/HEAD`, if the file exists;
      - `index`: the entries of `.git/index.json`, if the file exists;
      - `packed`: the text of `.git/packed-refs`, if the file exists;
      - `refsDir`: whether the directory `.git/refs` exists;
      - `workdir`: working-tree path (relative, `/`-separated) to file bytes. */
  class Repo {
    const hash: string -> Oid
    var store: map<string, string>
    var refs: map<string, string>
    var head: Option<string>
    var index: Option<seq<IndexEntry>>
    var packed: Option<string>
    var refsDir: bool
    var workdir: map<string, string>

    /** The repository `init` leaves behind: HEAD names the branch master,
        which has no ref file yet. */
    constructor Init(hash: string -> Oid, workdir: map<string, string>)
      ensures this.hash == hash && this.workdir == workdir
      ensures store == map[] && refs == map[] && index.None? && packed.None? && refsDir
      ensures head == Some("ref: refs/heads/master\n")
      ensures Valid()
    {
      this.hash := hash;
      this.workdir := workdir;
      store := map[];
      refs := map[];
      head := Some("ref: refs/heads/master\n");
      index := None;
      packed := None;
      refsDir := true;
    }

    function State(): RepoState
      reads this
    {
      RepoState(head, refs, index, workdir)
    }

    /** Every stored object sits under the hash of its bytes. */
    predicate Valid()
      reads this
    {
      Consistent(hash, store)
    }

    /** `load_index`: the saved list, or the empty list when there is no file. */
    function LoadIndex(): (r: seq<IndexEntry>)
      reads this
      ensures index.None? ==> r == []
      ensures index.Some? ==> r == index.value
    {
      if index.None? then [] else index.value
    }

    /** `write_object`: rejects an unknown kind, otherwise stores the frame
        unless its id is already present, and returns the id. */
    method WriteObject(content: string, kind: string) returns (r: Result<Oid>)
      modifies this`store
      ensures !IsKind(kind) ==> r == Err(InvalidKind) && store == old(store)
      ensures IsKind(kind) ==> r == Ok(ObjectId(hash, kind, content))
      ensures IsKind(kind) ==> store == StoreDedup(hash, old(store), Frame(kind, content))
      ensures old(Valid()) ==> Valid()
      ensures IsKind(kind) && old(Valid()) && NoCollision(hash, old(store), Frame(kind, content))
        ==> ReadObject(store, r.value) == Ok((kind, content))
    {
      if !IsKind(kind) {
        return Err(InvalidKind);
      }
      var full := Frame(kind, content);
      var oid := hash(full);
      if Valid() {
        WritesKeepConsistent(hash, store, full);
      }
      if Valid() && NoCollision(hash, store, full) {
        WriteThenRead(hash, store, kind, content);
      }
      if oid in store {
        return Ok(oid);
      }
      store := store[oid := full];
      return Ok(oid);
    }

    /** `store_object` (and the blob write of `add`): frames and stores
        unconditionally, whatever the kind, and returns the id. */
    method StoreObject(data: string, kind: string) returns (oid: Oid)
      modifies this`store
      ensures oid == ObjectId(hash, kind, data)
      ensures store == StoreOverwrite(hash, old(store), Frame(kind, data))
      ensures old(Valid()) ==> Valid()
    {
      var full := Frame(kind, data);
      oid := hash(full);
      store := store[oid := full];
    }

    /** `save_index`, after which `load_index` returns exactly `entries`. */
    method SaveIndex(entries: seq<IndexEntry>)
      modifies this`index
      ensures index == Some(entries)
      ensures LoadIndex() == entries
    {
      index := Some(entries);
    }

    /** Overwrites (or creates) the ref file `name`. */
    method WriteRef(name: string, text: string)
      modifies this`refs
      ensures refs == old(refs)[name := text]
    {
      refs := refs[name := text];
    }

    /** Overwrites (or creates) `.git/HEAD`. */
    method SetHead(text: string)
      modifies this`head
      ensures head == Some(text)
    {
      head := Some(text);
    }

    /** Writes a working file. */
    method WriteFile(path: string, data: string)
      modifies this`workdir
      ensures workdir == old(workdir)[path := data]
    {
      workdir := workdir[path := data];
    }

    /** Deletes a working file. */
    method RemoveFile(path: string)
      modifies this`workdir
      ensures workdir == old(workdir) - {path}
    {
      workdir := workdir - {path};
    }
  }
}
