/** The readers of tree objects: the recursive flattener `entries_from_tree`
    (git_scratch/utils/tree_walker.py, repeated as `_entries_from_tree` in
    git_scratch/commands/reset.py), the one-level listing of `ls_tree`, and
    `read_tree`/`read_tree_files` of git_scratch/utils/checkout_utils.py.
    Each advances a cursor over the records with the step `NextRecord`.
    Python's recursion limit is the parameter `fuel`. */
module TreeWalk {
  import opened Common
  import opened Text
  import opened Dicts
  import opened Objects
  import opened Repository
  import opened TreeCodec

  /** The id a record points at, as 40 hex digits. */
  function RecordOid(rec: Record): Oid
    requires Encodable(rec)
  {
    ToHexIsOid(rec.raw);
    ToHex(rec.raw)
  }

  // ---------------------------------------------------------------- entries_from_tree

  /** `entries_from_tree(oid, base)`: the index entries of every non-directory
      record beneath the tree, depth first in stored order. */
  function Walk(store: map<string, string>, oid: string, base: string, fuel: nat): Result<seq<IndexEntry>>
    decreases fuel, 0, 0
  {
    if fuel == 0 then Err(RecursionLimit)
    else
      match ReadObject(store, oid)
      case Err(e) => Err(e)
      case Ok((kind, c)) =>
        if kind != "tree" then Err(NotATree) else WalkFrom(store, c, 0, base, fuel - 1)
  }

  /** The loop of `entries_from_tree` from cursor `i`. */
  function WalkFrom(store: map<string, string>, c: string, i: nat, base: string, fuel: nat): Result<seq<IndexEntry>>
    requires i <= |c|
    decreases fuel, 1, |c| - i
  {
    if i == |c| then Ok([])
    else
      match NextRecord(c, i)
      case Err(e) => Err(e)
      case Ok((rec, j)) =>
        var path := PathJoin(base, rec.name);
        if rec.mode == "40000" then
          match Walk(store, RecordOid(rec), path, fuel)
          case Err(e) => Err(e)
          case Ok(sub) => Then(sub, WalkFrom(store, c, j, base, fuel))
        else Then([IndexEntry(rec.mode, RecordOid(rec), path)], WalkFrom(store, c, j, base, fuel))
  }

  /** Entries already collected, followed by the outcome of the rest. */
  function Then(done: seq<IndexEntry>, rest: Result<seq<IndexEntry>>): (r: Result<seq<IndexEntry>>)
    ensures r.Ok? <==> rest.Ok?
    ensures r.Ok? ==> r.value == done + rest.value
    ensures r.Err? ==> r.error == rest.error
  {
    match rest
    case Err(e) => Err(e)
    case Ok(x) => Ok(done + x)
  }

  /** `entries_from_tree`: read the object, refuse a non-tree, then run the
      cursor loop over its content. */
  method EntriesFromTree(repo: Repo, oid: string, base: string, fuel: nat) returns (r: Result<seq<IndexEntry>>)
    ensures r == Walk(repo.store, oid, base, fuel)
    decreases fuel, 0
  {
    if fuel == 0 {
      return Err(RecursionLimit);
    }
    var obj := ReadObject(repo.store, oid);
    if obj.Err? {
      return Err(obj.error);
    }
    var (kind, c) := obj.value;
    if kind != "tree" {
      return Err(NotATree);
    }
    WalkRead(repo.store, oid, c, base, fuel - 1);
    r := WalkContent(repo, c, base, fuel - 1);
  }

  /** The cursor loop of `entries_from_tree`, extending the list with each
      subtree's entries and appending each leaf. */
  method WalkContent(repo: Repo, c: string, base: string, fuel: nat) returns (r: Result<seq<IndexEntry>>)
    ensures r == WalkFrom(repo.store, c, 0, base, fuel)
    decreases fuel, 1
  {
    var entries: seq<IndexEntry> := [];
    var i := 0;
    ghost var spec := WalkFrom(repo.store, c, 0, base, fuel);
    ThenNil(spec);
    while i < |c|
      invariant 0 <= i <= |c|
      invariant spec == Then(entries, WalkFrom(repo.store, c, i, base, fuel))
      decreases |c| - i
    {
      var step := NextRecord(c, i);
      if step.Err? {
        assert WalkFrom(repo.store, c, i, base, fuel) == Err(step.error);
        return Err(step.error);
      }
      var (rec, j) := step.value;
      var path := PathJoin(base, rec.name);
      if rec.mode == "40000" {
        var sub := EntriesFromTree(repo, RecordOid(rec), path, fuel);
        WalkStepDirectory(repo.store, c, i, base, fuel, rec, j);
        if sub.Err? {
          return Err(sub.error);
        }
        ThenThen(entries, sub.value, WalkFrom(repo.store, c, j, base, fuel));
        entries := entries + sub.value;
      } else {
        WalkStepLeaf(repo.store, c, i, base, fuel, rec, j);
        ThenThen(entries, [IndexEntry(rec.mode, RecordOid(rec), path)], WalkFrom(repo.store, c, j, base, fuel));
        entries := entries + [IndexEntry(rec.mode, RecordOid(rec), path)];
      }
      i := j;
    }
    assert entries + [] == entries;
    return Ok(entries);
  }

  lemma WalkStepDirectory(store: map<string, string>, c: string, i: nat, base: string, fuel: nat, rec: Record, j: nat)
    requires i < |c| && NextRecord(c, i) == Ok((rec, j)) && rec.mode == "40000"
    ensures j <= |c| && Encodable(rec)
    ensures var sub := Walk(store, RecordOid(rec), PathJoin(base, rec.name), fuel);
      WalkFrom(store, c, i, base, fuel)
        == if sub.Err? then Err(sub.error) else Then(sub.value, WalkFrom(store, c, j, base, fuel))
  {
  }

  lemma WalkStepLeaf(store: map<string, string>, c: string, i: nat, base: string, fuel: nat, rec: Record, j: nat)
    requires i < |c| && NextRecord(c, i) == Ok((rec, j)) && rec.mode != "40000"
    ensures j <= |c| && Encodable(rec)
    ensures WalkFrom(store, c, i, base, fuel)
      == Then([IndexEntry(rec.mode, RecordOid(rec), PathJoin(base, rec.name))], WalkFrom(store, c, j, base, fuel))
  {
  }

  lemma ThenNil(r: Result<seq<IndexEntry>>)
    ensures Then([], r) == r
  {
    if r.Ok? {
      assert [] + r.value == r.value;
    }
  }

  lemma ThenThen(a: seq<IndexEntry>, b: seq<IndexEntry>, r: Result<seq<IndexEntry>>)
    ensures Then(a, Then(b, r)) == Then(a + b, r)
  {
    if r.Ok? {
      assert a + (b + r.value) == (a + b) + r.value;
    }
  }

  /** The flattened result never holds a directory entry. */
  lemma {:induction false} WalkNoDirectories(store: map<string, string>, oid: string, base: string, fuel: nat)
    requires Walk(store, oid, base, fuel).Ok?
    ensures forall e | e in Walk(store, oid, base, fuel).value :: e.mode != "40000"
    decreases fuel, 0, 0
  {
    var (_, c) := ReadObject(store, oid).value;
    WalkFromNoDirectories(store, c, 0, base, fuel - 1);
  }

  lemma {:induction false} WalkFromNoDirectories(store: map<string, string>, c: string, i: nat, base: string, fuel: nat)
    requires i <= |c| && WalkFrom(store, c, i, base, fuel).Ok?
    ensures forall e | e in WalkFrom(store, c, i, base, fuel).value :: e.mode != "40000"
    decreases fuel, 1, |c| - i
  {
    if i < |c| {
      var (rec, j) := NextRecord(c, i).value;
      WalkFromNoDirectories(store, c, j, base, fuel);
      if rec.mode == "40000" {
        WalkNoDirectories(store, RecordOid(rec), PathJoin(base, rec.name), fuel);
      }
    }
  }

  // ---------------------------------------------------------------- ls_tree

  /** One output line of `ls_tree`. */
  function LsLine(rec: Record): string
    requires Encodable(rec)
  {
    rec.mode + " " + RecordOid(rec) + " " + rec.name
  }

  /** The lines `ls_tree` prints from cursor `i`, and the error that stops it
      early, if any. */
  function LsFrom(c: string, i: nat): (seq<string>, Option<Failure>)
    requires i <= |c|
    decreases |c| - i
  {
    if i == |c| then ([], None)
    else
      match NextRecord(c, i)
      case Err(e) => ([], Some(e))
      case Ok((rec, j)) =>
        var (rest, err) := LsFrom(c, j);
        ([LsLine(rec)] + rest, err)
  }

  /** `ls_tree(oid)`: an absent object, an unreadable one or a non-tree stops
      before any line is printed. */
  function LsTreeSpec(store: map<string, string>, oid: string): (seq<string>, Option<Failure>) {
    match ReadObject(store, oid)
    case Err(e) => ([], Some(e))
    case Ok((kind, c)) => if kind != "tree" then ([], Some(NotATree)) else LsFrom(c, 0)
  }

  method LsTree(repo: Repo, oid: string) returns (out: seq<string>, err: Option<Failure>)
    ensures (out, err) == LsTreeSpec(repo.store, oid)
  {
    var obj := ReadObject(repo.store, oid);
    if obj.Err? {
      return [], Some(obj.error);
    }
    var (kind, c) := obj.value;
    if kind != "tree" {
      return [], Some(NotATree);
    }
    ghost var spec := LsFrom(c, 0);
    assert LsTreeSpec(repo.store, oid) == spec;
    assert spec.0 == [] + LsFrom(c, 0).0;
    out := [];
    var i := 0;
    while i < |c|
      invariant 0 <= i <= |c|
      invariant spec == (out + LsFrom(c, i).0, LsFrom(c, i).1)
      decreases |c| - i
    {
      var step := NextRecord(c, i);
      LsStep(c, i);
      if step.Err? {
        assert out + [] == out;
        return out, Some(step.error);
      }
      var (rec, j) := step.value;
      assert out + ([LsLine(rec)] + LsFrom(c, j).0) == (out + [LsLine(rec)]) + LsFrom(c, j).0;
      out := out + [LsLine(rec)];
      i := j;
    }
    assert out + [] == out;
    return out, None;
  }

  lemma LsStep(c: string, i: nat)
    requires i < |c|
    ensures NextRecord(c, i).Err? ==> LsFrom(c, i) == ([], Some(NextRecord(c, i).error))
    ensures NextRecord(c, i).Ok? ==> var (rec, j) := NextRecord(c, i).value;
      LsFrom(c, i) == ([LsLine(rec)] + LsFrom(c, j).0, LsFrom(c, j).1)
  {
  }

  /** Listing an encoded run of records prints one line per record, in
      stored order, and stops without error. */
  lemma {:induction false} LsFromEncoded(pre: string, rs: seq<Record>)
    requires forall k | 0 <= k < |rs| :: Encodable(rs[k])
    ensures |pre| <= |pre + EncodeRecords(rs)|
    ensures var (out, err) := LsFrom(pre + EncodeRecords(rs), |pre|);
      err.None? && |out| == |rs| && forall k | 0 <= k < |rs| :: out[k] == LsLine(rs[k])
    decreases |rs|
  {
    if rs == [] {
      assert pre + EncodeRecords(rs) == pre;
    } else {
      var c := pre + EncodeRecords(rs);
      assert c == pre + EncodeRecord(rs[0]) + EncodeRecords(rs[1..]);
      NextRecordEncoded(pre, rs[0], EncodeRecords(rs[1..]));
      LsFromEncoded(pre + EncodeRecord(rs[0]), rs[1..]);
      assert pre + EncodeRecord(rs[0]) + EncodeRecords(rs[1..]) == c;
    }
  }

  /** A record whose mode has no following space stops the listing with an
      error, after the lines before it. */
  lemma LsMissingSpace(c: string, i: nat)
    requires i < |c| && ' ' !in c[i..]
    ensures LsFrom(c, i) == ([], Some(Malformed))
  {
    assert forall k | i <= k < |c| :: c[k] == c[i..][k - i];
  }

  // ---------------------------------------------------------------- read_tree

  /** The loop of `read_tree` from cursor `i`, assigning `d[name] = (mode, oid)`. */
  function ReadTreeFrom(c: string, i: nat, d: Dict<(string, string)>): Result<Dict<(string, string)>>
    requires i <= |c|
    decreases |c| - i
  {
    if i == |c| then Ok(d)
    else
      match NextRecord(c, i)
      case Err(e) => Err(e)
      case Ok((rec, j)) => ReadTreeFrom(c, j, Put(d, rec.name, (rec.mode, RecordOid(rec))))
  }

  /** `read_tree(oid)`: the top level of a tree as name to (mode, oid); the
      object is read with the `read_object` of checkout_utils.py and must be
      a tree. */
  function ReadTreeSpec(store: map<string, string>, oid: string): Result<Dict<(string, string)>> {
    match ReadObjectLoose(store, oid)
    case Err(e) => Err(e)
    case Ok((kind, c)) => if kind != "tree" then Err(NotATree) else ReadTreeFrom(c, 0, [])
  }

  method ReadTree(repo: Repo, oid: string) returns (r: Result<Dict<(string, string)>>)
    ensures r == ReadTreeSpec(repo.store, oid)
  {
    var obj := ReadObjectLoose(repo.store, oid);
    if obj.Err? {
      return Err(obj.error);
    }
    var (kind, c) := obj.value;
    if kind != "tree" {
      return Err(NotATree);
    }
    var d: Dict<(string, string)> := [];
    var i := 0;
    while i < |c|
      invariant 0 <= i <= |c|
      invariant ReadTreeFrom(c, 0, []) == ReadTreeFrom(c, i, d)
      decreases |c| - i
    {
      var step := NextRecord(c, i);
      if step.Err? {
        return Err(step.error);
      }
      var (rec, j) := step.value;
      d := Put(d, rec.name, (rec.mode, RecordOid(rec)));
      i := j;
    }
    return Ok(d);
  }

  /** The (name, (mode, oid)) items of a run of records. */
  function RecordItems(rs: seq<Record>): (r: Dict<(string, string)>)
    requires forall k | 0 <= k < |rs| :: Encodable(rs[k])
    ensures |r| == |rs| && forall k | 0 <= k < |rs| :: r[k] == (rs[k].name, (rs[k].mode, RecordOid(rs[k])))
  {
    if rs == [] then [] else [(rs[0].name, (rs[0].mode, RecordOid(rs[0])))] + RecordItems(rs[1..])
  }

  /** Reading an encoded run of records assigns every record in order, so a
      repeated name keeps its last record. */
  lemma {:induction false} ReadTreeEncoded(pre: string, rs: seq<Record>, d: Dict<(string, string)>)
    requires forall k | 0 <= k < |rs| :: Encodable(rs[k])
    ensures |pre| <= |pre + EncodeRecords(rs)|
    ensures ReadTreeFrom(pre + EncodeRecords(rs), |pre|, d) == Ok(Update(d, RecordItems(rs)))
    decreases |rs|
  {
    if rs == [] {
      assert pre + EncodeRecords(rs) == pre;
    } else {
      var c := pre + EncodeRecords(rs);
      assert c == pre + EncodeRecord(rs[0]) + EncodeRecords(rs[1..]);
      NextRecordEncoded(pre, rs[0], EncodeRecords(rs[1..]));
      var d' := Put(d, rs[0].name, (rs[0].mode, RecordOid(rs[0])));
      ReadTreeEncoded(pre + EncodeRecord(rs[0]), rs[1..], d');
      assert pre + EncodeRecord(rs[0]) + EncodeRecords(rs[1..]) == c;
      assert RecordItems(rs)[1..] == RecordItems(rs[1..]);
    }
  }

  // ---------------------------------------------------------------- read_tree_files

  /** `os.path.join(base, name) if base else name`. */
  function FilePath(base: string, name: string): string {
    if base != "" then PathJoin(base, name) else name
  }

  /** `read_tree_files(oid, base)`: path to blob id for every record beneath
      the tree, descending into every mode that starts with "40000". */
  function TreeFiles(store: map<string, string>, oid: string, base: string, fuel: nat): Result<Dict<string>>
    decreases fuel, 0, 0
  {
    if fuel == 0 then Err(RecursionLimit)
    else
      match ReadObjectLoose(store, oid)
      case Err(e) => Err(e)
      case Ok((kind, c)) =>
        if kind != "tree" then Err(NotATree) else TreeFilesFrom(store, c, 0, base, fuel - 1, [])
  }

  /** The loop of `read_tree_files` from cursor `i` with the dictionary `files`
      so far. */
  function TreeFilesFrom(store: map<string, string>, c: string, i: nat, base: string, fuel: nat, files: Dict<string>): Result<Dict<string>>
    requires i <= |c|
    decreases fuel, 1, |c| - i
  {
    if i == |c| then Ok(files)
    else
      match NextRecord(c, i)
      case Err(e) => Err(e)
      case Ok((rec, j)) =>
        var path := FilePath(base, rec.name);
        if StartsWith(rec.mode, "40000") then
          match TreeFiles(store, RecordOid(rec), path, fuel)
          case Err(e) => Err(e)
          case Ok(sub) => TreeFilesFrom(store, c, j, base, fuel, Update(files, sub))
        else TreeFilesFrom(store, c, j, base, fuel, Put(files, path, RecordOid(rec)))
  }

  /** `read_tree_files`: read the object, refuse a non-tree, then run the
      cursor loop over its content. */
  method ReadTreeFiles(repo: Repo, oid: string, base: string, fuel: nat) returns (r: Result<Dict<string>>)
    ensures r == TreeFiles(repo.store, oid, base, fuel)
    decreases fuel, 0
  {
    if fuel == 0 {
      return Err(RecursionLimit);
    }
    var obj := ReadObjectLoose(repo.store, oid);
    if obj.Err? {
      return Err(obj.error);
    }
    var (kind, c) := obj.value;
    if kind != "tree" {
      return Err(NotATree);
    }
    r := TreeFilesContent(repo, c, base, fuel - 1);
  }

  /** The cursor loop of `read_tree_files`, merging each subtree's files
      and assigning each leaf. */
  method TreeFilesContent(repo: Repo, c: string, base: string, fuel: nat) returns (r: Result<Dict<string>>)
    ensures r == TreeFilesFrom(repo.store, c, 0, base, fuel, [])
    decreases fuel, 1
  {
    var files: Dict<string> := [];
    var i := 0;
    ghost var spec := TreeFilesFrom(repo.store, c, 0, base, fuel, files);
    while i < |c|
      invariant 0 <= i <= |c|
      invariant spec == TreeFilesFrom(repo.store, c, i, base, fuel, files)
      decreases |c| - i
    {
      var step := NextRecord(c, i);
      if step.Err? {
        return Err(step.error);
      }
      var (rec, j) := step.value;
      var path := if base != "" then PathJoin(base, rec.name) else rec.name;
      if StartsWith(rec.mode, "40000") {
        var sub := ReadTreeFiles(repo, RecordOid(rec), path, fuel);
        if sub.Err? {
          return Err(sub.error);
        }
        files := Update(files, sub.value);
      } else {
        files := Put(files, path, RecordOid(rec));
      }
      i := j;
    }
    return Ok(files);
  }

  /** The conditional join of `read_tree_files` is the plain join. */
  lemma FilePathIsJoin(base: string, name: string)
    ensures FilePath(base, name) == PathJoin(base, name)
  {
  }

  // ---------------------------------------------------------------- the walker over encoded records

  /** What the walker makes of one record at `b`. */
  function RecWalk(store: map<string, string>, rec: Record, b: string, fuel: nat): Result<seq<IndexEntry>>
    requires Encodable(rec)
  {
    if rec.mode == "40000" then Walk(store, RecordOid(rec), PathJoin(b, rec.name), fuel)
    else Ok([IndexEntry(rec.mode, RecordOid(rec), PathJoin(b, rec.name))])
  }

  /** What the walker makes of a run of records, in order. */
  function WalkRecs(store: map<string, string>, rs: seq<Record>, b: string, fuel: nat): Result<seq<IndexEntry>>
    requires forall k | 0 <= k < |rs| :: Encodable(rs[k])
  {
    if rs == [] then Ok([])
    else
      match RecWalk(store, rs[0], b, fuel)
      case Err(e) => Err(e)
      case Ok(x) => Then(x, WalkRecs(store, rs[1..], b, fuel))
  }

  /** The cursor loop over encoded records visits exactly those records. */
  lemma {:induction false} WalkFromEncoded(store: map<string, string>, pre: string, rs: seq<Record>, b: string, fuel: nat)
    requires forall k | 0 <= k < |rs| :: Encodable(rs[k])
    ensures |pre| <= |pre + EncodeRecords(rs)|
    ensures WalkFrom(store, pre + EncodeRecords(rs), |pre|, b, fuel) == WalkRecs(store, rs, b, fuel)
    decreases |rs|
  {
    var c := pre + EncodeRecords(rs);
    if rs == [] {
      assert c == pre;
    } else {
      var r := rs[0];
      var next := pre + EncodeRecord(r);
      assert c == next + EncodeRecords(rs[1..]);
      NextRecordEncoded(pre, r, EncodeRecords(rs[1..]));
      WalkFromEncoded(store, next, rs[1..], b, fuel);
      if r.mode == "40000" {
        WalkStepDirectory(store, c, |pre|, b, fuel, r, |next|);
      } else {
        WalkStepLeaf(store, c, |pre|, b, fuel, r, |next|);
      }
    }
  }

  lemma WalkFromEncodedAt(store: map<string, string>, c: string, rs: seq<Record>, b: string, fuel: nat)
    requires c == EncodeRecords(rs) && forall k | 0 <= k < |rs| :: Encodable(rs[k])
    ensures WalkFrom(store, c, 0, b, fuel) == WalkRecs(store, rs, b, fuel)
  {
    WalkFromEncoded(store, "", rs, b, fuel);
    assert "" + EncodeRecords(rs) == c;
  }

  lemma WalkRead(store: map<string, string>, oid: string, c: string, b: string, f: nat)
    requires ReadObject(store, oid) == Ok(("tree", c))
    ensures Walk(store, oid, b, f + 1) == WalkFrom(store, c, 0, b, f)
  {
  }
}
