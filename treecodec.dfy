/** The binary layout of a tree object: a run of records
    `"<mode> <name>\0"` followed by the 20 raw bytes of the entry's id, and
    the cursor step every tree reader in the repository performs. */
module TreeCodec {
  import opened Common
  import opened Text

  /** One tree record; `raw` is the 20-byte binary id. */
  datatype Record = Record(mode: string, name: string, raw: string)

  /** A record that reads back: no space in the mode, no NUL in the name,
      and exactly 20 id bytes. */
  predicate Encodable(r: Record) {
    ' ' !in r.mode && '\0' !in r.name && |r.raw| == 20
  }

  function EncodeRecord(r: Record): string {
    r.mode + " " + r.name + "\0" + r.raw
  }

  /** The tree content for a run of records, concatenated in order. */
  function EncodeRecords(rs: seq<Record>): string {
    if rs == [] then "" else EncodeRecord(rs[0]) + EncodeRecords(rs[1..])
  }

  /** One step of the cursor loop at position `i`: the mode runs to the next
      space, the name from there to the next NUL, then 20 id bytes; the
      cursor moves past them. A missing space or NUL, or fewer than 20 id
      bytes left, is malformed content. */
  function NextRecord(c: string, i: nat): (r: Result<(Record, nat)>)
    requires i < |c|
    ensures r.Ok? ==> i < r.value.1 <= |c| && Encodable(r.value.0)
  {
    var m := Find(c, ' ', i);
    if m < 0 then Err(Malformed)
    else
      var n := Find(c, '\0', m);
      if n < 0 || n + 21 > |c| then Err(Malformed)
      else Ok((Record(c[i..m], c[m + 1..n], c[n + 1..n + 21]), n + 21))
  }

  /** The step consumes exactly the encoding of the record it returns. */
  lemma NextRecordSpan(c: string, i: nat)
    requires i < |c| && NextRecord(c, i).Ok?
    ensures var (rec, j) := NextRecord(c, i).value;
      c[i..j] == EncodeRecord(rec)
  {
    var m := Find(c, ' ', i);
    var n := Find(c, '\0', m);
    assert c[i..n + 21] == c[i..m] + " " + c[m + 1..n] + "\0" + c[n + 1..n + 21];
  }

  /** Appending a record appends its encoding. */
  lemma {:induction false} EncodeRecordsSnoc(rs: seq<Record>, r: Record)
    ensures EncodeRecords(rs + [r]) == EncodeRecords(rs) + EncodeRecord(r)
    decreases |rs|
  {
    if rs == [] {
      assert [] + [r] == [r];
    } else {
      EncodeRecordsSnoc(rs[1..], r);
      assert (rs + [r])[1..] == rs[1..] + [r];
    }
  }

  /** All records from position `i` to the end of the content. */
  function ParseFrom(c: string, i: nat): Result<seq<Record>>
    requires i <= |c|
    decreases |c| - i
  {
    if i == |c| then Ok([])
    else
      match NextRecord(c, i)
      case Err(e) => Err(e)
      case Ok((rec, j)) =>
        match ParseFrom(c, j)
        case Err(e) => Err(e)
        case Ok(rest) => Ok([rec] + rest)
  }

  function ParseRecords(c: string): Result<seq<Record>> {
    ParseFrom(c, 0)
  }

  // ---------------------------------------------------------------- lemmas

  /** The cursor step reads back one encoded record, whatever precedes it
      and whatever follows. */
  lemma NextRecordEncoded(pre: string, r: Record, rest: string)
    requires Encodable(r)
    ensures var c := pre + EncodeRecord(r) + rest;
      |pre| < |c| && NextRecord(c, |pre|) == Ok((r, |pre| + |EncodeRecord(r)|))
  {
    EncodedFields(pre, r, rest);
    EncodedFinds(pre, r, rest);
  }

  /** Where the fields of an encoded record sit. */
  lemma EncodedFields(pre: string, r: Record, rest: string)
    ensures var c, i := pre + EncodeRecord(r) + rest, |pre|;
      var m := i + |r.mode|;
      var n := m + 1 + |r.name|;
      && n + |r.raw| + 1 <= |c| && |EncodeRecord(r)| == n + 1 + |r.raw| - i
      && c[i..m] == r.mode && c[m] == ' ' && c[m + 1..n] == r.name && c[n] == '\0'
      && c[n + 1..n + 1 + |r.raw|] == r.raw
  {
    var c := pre + EncodeRecord(r) + rest;
    assert c == pre + r.mode + " " + r.name + "\0" + r.raw + rest;
  }

  /** The two searches of the step stop at the separators of the record. */
  lemma EncodedFinds(pre: string, r: Record, rest: string)
    requires Encodable(r)
    ensures var c, i := pre + EncodeRecord(r) + rest, |pre|;
      var m := i + |r.mode|;
      Find(c, ' ', i) == m && Find(c, '\0', m) == m + 1 + |r.name|
  {
    EncodedFields(pre, r, rest);
    var c, i := pre + EncodeRecord(r) + rest, |pre|;
    var m := i + |r.mode|;
    var n := m + 1 + |r.name|;
    forall k | i <= k < m ensures c[k] != ' ' {
      assert c[k] == c[i..m][k - i];
    }
    FindFirst(c, ' ', i, m);
    forall k | m <= k < n ensures c[k] != '\0' {
      if k > m { assert c[k] == c[m + 1..n][k - m - 1]; }
    }
    FindFirst(c, '\0', m, n);
  }

  /** Parsing an encoded run of records gives back exactly those records. */
  lemma {:induction false} ParseFromEncoded(pre: string, rs: seq<Record>)
    requires forall k | 0 <= k < |rs| :: Encodable(rs[k])
    ensures |pre| <= |pre + EncodeRecords(rs)|
    ensures ParseFrom(pre + EncodeRecords(rs), |pre|) == Ok(rs)
    decreases |rs|
  {
    var c := pre + EncodeRecords(rs);
    if rs == [] {
      assert c == pre;
    } else {
      var r := rs[0];
      assert c == pre + EncodeRecord(r) + EncodeRecords(rs[1..]);
      NextRecordEncoded(pre, r, EncodeRecords(rs[1..]));
      ParseFromEncoded(pre + EncodeRecord(r), rs[1..]);
      assert pre + EncodeRecord(r) + EncodeRecords(rs[1..]) == c;
      assert [r] + rs[1..] == rs;
    }
  }

  lemma ParseEncoded(rs: seq<Record>)
    requires forall k | 0 <= k < |rs| :: Encodable(rs[k])
    ensures ParseRecords(EncodeRecords(rs)) == Ok(rs)
  {
    ParseFromEncoded("", rs);
    assert "" + EncodeRecords(rs) == EncodeRecords(rs);
  }

  /** Conversely, content that parses is exactly the encoding of what it
      parses to, so the parser accepts nothing else. */
  lemma {:induction false} ParsedIsEncoded(c: string, i: nat)
    requires i <= |c| && ParseFrom(c, i).Ok?
    ensures c[i..] == EncodeRecords(ParseFrom(c, i).value)
    decreases |c| - i
  {
    if i < |c| {
      var (rec, j) := NextRecord(c, i).value;
      NextRecordSpan(c, i);
      ParsedIsEncoded(c, j);
      var rs := ParseFrom(c, i).value;
      assert rs == [rec] + ParseFrom(c, j).value;
      assert rs[1..] == ParseFrom(c, j).value;
      assert c[i..] == c[i..j] + c[j..];
    }
  }
}
