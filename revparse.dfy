/** `rev_parse` (git_scratch/commands/rev_parse.py): a full id, an
    abbreviated id, a branch or tag, HEAD, then packed-refs, in that order.
    The objects directory is seen through `listing`, the ids of its object
    files in the order the directory walk meets them. */
module RevParse {
  import opened Common
  import opened Text
  import opened Repository

  /** `HEX_RE.fullmatch(s)`: one or more hexadecimal digits, either case. */
  predicate HexRe(s: string) {
    |s| > 0 && AllHex(s)
  }

  // ---------------------------------------------------------------- abbreviated ids

  /** The listed ids that start with `p`, in listing order. */
  function PrefixMatches(listing: seq<string>, p: string): (r: seq<string>)
    ensures forall m | m in r :: m in listing && StartsWith(m, p)
    ensures forall m | m in listing && StartsWith(m, p) :: m in r
    ensures |r| <= |listing|
  {
    if listing == [] then []
    else (if StartsWith(listing[0], p) then [listing[0]] else []) + PrefixMatches(listing[1..], p)
  }

  /** The loop collecting `matches`. */
  method CollectMatches(listing: seq<string>, p: string) returns (matches: seq<string>)
    ensures matches == PrefixMatches(listing, p)
  {
    matches := [];
    var i := 0;
    while i < |listing|
      invariant 0 <= i <= |listing|
      invariant matches + PrefixMatches(listing[i..], p) == PrefixMatches(listing, p)
    {
      ghost var rest := listing[i..];
      ghost var later := PrefixMatches(listing[i + 1..], p);
      assert rest[0] == listing[i] && rest[1..] == listing[i + 1..];
      if StartsWith(listing[i], p) {
        assert PrefixMatches(rest, p) == [listing[i]] + later;
        assert (matches + [listing[i]]) + later == matches + ([listing[i]] + later);
        matches := matches + [listing[i]];
      } else {
        assert PrefixMatches(rest, p) == [] + later;
      }
      i := i + 1;
    }
    assert listing[i..] == [];
  }

  // ---------------------------------------------------------------- packed-refs

  /** The loop over packed-refs lines: blank lines and lines starting with
      `#` or `^` are skipped; a line without a space cannot be unpacked and
      fails; the first line naming `refs/heads/<ref>` or `refs/tags/<ref>`
      gives its id, lower-cased. */
  function PackedFrom(lines: seq<string>, ref: string): Result<Option<string>> {
    if lines == [] then Ok(None)
    else
      var line := Strip(lines[0]);
      if line == "" || StartsWith(line, "#") || StartsWith(line, "^") then PackedFrom(lines[1..], ref)
      else
        var parts := SplitOnce(line, ' ');
        if |parts| != 2 then Err(Malformed)
        else if parts[1] == "refs/heads/" + ref || parts[1] == "refs/tags/" + ref then Ok(Some(Lower(parts[0])))
        else PackedFrom(lines[1..], ref)
  }

  method ScanPacked(text: string, ref: string) returns (r: Result<Option<string>>)
    ensures r == PackedFrom(FileLines(text), ref)
  {
    var lines := FileLines(text);
    var i := 0;
    while i < |lines|
      invariant 0 <= i <= |lines|
      invariant PackedFrom(lines[i..], ref) == PackedFrom(lines, ref)
    {
      var rest := lines[i..];
      assert rest[0] == lines[i] && rest[1..] == lines[i + 1..];
      var line := Strip(lines[i]);
      if !(line == "" || StartsWith(line, "#") || StartsWith(line, "^")) {
        var parts := SplitOnce(line, ' ');
        if |parts| != 2 {
          return Err(Malformed);
        }
        var sha, refname := parts[0], parts[1];
        if refname == "refs/heads/" + ref || refname == "refs/tags/" + ref {
          return Ok(Some(Lower(sha)));
        }
      }
      i := i + 1;
    }
    return Ok(None);
  }

  // ---------------------------------------------------------------- the cascade

  /** A ref file that resolves: present, with non-empty stripped text. */
  predicate Resolves(refs: map<string, string>, name: string) {
    name in refs && Strip(refs[name]) != ""
  }

  /** HEAD's answer, once `ref` is "HEAD" in any case: a symbolic HEAD
      (`ref:` then the target, stripped) gives its target's stripped text;
      a detached HEAD must be 40 hexadecimal digits; anything else, and a
      missing HEAD, is an error. */
  function HeadRevision(head: Option<string>, refs: map<string, string>): Result<string> {
    if head.None? then Err(HeadInvalid)
    else
      var content := Strip(head.value);
      if StartsWith(content, "ref:") then
        var target := Strip(if |content| >= 5 then content[5..] else "");
        if target in refs then Ok(Lower(Strip(refs[target]))) else Err(HeadInvalid)
      else if |content| == 40 && HexRe(content) then Ok(Lower(content))
      else Err(HeadInvalid)
  }

  /** What `rev_parse(ref)` prints, or why it fails. */
  function RevParseSpec(store: map<string, string>, listing: seq<string>, refs: map<string, string>,
                        head: Option<string>, packed: Option<string>, ref: string): Result<string>
  {
    if |ref| == 40 && HexRe(ref) then
      if ref in store then Ok(Lower(ref)) else Err(UnknownRevision)
    else if 4 <= |ref| < 40 && HexRe(ref) then
      var matches := PrefixMatches(listing, Lower(ref));
      if |matches| == 1 then Ok(matches[0])
      else if |matches| > 1 then Err(AmbiguousRevision)
      else Err(UnknownRevision)
    else if Resolves(refs, "refs/heads/" + ref) then Ok(Lower(Strip(refs["refs/heads/" + ref])))
    else if Resolves(refs, "refs/tags/" + ref) then Ok(Lower(Strip(refs["refs/tags/" + ref])))
    else if Upper(ref) == "HEAD" then HeadRevision(head, refs)
    else
      match (if packed.Some? then PackedFrom(FileLines(packed.value), ref) else Ok(None))
      case Err(e) => Err(e)
      case Ok(found) => if found.Some? then Ok(found.value) else Err(UnknownRevision)
  }

  /** `rev_parse(ref)`. */
  method RevParse(repo: Repo, listing: seq<string>, ref: string) returns (r: Result<string>)
    ensures r == RevParseSpec(repo.store, listing, repo.refs, repo.head, repo.packed, ref)
  {
    if |ref| == 40 && HexRe(ref) {
      if ref in repo.store {
        return Ok(Lower(ref));
      }
      return Err(UnknownRevision);
    }
    if 4 <= |ref| < 40 && HexRe(ref) {
      var matches := CollectMatches(listing, Lower(ref));
      if |matches| == 1 {
        return Ok(matches[0]);
      }
      if |matches| > 1 {
        return Err(AmbiguousRevision);
      }
      return Err(UnknownRevision);
    }
    var subdirs := ["refs/heads", "refs/tags"];
    var s := 0;
    while s < 2
      invariant 0 <= s <= 2
      invariant s >= 1 ==> !Resolves(repo.refs, "refs/heads/" + ref)
      invariant s >= 2 ==> !Resolves(repo.refs, "refs/tags/" + ref)
    {
      var path := subdirs[s] + "/" + ref;
      assert s == 0 ==> path == "refs/heads/" + ref;
      assert s == 1 ==> path == "refs/tags/" + ref;
      if path in repo.refs {
        var sha := Strip(repo.refs[path]);
        if sha != "" {
          return Ok(Lower(sha));
        }
      }
      s := s + 1;
    }
    if Upper(ref) == "HEAD" {
      return HeadRevision(repo.head, repo.refs);
    }
    if repo.packed.Some? {
      var found := ScanPacked(repo.packed.value, ref);
      if found.Err? {
        return Err(found.error);
      }
      if found.value.Some? {
        return Ok(found.value.value);
      }
    }
    return Err(UnknownRevision);
  }

  // ---------------------------------------------------------------- properties

  /** The listing names every stored object once. */
  predicate Lists(listing: seq<string>, store: map<string, string>) {
    (forall k | k in listing :: k in store)
    && (forall k | k in store :: k in listing)
    && Distinct(listing)
  }

  /** The stored ids that start with `p`. */
  function StoredWithPrefix(store: map<string, string>, p: string): set<string> {
    set k | k in store && StartsWith(k, p)
  }

  /** A full id resolves, lower-cased, exactly when its object file exists. */
  lemma FullId(store: map<string, string>, listing: seq<string>, refs: map<string, string>,
               head: Option<string>, packed: Option<string>, ref: string)
    requires |ref| == 40 && HexRe(ref)
    ensures var r := RevParseSpec(store, listing, refs, head, packed, ref);
      (r == Ok(Lower(ref)) <==> ref in store) && (r.Err? ==> r.error == UnknownRevision)
  {
  }

  /** An abbreviated id resolves to the one stored id it begins, is
      ambiguous when it begins two or more, and unknown when it begins none. */
  lemma AbbreviatedId(store: map<string, string>, listing: seq<string>, refs: map<string, string>,
                      head: Option<string>, packed: Option<string>, ref: string)
    requires 4 <= |ref| < 40 && HexRe(ref) && Lists(listing, store)
    ensures var r := RevParseSpec(store, listing, refs, head, packed, ref);
      var found := StoredWithPrefix(store, Lower(ref));
      && (r.Ok? <==> |found| == 1)
      && (r.Ok? ==> found == {r.value})
      && (r == Err(AmbiguousRevision) <==> |found| >= 2)
      && (r == Err(UnknownRevision) <==> |found| == 0)
  {
    var ms := PrefixMatches(listing, Lower(ref));
    assert RevParseSpec(store, listing, refs, head, packed, ref)
      == if |ms| == 1 then Ok(ms[0]) else if |ms| > 1 then Err(AmbiguousRevision) else Err(UnknownRevision);
    MatchesAreFound(store, listing, Lower(ref));
    if |ms| == 1 {
      assert (set m | m in ms) == {ms[0]};
    }
  }

  /** The collected matches are the stored ids with the prefix, each once. */
  lemma MatchesAreFound(store: map<string, string>, listing: seq<string>, p: string)
    requires Lists(listing, store)
    ensures var ms := PrefixMatches(listing, p);
      (set m | m in ms) == StoredWithPrefix(store, p) && |StoredWithPrefix(store, p)| == |ms|
  {
    var ms := PrefixMatches(listing, p);
    MatchesDistinct(listing, p);
    DistinctCard(ms);
  }

  /** No element occurs twice. */
  predicate Distinct(s: seq<string>) {
    forall i, j | 0 <= i < j < |s| :: s[i] != s[j]
  }

  lemma DistinctTail(s: seq<string>)
    requires s != [] && Distinct(s)
    ensures Distinct(s[1..]) && s[0] !in s[1..]
  {
    var rest := s[1..];
    forall i, j | 0 <= i < j < |rest| ensures rest[i] != rest[j] {
      assert rest[i] == s[i + 1] && rest[j] == s[j + 1];
    }
    forall k | 0 <= k < |rest| ensures rest[k] != s[0] {
      assert rest[k] == s[k + 1];
    }
  }

  /** `PrefixMatches` keeps the listing's ids apart. */
  lemma {:induction false} MatchesDistinct(listing: seq<string>, p: string)
    requires Distinct(listing)
    ensures Distinct(PrefixMatches(listing, p))
    decreases |listing|
  {
    if listing != [] {
      DistinctTail(listing);
      MatchesDistinct(listing[1..], p);
      var tail := PrefixMatches(listing[1..], p);
      if StartsWith(listing[0], p) {
        var ms := [listing[0]] + tail;
        assert listing[0] !in tail;
        forall i, j | 0 <= i < j < |ms| ensures ms[i] != ms[j] {
          assert ms[j] == tail[j - 1];
          if i > 0 {
            assert ms[i] == tail[i - 1];
          }
        }
      } else {
        assert PrefixMatches(listing, p) == tail;
      }
    }
  }

  /** A sequence without repeats has as many members as elements. */
  lemma {:induction false} DistinctCard(ms: seq<string>)
    requires Distinct(ms)
    ensures |set m | m in ms| == |ms|
    decreases |ms|
  {
    if ms != [] {
      DistinctTail(ms);
      DistinctCard(ms[1..]);
      assert (set m | m in ms) == (set m | m in ms[1..]) + {ms[0]};
    }
  }

  /** Hexadecimal input of four or more digits never reaches the branches,
      tags, HEAD or packed-refs. */
  lemma HexIgnoresRefs(store: map<string, string>, listing: seq<string>,
                       refs1: map<string, string>, head1: Option<string>, packed1: Option<string>,
                       refs2: map<string, string>, head2: Option<string>, packed2: Option<string>, ref: string)
    requires 4 <= |ref| <= 40 && HexRe(ref)
    ensures RevParseSpec(store, listing, refs1, head1, packed1, ref) == RevParseSpec(store, listing, refs2, head2, packed2, ref)
  {
  }

  /** A branch is tried before a tag of the same name, and a loose ref before
      packed-refs and HEAD. */
  lemma LooseFirst(store: map<string, string>, listing: seq<string>, refs: map<string, string>,
                   head: Option<string>, packed: Option<string>, ref: string)
    requires !(4 <= |ref| <= 40 && HexRe(ref))
    ensures Resolves(refs, "refs/heads/" + ref) ==>
      RevParseSpec(store, listing, refs, head, packed, ref) == Ok(Lower(Strip(refs["refs/heads/" + ref])))
    ensures !Resolves(refs, "refs/heads/" + ref) && Resolves(refs, "refs/tags/" + ref) ==>
      RevParseSpec(store, listing, refs, head, packed, ref) == Ok(Lower(Strip(refs["refs/tags/" + ref])))
  {
  }

  /** Where no loose ref resolves, "HEAD" in any case is answered by HEAD
      alone, and any other name by packed-refs alone. */
  lemma AfterLoose(store: map<string, string>, listing: seq<string>, refs: map<string, string>,
                   head: Option<string>, packed: Option<string>, ref: string)
    requires !(4 <= |ref| <= 40 && HexRe(ref))
    requires !Resolves(refs, "refs/heads/" + ref) && !Resolves(refs, "refs/tags/" + ref)
    ensures Upper(ref) == "HEAD" ==> RevParseSpec(store, listing, refs, head, packed, ref) == HeadRevision(head, refs)
    ensures Upper(ref) != "HEAD" && packed.None? ==> RevParseSpec(store, listing, refs, head, packed, ref) == Err(UnknownRevision)
    ensures Upper(ref) != "HEAD" && packed.Some? ==>
      var p := PackedFrom(FileLines(packed.value), ref);
      RevParseSpec(store, listing, refs, head, packed, ref)
        == if p.Err? then Err(p.error) else if p.value.Some? then Ok(p.value.value) else Err(UnknownRevision)
  {
  }

  /** Skipped packed lines do not count, and the first line that names the
      ref decides. */
  lemma {:induction false} PackedFirstWins(pre: seq<string>, line: string, post: seq<string>, ref: string, sha: string)
    requires forall k | 0 <= k < |pre| :: var l := Strip(pre[k]);
      l == "" || StartsWith(l, "#") || StartsWith(l, "^")
      || (|SplitOnce(l, ' ')| == 2 && SplitOnce(l, ' ')[1] != "refs/heads/" + ref && SplitOnce(l, ' ')[1] != "refs/tags/" + ref)
    requires var l := Strip(line);
      (l != "" && !StartsWith(l, "#") && !StartsWith(l, "^") && SplitOnce(l, ' ') == [sha, "refs/heads/" + ref])
    ensures PackedFrom(pre + [line] + post, ref) == Ok(Some(Lower(sha)))
    decreases |pre|
  {
    if pre == [] {
      assert ([] + [line] + post)[0] == line;
    } else {
      assert (pre + [line] + post)[1..] == pre[1..] + [line] + post;
      assert (pre + [line] + post)[0] == pre[0];
      PackedFirstWins(pre[1..], line, post, ref, sha);
    }
  }

  /** A symbolic HEAD answers with its target's text, and a detached one
      with its id lower-cased. */
  lemma HeadAnswers(refs: map<string, string>, target: string, id: string)
    requires target != [] && !IsStrSpace(target[0]) && !IsStrSpace(target[|target| - 1]) && target in refs
    requires |id| == 40 && HexRe(id)
    ensures HeadRevision(Some("ref: " + target + "\n"), refs) == Ok(Lower(Strip(refs[target])))
    ensures HeadRevision(Some(id + "\n"), refs) == Ok(Lower(id))
  {
    SymbolicHeadAnswers(refs, target);
    DetachedHeadAnswers(refs, id);
  }

  lemma SymbolicHeadAnswers(refs: map<string, string>, target: string)
    requires target != [] && !IsStrSpace(target[0]) && !IsStrSpace(target[|target| - 1]) && target in refs
    ensures HeadRevision(Some("ref: " + target + "\n"), refs) == Ok(Lower(Strip(refs[target])))
  {
    var c := "ref: " + target;
    StripPlainText(c);
    assert Strip(c + "\n") == c;
    assert StartsWith(c, "ref:") by {
      assert c[..4] == "ref:";
    }
    assert c[5..] == target;
    StripPlainText(target);
  }

  lemma DetachedHeadAnswers(refs: map<string, string>, id: string)
    requires |id| == 40 && HexRe(id)
    ensures HeadRevision(Some(id + "\n"), refs) == Ok(Lower(id))
  {
    HexPlain(id);
    StripPlainText(id);
    assert Strip(id + "\n") == id;
  }

  lemma HexPlain(id: string)
    requires HexRe(id)
    ensures !IsStrSpace(id[0]) && !IsStrSpace(id[|id| - 1]) && !StartsWith(id, "ref:")
  {
    assert IsHexChar(id[0]) && IsHexChar(id[|id| - 1]);
  }
}
