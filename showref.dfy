/** `show_ref` (git_scratch/commands/show_ref.py): every loose ref file, in
    the order the directory walk meets them (the parameter `names`), as
    `"<stripped text> <name>"`, then every entry line of packed-refs. A
    packed line with a space whose stripped text does not split into exactly
    two fields raises, and the listing stops there, after what it has
    already printed. */
module ShowRef {
  import opened Common
  import opened Text
  import opened Repository

  /** What the command printed, and the failure that stopped it, if any. */
  datatype ShowOutcome = ShowOutcome(lines: seq<string>, stop: Option<Failure>)

  function RefLine(oid: string, name: string): string {
    oid + " " + name
  }

  /** Every ref file is listed. */
  predicate Covered(refs: map<string, string>, names: seq<string>) {
    forall n | n in refs :: exists k | 0 <= k < |names| :: names[k] == n
  }

  /** Every listed name is a ref file. */
  predicate Listed(refs: map<string, string>, names: seq<string>) {
    forall i | 0 <= i < |names| :: names[i] in refs
  }

  /** The stripped text of every ref file. */
  function StrippedRefs(refs: map<string, string>): (texts: map<string, string>)
    ensures texts.Keys == refs.Keys
  {
    map n | n in refs :: Strip(refs[n])
  }

  /** One line per listed ref file, in the order of the walk, from the
      ref files' stripped texts. */
  function LooseLines(texts: map<string, string>, names: seq<string>): (r: seq<string>)
    requires Listed(texts, names)
    ensures |r| == |names|
    decreases |names|
  {
    if names == [] then []
    else
      var init, last := names[..|names| - 1], names[|names| - 1];
      assert forall i | 0 <= i < |init| :: init[i] == names[i];
      LooseLines(texts, init) + [RefLine(texts[last], last)]
  }

  /** A packed-refs line that prints nothing: a comment, a blank line, or a
      line without a space. */
  predicate Skipped(line: string) {
    StartsWith(line, "#") || Strip(line) == "" || ' ' !in line
  }

  /** What one packed-refs line prints: nothing when it is skipped, the id
      and the name of a line that splits into two fields, and a failure for
      any other line with a space. */
  function Shown(line: string): Result<Option<string>> {
    if Skipped(line) then Ok(None)
    else
      var parts := Split(Strip(line), ' ');
      if |parts| != 2 then Err(Malformed) else Ok(Some(RefLine(parts[0], parts[1])))
  }

  /** The packed-refs loop over the file's lines. */
  function PackedShow(lines: seq<string>): ShowOutcome {
    if lines == [] then ShowOutcome([], None)
    else
      match Shown(lines[0])
      case Err(e) => ShowOutcome([], Some(e))
      case Ok(None) => PackedShow(lines[1..])
      case Ok(Some(l)) => Then([l], PackedShow(lines[1..]))
  }

  /** The whole listing: an error exit when `.git/refs` is missing. */
  function ShowRefSpec(refsDir: bool, refs: map<string, string>, names: seq<string>, packed: Option<string>): ShowOutcome
    requires Listed(refs, names)
  {
    if !refsDir then ShowOutcome([], Some(NoRefsDir))
    else
      var p := if packed.Some? then PackedShow(FileLines(packed.value)) else ShowOutcome([], None);
      ShowOutcome(LooseLines(StrippedRefs(refs), names) + p.lines, p.stop)
  }

  /** `show_ref()`. The walk lists ref files that exist. */
  method ShowRefCommand(repo: Repo, names: seq<string>) returns (out: ShowOutcome)
    requires Listed(repo.refs, names)
    ensures out == ShowRefSpec(repo.refsDir, repo.refs, names, repo.packed)
  {
    if !repo.refsDir {
      return ShowOutcome([], Some(NoRefsDir));
    }
    var printed := [];
    var i := 0;
    while i < |names|
      invariant 0 <= i <= |names|
      invariant printed == LooseLines(StrippedRefs(repo.refs), names[..i])
    {
      var oid := Strip(repo.refs[names[i]]);
      LooseStep(StrippedRefs(repo.refs), names, i);
      printed := printed + [RefLine(oid, names[i])];
      i := i + 1;
    }
    assert names[..i] == names;
    if repo.packed.Some? {
      var stop := ScanPacked(repo.packed.value);
      out := ShowOutcome(printed + stop.lines, stop.stop);
      assert out == ShowRefSpec(repo.refsDir, repo.refs, names, repo.packed);
      return;
    }
    out := ShowOutcome(printed, None);
    assert printed + [] == printed;
  }

  /** One more ref file of the walk, one more line. */
  lemma LooseStep(texts: map<string, string>, names: seq<string>, i: nat)
    requires Listed(texts, names) && i < |names|
    ensures Listed(texts, names[..i]) && Listed(texts, names[..i + 1])
    ensures LooseLines(texts, names[..i + 1]) == LooseLines(texts, names[..i]) + [RefLine(texts[names[i]], names[i])]
  {
    var after := names[..i + 1];
    assert forall k | 0 <= k < |after| :: after[k] == names[k];
    assert after[..i] == names[..i];
  }

  /** The packed-refs loop. */
  method ScanPacked(text: string) returns (out: ShowOutcome)
    ensures out == PackedShow(FileLines(text))
  {
    var lines := FileLines(text);
    var printed := [];
    var i := 0;
    while i < |lines|
      invariant 0 <= i <= |lines|
      invariant Then(printed, PackedShow(lines[i..])) == PackedShow(lines)
    {
      var rest := lines[i..];
      assert rest[0] == lines[i] && rest[1..] == lines[i + 1..];
      var shown := Shown(lines[i]);
      if shown.Err? {
        return ShowOutcome(printed, Some(shown.error));
      }
      if shown.value.Some? {
        ghost var later := PackedShow(lines[i + 1..]);
        assert (printed + [shown.value.value]) + later.lines == printed + ([shown.value.value] + later.lines);
        printed := printed + [shown.value.value];
      }
      i := i + 1;
    }
    assert lines[i..] == [];
    return ShowOutcome(printed, None);
  }

  /** Lines already printed, then what follows. */
  function Then(printed: seq<string>, later: ShowOutcome): ShowOutcome {
    ShowOutcome(printed + later.lines, later.stop)
  }

  // ---------------------------------------------------------------- properties

  /** Every loose ref is printed, with its stripped text, before anything
      from packed-refs. */
  lemma LooseShownFirst(refsDir: bool, refs: map<string, string>, names: seq<string>, packed: Option<string>)
    requires refsDir
    requires Covered(refs, names)
    requires Listed(refs, names)
    ensures var out := ShowRefSpec(refsDir, refs, names, packed);
      && |out.lines| >= |names|
      && (forall k | 0 <= k < |names| :: out.lines[k] == RefLine(Strip(refs[names[k]]), names[k]))
      && (forall n | n in refs :: RefLine(Strip(refs[n]), n) in out.lines[..|names|])
  {
    var p := if packed.Some? then PackedShow(FileLines(packed.value)) else ShowOutcome([], None);
    var texts := StrippedRefs(refs);
    assert ShowRefSpec(refsDir, refs, names, packed).lines == LooseLines(texts, names) + p.lines;
    LooseThen(texts, names, p.lines);
  }

  /** The loose lines, whatever follows them. */
  lemma LooseThen(texts: map<string, string>, names: seq<string>, later: seq<string>)
    requires Covered(texts, names)
    requires Listed(texts, names)
    ensures var lines := LooseLines(texts, names) + later;
      && |lines| >= |names|
      && (forall k | 0 <= k < |names| :: lines[k] == RefLine(texts[names[k]], names[k]))
      && (forall n | n in texts :: RefLine(texts[n], n) in lines[..|names|])
  {
    var loose := LooseLines(texts, names);
    PrefixKept(loose, later);
    LooseLinesAt(texts, names);
    LooseLinesCover(texts, names);
  }

  /** What is printed first stays in front. */
  lemma PrefixKept(first: seq<string>, later: seq<string>)
    ensures (first + later)[..|first|] == first
    ensures forall k | 0 <= k < |first| :: (first + later)[k] == first[k]
  {
  }

  /** Each listed ref's line, in the order of the walk. */
  lemma {:induction false} LooseLinesAt(texts: map<string, string>, names: seq<string>)
    requires Listed(texts, names)
    ensures forall k | 0 <= k < |names| :: LooseLines(texts, names)[k] == RefLine(texts[names[k]], names[k])
    decreases |names|
  {
    if names != [] {
      var init := names[..|names| - 1];
      assert forall i | 0 <= i < |init| :: init[i] == names[i];
      LooseLinesAt(texts, init);
    }
  }

  /** Every ref file has a line. */
  lemma LooseLinesCover(texts: map<string, string>, names: seq<string>)
    requires Covered(texts, names)
    requires Listed(texts, names)
    ensures forall n | n in texts :: RefLine(texts[n], n) in LooseLines(texts, names)
  {
    var loose := LooseLines(texts, names);
    LooseLinesAt(texts, names);
    forall n | n in texts ensures RefLine(texts[n], n) in loose {
      var k :| 0 <= k < |names| && names[k] == n;
      assert loose[k] == RefLine(texts[n], n);
    }
  }

  /** Without `.git/refs` nothing is printed. */
  lemma NoRefsNothingShown(refs: map<string, string>, names: seq<string>, packed: Option<string>)
    requires Listed(refs, names)
    ensures ShowRefSpec(false, refs, names, packed) == ShowOutcome([], Some(NoRefsDir))
  {
  }

  /** One packed-refs entry line: an id and a ref name, neither empty nor
      holding whitespace, the id not starting with `#`. */
  predicate PlainEntry(e: (string, string)) {
    e.0 != "" && e.1 != "" && e.0[0] != '#'
    && (forall k | 0 <= k < |e.0| :: !IsStrSpace(e.0[k]))
    && (forall k | 0 <= k < |e.1| :: !IsStrSpace(e.1[k]))
  }

  /** The packed-refs file holding the entries, one per line. */
  function PackedText(entries: seq<(string, string)>): string {
    if entries == [] then "" else RefLine(entries[0].0, entries[0].1) + "\n" + PackedText(entries[1..])
  }

  /** The lines `show_ref` prints for packed entries, one per entry. */
  function EntryLines(entries: seq<(string, string)>): (r: seq<string>)
    ensures |r| == |entries|
    ensures forall i | 0 <= i < |entries| :: r[i] == RefLine(entries[i].0, entries[i].1)
  {
    if entries == [] then [] else [RefLine(entries[0].0, entries[0].1)] + EntryLines(entries[1..])
  }

  /** A packed-refs file of plain entry lines, after a comment header, is
      printed back entry by entry and does not fail. */
  lemma {:induction false} PackedRoundTrip(header: string, entries: seq<(string, string)>)
    requires '\n' !in header
    requires forall i | 0 <= i < |entries| :: PlainEntry(entries[i])
    ensures var out := PackedShow(FileLines("#" + header + "\n" + PackedText(entries)));
      out == ShowOutcome(EntryLines(entries), None)
  {
    var c := "#" + header;
    FileLinesCons(c, PackedText(entries));
    var lines := FileLines(c + "\n" + PackedText(entries));
    assert StartsWith(lines[0], "#");
    assert lines[1..] == FileLines(PackedText(entries));
    PackedEntries(entries);
  }

  lemma {:induction false} PackedEntries(entries: seq<(string, string)>)
    requires forall i | 0 <= i < |entries| :: PlainEntry(entries[i])
    ensures PackedShow(FileLines(PackedText(entries))) == ShowOutcome(EntryLines(entries), None)
    decreases |entries|
  {
    if entries != [] {
      PackedStep(entries);
      assert forall i | 0 <= i < |entries[1..]| :: entries[1..][i] == entries[i + 1];
      PackedEntries(entries[1..]);
    }
  }

  /** The first entry's line, then the rest of the entries. */
  lemma PackedStep(entries: seq<(string, string)>)
    requires entries != [] && PlainEntry(entries[0])
    ensures PackedShow(FileLines(PackedText(entries)))
      == Then([RefLine(entries[0].0, entries[0].1)], PackedShow(FileLines(PackedText(entries[1..]))))
  {
    var e := entries[0];
    var line := RefLine(e.0, e.1);
    PlainLine(e);
    assert PackedText(entries) == line + "\n" + PackedText(entries[1..]);
    PackedCons(line, PackedText(entries[1..]));
  }

  /** A printed entry line, then the rest of the file. */
  lemma PackedCons(line: string, tail: string)
    requires '\n' !in line && Shown(line + "\n") == Ok(Some(line))
    ensures PackedShow(FileLines(line + "\n" + tail)) == Then([line], PackedShow(FileLines(tail)))
  {
    FileLinesCons(line, tail);
    var lines := FileLines(line + "\n" + tail);
    assert lines[0] == line + "\n";
    assert lines[1..] == FileLines(tail);
  }

  /** An entry line is printed as it stands. */
  lemma PlainLine(e: (string, string))
    requires PlainEntry(e)
    ensures var line := RefLine(e.0, e.1);
      '\n' !in line && Shown(line + "\n") == Ok(Some(line))
  {
    var line := RefLine(e.0, e.1);
    NoWhitespace(e.0);
    NoWhitespace(e.1);
    assert '\n' !in line by {
      assert line == e.0 + [' '] + e.1;
    }
    assert Strip(line + "\n") == line by {
      assert line[0] == e.0[0] && line[|line| - 1] == e.1[|e.1| - 1];
      StripPlainText(line);
    }
    assert !Skipped(line + "\n") by {
      assert (line + "\n")[|e.0|] == ' ';
      assert (line + "\n")[0] == e.0[0];
    }
    assert Split(line, ' ') == [e.0, e.1] by {
      SplitJoin([e.0, e.1], ' ');
      assert JoinWith([e.0, e.1], ' ') == line;
    }
  }

  /** Text without whitespace holds neither a space nor a newline. */
  lemma NoWhitespace(s: string)
    requires forall k | 0 <= k < |s| :: !IsStrSpace(s[k])
    ensures ' ' !in s && '\n' !in s
  {
    forall k | 0 <= k < |s| ensures s[k] != ' ' && s[k] != '\n' {
      assert !IsStrSpace(s[k]);
    }
  }

  /** A line is read up to and including its newline. */
  lemma FileLinesCons(a: string, rest: string)
    requires '\n' !in a
    ensures FileLines(a + "\n" + rest) == [a + "\n"] + FileLines(rest)
  {
    var s := a + "\n" + rest;
    FindFirst(s, '\n', 0, |a|);
    assert s[..|a| + 1] == a + "\n";
    assert s[|a| + 1..] == rest;
  }

  /** An entry line with a space after the id but nothing after it strips
      to a single field: the unpacking fails and the listing stops before
      any later line. */
  lemma TrailingSpaceStops(id: string, rest: seq<string>)
    requires id != "" && id[0] != '#' && forall k | 0 <= k < |id| :: !IsStrSpace(id[k])
    ensures PackedShow([id + " \n"] + rest) == ShowOutcome([], Some(Malformed))
  {
    var lines := [id + " \n"] + rest;
    assert lines[0] == id + " \n";
    TrailingSpaceLine(id);
  }

  lemma TrailingSpaceLine(id: string)
    requires id != "" && id[0] != '#' && forall k | 0 <= k < |id| :: !IsStrSpace(id[k])
    ensures Shown(id + " \n") == Err(Malformed)
  {
    var line := id + " \n";
    assert !StartsWith(line, "#") by {
      assert line[..1][0] == line[0] == id[0];
    }
    assert ' ' in line by {
      assert line[|id|] == ' ';
    }
    StripTrailingSpace(id);
    assert !Skipped(line);
    NoWhitespace(id);
    SplitWithoutSeparator(id, ' ');
    assert Split(Strip(line), ' ') == [id];
  }

  /** Text without the separator splits into itself alone. */
  lemma SplitWithoutSeparator(s: string, c: char)
    requires c !in s
    ensures Split(s, c) == [s]
  {
    assert Find(s, c, 0) == -1;
  }

  lemma StripTrailingSpace(id: string)
    requires id != "" && !IsStrSpace(id[0]) && !IsStrSpace(id[|id| - 1])
    ensures Strip(id + " \n") == id
  {
    var line := id + " \n";
    assert TrimLeft(line, IsStrSpace) == line;
    assert line[..|line| - 1] == id + " ";
    assert (id + " ")[..|id|] == id;
    assert TrimRight(line, IsStrSpace) == TrimRight(id, IsStrSpace);
    StripPlainText(id);
  }

}
