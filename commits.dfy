/** Commit objects: the text `build_commit_object` writes
    (git_scratch/utils/commit.py), the line parser `parse_commit` and the
    walk along parent links of `log` (git_scratch/commands/log.py). The
    author identity and the clock are parameters. */
module Commits {
  import opened Common
  import opened Text
  import opened Objects
  import opened Repository

  /** Who made a commit and when: the identity lookup's name and email, and
      the clock's epoch seconds and `%z` zone. */
  datatype Signature = Signature(name: string, email: string, timestamp: nat, zone: string)

  /** `"<name> <<email>> <timestamp> <zone>"`. */
  function SignatureText(s: Signature): string {
    s.name + " <" + s.email + "> " + Decimal(s.timestamp) + " " + s.zone
  }

  /** Whether `parent_oid` is truthy: present and non-empty. */
  predicate HasParent(parent: Option<string>) {
    parent.Some? && parent.value != ""
  }

  /** The lines of a commit: tree, the parent if there is one, author and
      committer with the same signature, an empty line, the message. */
  function CommitLines(tree: string, sig: Signature, message: string, parent: Option<string>): seq<string> {
    ["tree " + tree]
    + (if HasParent(parent) then ["parent " + parent.value] else [])
    + ["author " + SignatureText(sig), "committer " + SignatureText(sig), "", message]
  }

  /** The commit content: the lines joined with newlines, nothing after the
      message. */
  function CommitContent(tree: string, sig: Signature, message: string, parent: Option<string>): string {
    JoinWith(CommitLines(tree, sig, message, parent), '\n')
  }

  /** `build_commit_object`: a failed identity lookup raises before anything
      is written; otherwise the content is written with `write_object` as a
      commit and its id returned. */
  method BuildCommitObject(repo: Repo, tree: string, message: string, parent: Option<string>,
                           identity: Option<(string, string)>, timestamp: nat, zone: string)
    returns (r: Result<Oid>)
    modifies repo`store
    ensures identity.None? ==> r == Err(IdentityMissing) && repo.store == old(repo.store)
    ensures identity.Some? ==>
      var content := CommitContent(tree, Signature(identity.value.0, identity.value.1, timestamp, zone), message, parent);
      r == Ok(ObjectId(repo.hash, "commit", content))
      && repo.store == StoreDedup(repo.hash, old(repo.store), Frame("commit", content))
  {
    if identity.None? {
      return Err(IdentityMissing);
    }
    var (name, email) := identity.value;
    var sig := Signature(name, email, timestamp, zone);
    var lines := ["tree " + tree];
    if parent.Some? && parent.value != "" {
      lines := lines + ["parent " + parent.value];
    }
    lines := lines + ["author " + SignatureText(sig)];
    lines := lines + ["committer " + SignatureText(sig)];
    lines := lines + [""];
    lines := lines + [message];
    assert lines == CommitLines(tree, sig, message, parent);
    var content := JoinWith(lines, '\n');
    r := repo.WriteObject(content, "commit");
  }

  // ---------------------------------------------------------------- parse_commit

  /** The fields `parse_commit` fills: `None` stands for Python's None. */
  datatype CommitData = CommitData(tree: Option<string>, parent: Option<string>, author: Option<string>,
                                   committer: Option<string>, message: string)

  const NoData := CommitData(None, None, None, None, "")

  /** `line.split(" ")[1]` for a line known to hold a space. */
  function SecondWord(line: string): string
    requires ' ' in line
  {
    SplitHasTwo(line, ' ');
    Split(line, ' ')[1]
  }

  lemma SplitHasTwo(s: string, c: char)
    requires c in s
    ensures |Split(s, c)| >= 2
  {
    var k := Find(s, c, 0);
    assert k >= 0;
  }

  /** What one header line does to the fields: the first prefix that
      matches decides; any other line leaves them as they are. */
  function HeaderStep(data: CommitData, line: string): CommitData {
    if StartsWith(line, "tree ") then
      assert line[4] == ' ';
      data.(tree := Some(SecondWord(line)))
    else if StartsWith(line, "parent ") then
      assert line[6] == ' ';
      data.(parent := Some(SecondWord(line)))
    else if StartsWith(line, "author ") then data.(author := Some(line[7..]))
    else if StartsWith(line, "committer ") then data.(committer := Some(line[10..]))
    else data
  }

  /** The loop of `parse_commit` from line `i`: the first empty line ends
      it, the message being everything after that line, rejoined and
      stripped; every line before it goes through `HeaderStep`, later ones
      winning. */
  function ParseFrom(lines: seq<string>, i: nat, data: CommitData): CommitData
    requires i <= |lines|
    decreases |lines| - i
  {
    if i == |lines| then data
    else if lines[i] == "" then data.(message := Strip(JoinWith(lines[i + 1..], '\n')))
    else ParseFrom(lines, i + 1, HeaderStep(data, lines[i]))
  }

  function ParseCommitSpec(content: string): CommitData {
    ParseFrom(Split(content, '\n'), 0, NoData)
  }

  /** `parse_commit`. */
  method ParseCommit(content: string) returns (data: CommitData)
    ensures data == ParseCommitSpec(content)
  {
    var lines := Split(content, '\n');
    data := NoData;
    var i := 0;
    while i < |lines|
      invariant 0 <= i <= |lines|
      invariant ParseFrom(lines, i, data) == ParseCommitSpec(content)
      decreases |lines| - i
    {
      var line := lines[i];
      ghost var before := data;
      if StartsWith(line, "tree ") {
        assert line[4] == ' ';
        data := data.(tree := Some(SecondWord(line)));
      } else if StartsWith(line, "parent ") {
        assert line[6] == ' ';
        data := data.(parent := Some(SecondWord(line)));
      } else if StartsWith(line, "author ") {
        data := data.(author := Some(line[7..]));
      } else if StartsWith(line, "committer ") {
        data := data.(committer := Some(line[10..]));
      } else if line == "" {
        data := data.(message := Strip(JoinWith(lines[i + 1..], '\n')));
        break;
      }
      assert line != "";
      assert data == HeaderStep(before, line);
      i := i + 1;
    }
  }

  // ---------------------------------------------------------------- parse after build

  /** The header lines applied one after another. */
  function Steps(data: CommitData, hs: seq<string>): CommitData
    decreases |hs|
  {
    if hs == [] then data else Steps(HeaderStep(data, hs[0]), hs[1..])
  }

  /** Starting at line `i` is parsing the lines from `i` on. */
  lemma {:induction false} ParseShift(lines: seq<string>, i: nat, data: CommitData)
    requires i <= |lines|
    ensures ParseFrom(lines, i, data) == ParseFrom(lines[i..], 0, data)
    decreases |lines| - i
  {
    if i < |lines| {
      assert lines[i..][0] == lines[i];
      assert lines[i..][1..] == lines[i + 1..];
      if lines[i] != "" {
        ParseShift(lines, i + 1, HeaderStep(data, lines[i]));
        ParseShift(lines[i..], 1, HeaderStep(data, lines[i]));
      }
    }
  }

  /** Header lines that are not empty: the parse runs through them. */
  lemma {:induction false} ParseHeaders(hs: seq<string>, rest: seq<string>, data: CommitData)
    requires forall k | 0 <= k < |hs| :: hs[k] != ""
    ensures ParseFrom(hs + rest, 0, data) == ParseFrom(rest, 0, Steps(data, hs))
    decreases |hs|
  {
    if hs != [] {
      var d := HeaderStep(data, hs[0]);
      assert (hs + rest)[0] == hs[0] != "";
      assert ParseFrom(hs + rest, 0, data) == ParseFrom(hs + rest, 1, d);
      ParseShift(hs + rest, 1, d);
      assert (hs + rest)[1..] == hs[1..] + rest;
      assert forall k | 0 <= k < |hs[1..]| :: hs[1..][k] != "" by {
        forall k | 0 <= k < |hs[1..]| ensures hs[1..][k] != "" {
          assert hs[1..][k] == hs[k + 1];
        }
      }
      ParseHeaders(hs[1..], rest, d);
      assert Steps(data, hs) == Steps(d, hs[1..]);
    } else {
      assert hs + rest == rest;
    }
  }

  /** Splitting a joined run of lines that hold no newline, followed by any
      text, gives back those lines and then the text's own lines. */
  lemma {:induction false} SplitJoinPrefix(hs: seq<string>, m: string)
    requires forall k | 0 <= k < |hs| :: '\n' !in hs[k]
    ensures Split(JoinWith(hs + [m], '\n'), '\n') == hs + Split(m, '\n')
    decreases |hs|
  {
    if hs != [] {
      var rest := JoinWith(hs[1..] + [m], '\n');
      assert (hs + [m])[1..] == hs[1..] + [m];
      assert JoinWith(hs + [m], '\n') == hs[0] + ['\n'] + rest;
      var s := hs[0] + ['\n'] + rest;
      FindFirst(s, '\n', 0, |hs[0]|);
      assert s[..|hs[0]|] == hs[0];
      assert s[|hs[0]| + 1..] == rest;
      SplitJoinPrefix(hs[1..], m);
      assert hs == [hs[0]] + hs[1..];
    }
  }

  /** `(w + " " + x).split(" ")[1] == x` when neither holds a space. */
  lemma SecondWordOf(w: string, x: string)
    requires ' ' !in w && ' ' !in x
    ensures ' ' in w + " " + x && SecondWord(w + " " + x) == x
  {
    var s := w + " " + x;
    assert s[|w|] == ' ';
    FindFirst(s, ' ', 0, |w|);
    assert s[..|w|] == w && s[|w| + 1..] == x;
    assert Find(x, ' ', 0) == -1;
    assert Split(x, ' ') == [x];
    assert Split(s, ' ') == [w] + [x];
  }

  lemma TreeLine(data: CommitData, tree: string)
    requires ' ' !in tree
    ensures HeaderStep(data, "tree " + tree) == data.(tree := Some(tree))
  {
    assert "tree " + tree == "tree" + " " + tree;
    SecondWordOf("tree", tree);
  }

  lemma ParentLine(data: CommitData, parent: string)
    requires ' ' !in parent
    ensures HeaderStep(data, "parent " + parent) == data.(parent := Some(parent))
  {
    assert "parent " + parent == "parent" + " " + parent;
    assert !StartsWith("parent " + parent, "tree ") by {
      assert ("parent " + parent)[0] == 'p';
    }
    SecondWordOf("parent", parent);
  }

  lemma AuthorLine(data: CommitData, sig: string)
    ensures HeaderStep(data, "author " + sig) == data.(author := Some(sig))
  {
    var a := "author " + sig;
    assert a[0] == 'a';
    assert StartsWith(a, "author ");
    assert a[7..] == sig;
  }

  lemma CommitterLine(data: CommitData, sig: string)
    ensures HeaderStep(data, "committer " + sig) == data.(committer := Some(sig))
  {
    var c := "committer " + sig;
    assert c[0] == 'c';
    assert StartsWith(c, "committer ");
    assert c[10..] == sig;
  }

  /** The fields a parse of a commit's content should give back. */
  function Expected(tree: string, sig: Signature, message: string, parent: Option<string>): CommitData {
    CommitData(Some(tree), if HasParent(parent) then Some(parent.value) else None,
               Some(SignatureText(sig)), Some(SignatureText(sig)), message)
  }

  /** The header lines of a commit, without the empty line and the message. */
  function Headers(tree: string, sig: Signature, parent: Option<string>): seq<string> {
    ["tree " + tree]
    + (if HasParent(parent) then ["parent " + parent.value] else [])
    + ["author " + SignatureText(sig), "committer " + SignatureText(sig)]
  }

  /** What the commit header lines set. */
  lemma HeaderFields(tree: string, sig: Signature, parent: Option<string>)
    requires ' ' !in tree && (HasParent(parent) ==> ' ' !in parent.value)
    ensures Steps(NoData, Headers(tree, sig, parent)) == Expected(tree, sig, "", parent)
  {
    var t := "tree " + tree;
    var a := "author " + SignatureText(sig);
    var c := "committer " + SignatureText(sig);
    TreeLine(NoData, tree);
    var d := NoData.(tree := Some(tree));
    var rest := [a, c];
    if HasParent(parent) {
      ParentLine(d, parent.value);
      d := d.(parent := Some(parent.value));
      assert Headers(tree, sig, parent) == [t, "parent " + parent.value] + rest;
      assert Steps(NoData, Headers(tree, sig, parent)) == Steps(d, rest);
    } else {
      assert Headers(tree, sig, parent) == [t] + rest;
      assert Steps(NoData, Headers(tree, sig, parent)) == Steps(d, rest);
    }
    AuthorLine(d, SignatureText(sig));
    var d' := d.(author := Some(SignatureText(sig)));
    CommitterLine(d', SignatureText(sig));
    assert rest[1..] == [c] && [c][1..] == [];
    assert Steps(d, rest) == Steps(d', [c]);
    assert Steps(d', [c]) == Steps(d'.(committer := Some(SignatureText(sig))), []);
  }

  lemma HeadersPlain(tree: string, sig: Signature, parent: Option<string>)
    requires '\n' !in tree && (HasParent(parent) ==> '\n' !in parent.value)
    requires '\n' !in sig.name && '\n' !in sig.email && '\n' !in sig.zone
    ensures forall k | 0 <= k < |Headers(tree, sig, parent)| ::
      '\n' !in Headers(tree, sig, parent)[k] && Headers(tree, sig, parent)[k] != ""
  {
    SignatureNoNewline(sig);
  }

  /** Parsing what `build_commit_object` writes recovers its tree, its parent
      (absent when there was none), the author and committer signatures and
      the stripped message, provided the tree and parent ids hold no space and
      no header field holds a newline. */
  lemma ParseBuiltCommit(tree: string, sig: Signature, message: string, parent: Option<string>)
    requires ' ' !in tree && '\n' !in tree
    requires HasParent(parent) ==> ' ' !in parent.value && '\n' !in parent.value
    requires '\n' !in sig.name && '\n' !in sig.email && '\n' !in sig.zone
    ensures ParseCommitSpec(CommitContent(tree, sig, message, parent)) == Expected(tree, sig, Strip(message), parent)
  {
    var hs := Headers(tree, sig, parent);
    HeadersPlain(tree, sig, parent);
    assert CommitLines(tree, sig, message, parent) == hs + [""] + [message];
    HeaderFields(tree, sig, parent);
    ParseHeadersThenMessage(hs, message, NoData);
  }

  /** Header lines without newline, an empty line and a message: the parse
      applies the headers and takes the stripped message. */
  lemma ParseHeadersThenMessage(hs: seq<string>, message: string, data: CommitData)
    requires forall k | 0 <= k < |hs| :: '\n' !in hs[k] && hs[k] != ""
    ensures ParseFrom(Split(JoinWith(hs + [""] + [message], '\n'), '\n'), 0, data)
      == Steps(data, hs).(message := Strip(message))
  {
    var pre := hs + [""];
    assert forall k | 0 <= k < |pre| :: '\n' !in pre[k] by {
      forall k | 0 <= k < |pre| ensures '\n' !in pre[k] {
        if k < |hs| { assert pre[k] == hs[k]; }
      }
    }
    SplitJoinPrefix(pre, message);
    var tail := [""] + Split(message, '\n');
    assert pre + Split(message, '\n') == hs + tail;
    ParseHeaders(hs, tail, data);
    assert tail[1..] == Split(message, '\n');
    JoinSplit(message, '\n');
  }

  lemma SignatureNoNewline(sig: Signature)
    requires '\n' !in sig.name && '\n' !in sig.email && '\n' !in sig.zone
    ensures '\n' !in SignatureText(sig)
  {
    var d := Decimal(sig.timestamp);
    assert '\n' !in d by {
      forall k | 0 <= k < |d| ensures d[k] != '\n' { }
    }
  }

  /** Without an empty line the message stays empty, whatever else the
      lines hold. */
  lemma {:induction false} NoEmptyLineNoMessage(lines: seq<string>, i: nat, data: CommitData)
    requires i <= |lines| && data.message == ""
    requires forall k | i <= k < |lines| :: lines[k] != ""
    ensures ParseFrom(lines, i, data).message == ""
    decreases |lines| - i
  {
    if i < |lines| {
      NoEmptyLineNoMessage(lines, i + 1, HeaderStep(data, lines[i]));
    }
  }

  /** A repeated header overwrites the earlier one. */
  lemma LaterTreeWins(a: string, b: string, rest: seq<string>)
    requires ' ' !in a && ' ' !in b
    ensures ParseFrom(["tree " + a, "tree " + b] + rest, 0, NoData)
      == ParseFrom(rest, 0, NoData.(tree := Some(b)))
  {
    TreeLine(NoData, a);
    TreeLine(NoData.(tree := Some(a)), b);
    var hs := ["tree " + a, "tree " + b];
    assert hs[0][0] == 't' && hs[1][0] == 't';
    ParseHeaders(hs, rest, NoData);
    assert hs[1..] == ["tree " + b] && hs[1..][1..] == [];
    assert Steps(NoData, hs) == Steps(NoData.(tree := Some(a)), hs[1..]);
    assert Steps(NoData.(tree := Some(a)), hs[1..]) == Steps(NoData.(tree := Some(b)), []);
  }

  // ---------------------------------------------------------------- log

  /** What `log` shows for one commit. */
  datatype LogEntry = LogEntry(oid: string, author: Option<string>, message: string)

  /** What `log` shows and how it stops: `stop` is `None` when it reaches a
      commit without parent, and names the failure otherwise. */
  datatype LogOutcome = LogOutcome(shown: seq<LogEntry>, stop: Option<Failure>)

  /** Whether `oid` is truthy. */
  predicate Truthy(oid: Option<string>) {
    oid.Some? && oid.value != ""
  }

  /** One round of the `log` loop: the object `oid` names is read, must be
      a commit, and gives the entry shown and the id to go on with. */
  function LogNext(store: map<string, string>, oid: string): (r: Result<(LogEntry, Option<string>)>)
    ensures oid !in store ==> r == Err(NotFound)
    ensures r.Ok? ==> exists content :: (ReadObject(store, oid) == Ok(("commit", content))
      && r.value == (LogEntry(oid, ParseCommitSpec(content).author, ParseCommitSpec(content).message),
                     ParseCommitSpec(content).parent))
    ensures ReadObject(store, oid).Ok? && ReadObject(store, oid).value.0 != "commit" ==> r == Err(NotACommit)
    ensures r.Err? ==> r.error == NotFound || r.error == Malformed || r.error == NotACommit
  {
    match ReadObject(store, oid)
    case Err(e) => Err(e)
    case Ok((kind, content)) =>
      if kind != "commit" then Err(NotACommit)
      else
        var c := ParseCommitSpec(content);
        Ok((LogEntry(oid, c.author, c.message), c.parent))
  }

  /** The loop of `log` from `oid`: each commit is shown and its parent is
      next, until a commit without parent; a missing object, a malformed
      one or another kind of object ends it with an error. The loop has no
      bound of its own: `fuel` rounds are allowed, and running out of them
      stands for a parent chain that never ends. */
  function LogFrom(store: map<string, string>, oid: Option<string>, fuel: nat): LogOutcome
    decreases fuel
  {
    if !Truthy(oid) then LogOutcome([], None)
    else if fuel == 0 then LogOutcome([], Some(RecursionLimit))
    else
      var f: nat := fuel - 1;
      match LogNext(store, oid.value)
      case Err(e) => LogOutcome([], Some(e))
      case Ok((entry, next)) =>
        var rest := LogFrom(store, next, f);
        LogOutcome([entry] + rest.shown, rest.stop)
  }

  /** Where `log` starts: HEAD, followed through `ref:` (any text after the
      first five characters names the ref), both stripped. A missing HEAD or
      ref file is an error; an empty id means no commits. */
  function LogStart(head: Option<string>, refs: map<string, string>): Result<string> {
    if head.None? then Err(NotFound)
    else
      var headRef := Strip(head.value);
      if StartsWith(headRef, "ref:") then
        var name := if |headRef| >= 5 then headRef[5..] else "";
        if name !in refs then Err(NotFound) else Ok(Strip(refs[name]))
      else Ok(headRef)
  }

  /** `log()`: an empty starting id reports no commits and shows nothing. */
  function LogSpec(head: Option<string>, refs: map<string, string>, store: map<string, string>, fuel: nat): LogOutcome {
    match LogStart(head, refs)
    case Err(e) => LogOutcome([], Some(e))
    case Ok(oid) => if oid == "" then LogOutcome([], Some(NotFound)) else LogFrom(store, Some(oid), fuel)
  }

  /** `log()`: where to start, then the walk. */
  method Log(repo: Repo, fuel: nat) returns (out: LogOutcome)
    ensures out == LogSpec(repo.head, repo.refs, repo.store, fuel)
  {
    var start := LogStart(repo.head, repo.refs);
    if start.Err? {
      return LogOutcome([], Some(start.error));
    }
    if start.value == "" {
      return LogOutcome([], Some(NotFound));
    }
    out := LogWalk(repo.store, start.value, fuel);
  }

  /** The entries `shown` followed by what the rest of the walk shows. */
  function After(shown: seq<LogEntry>, rest: LogOutcome): (r: LogOutcome)
    ensures |r.shown| == |shown| + |rest.shown| && r.stop == rest.stop
  {
    LogOutcome(shown + rest.shown, rest.stop)
  }

  lemma AfterAfter(a: seq<LogEntry>, b: seq<LogEntry>, rest: LogOutcome)
    ensures After(a, After(b, rest)) == After(a + b, rest)
  {
    assert a + (b + rest.shown) == (a + b) + rest.shown;
  }

  /** The `while oid` loop of `log()`, bounded by `fuel` rounds. */
  method LogWalk(store: map<string, string>, start: string, fuel: nat) returns (out: LogOutcome)
    ensures out == LogFrom(store, Some(start), fuel)
  {
    var oid: Option<string> := Some(start);
    var shown: seq<LogEntry> := [];
    var left: nat := fuel;
    ghost var goal := LogFrom(store, Some(start), fuel);
    ghost var cur := goal;
    assert goal == After([], goal);
    while Truthy(oid)
      invariant cur == LogFrom(store, oid, left)
      invariant goal == After(shown, cur)
      decreases left
    {
      if left == 0 {
        return LogOutcome(shown, Some(RecursionLimit));
      }
      var obj := ReadObject(store, oid.value);
      if obj.Err? {
        LogFails(store, oid.value, left - 1);
        return LogOutcome(shown, Some(obj.error));
      }
      var (kind, content) := obj.value;
      if kind != "commit" {
        LogFails(store, oid.value, left - 1);
        return LogOutcome(shown, Some(NotACommit));
      }
      var commit := ParseCommit(content);
      var entry := LogEntry(oid.value, commit.author, commit.message);
      assert ReadObject(store, oid.value) == Ok(("commit", content));
      var f: nat := left - 1;
      LogRound(store, oid, left, f, content, commit);
      ghost var rest := LogFrom(store, commit.parent, f);
      assert cur == After([entry], rest);
      AfterAfter(shown, [entry], rest);
      shown, oid, left, cur := shown + [entry], commit.parent, f, rest;
    }
    assert shown + [] == shown;
    return LogOutcome(shown, None);
  }

  // ---------------------------------------------------------------- log after commit

  /** `log` shows a commit it reads and follows its parent link. */
  lemma LogRound(store: map<string, string>, oid: Option<string>, fuel: nat, f: nat, content: string, c: CommitData)
    requires Truthy(oid) && fuel == f + 1 && ReadObject(store, oid.value) == Ok(("commit", content))
    requires c == ParseCommitSpec(content)
    ensures LogFrom(store, oid, fuel)
        == LogOutcome([LogEntry(oid.value, c.author, c.message)] + LogFrom(store, c.parent, f).shown,
                      LogFrom(store, c.parent, f).stop)
  {
  }

  /** After a commit is written, `log` from its id shows it first, with the
      author and stripped message it was written with, and then goes on
      from its parent. */
  lemma LogShowsNewCommit(hash: string -> Oid, store: map<string, string>, tree: string, sig: Signature,
                          message: string, parent: Option<string>, fuel: nat)
    requires Consistent(hash, store)
    requires ' ' !in tree && '\n' !in tree
    requires HasParent(parent) ==> ' ' !in parent.value && '\n' !in parent.value
    requires '\n' !in sig.name && '\n' !in sig.email && '\n' !in sig.zone
    requires NoCollision(hash, store, Frame("commit", CommitContent(tree, sig, message, parent)))
    ensures var content := CommitContent(tree, sig, message, parent);
      var s := StoreDedup(hash, store, Frame("commit", content));
      var oid := ObjectId(hash, "commit", content);
      var next := if HasParent(parent) then parent else None;
      LogFrom(s, Some(oid), fuel + 1)
        == LogOutcome([LogEntry(oid, Some(SignatureText(sig)), Strip(message))] + LogFrom(s, next, fuel).shown,
                      LogFrom(s, next, fuel).stop)
  {
    var content := CommitContent(tree, sig, message, parent);
    WriteThenRead(hash, store, "commit", content);
    ParseBuiltCommit(tree, sig, message, parent);
    OidNotEmpty(ObjectId(hash, "commit", content));
    LogRound(StoreDedup(hash, store, Frame("commit", content)), Some(ObjectId(hash, "commit", content)), fuel + 1,
             fuel, content, ParseCommitSpec(content));
  }

  lemma OidNotEmpty(o: Oid)
    ensures o != ""
  {
  }

  /** The walk never shows more commits than it has rounds. */
  lemma {:induction false} LogBounded(store: map<string, string>, oid: Option<string>, fuel: nat)
    ensures |LogFrom(store, oid, fuel).shown| <= fuel
    decreases fuel
  {
    if Truthy(oid) && fuel > 0 {
      var f: nat := fuel - 1;
      var n := LogNext(store, oid.value);
      if n.Ok? {
        LogBounded(store, n.value.1, f);
      }
    }
  }

  /** A round that fails ends the walk with that failure. */
  lemma LogFails(store: map<string, string>, oid: string, f: nat)
    requires oid != "" && LogNext(store, oid).Err?
    ensures LogFrom(store, Some(oid), f + 1) == LogOutcome([], Some(LogNext(store, oid).error))
  {
  }

  /** A round that succeeds shows its entry and goes on with its next id. */
  lemma LogContinues(store: map<string, string>, oid: string, f: nat)
    requires oid != "" && LogNext(store, oid).Ok?
    ensures var (entry, next) := LogNext(store, oid).value;
      LogFrom(store, Some(oid), f + 1)
        == LogOutcome([entry] + LogFrom(store, next, f).shown, LogFrom(store, next, f).stop)
  {
  }

  /** It only runs out of rounds after showing one commit per round. */
  lemma {:induction false} LogLimitFull(store: map<string, string>, oid: Option<string>, fuel: nat)
    ensures LogFrom(store, oid, fuel).stop == Some(RecursionLimit) ==> |LogFrom(store, oid, fuel).shown| == fuel
    decreases fuel
  {
    if Truthy(oid) && fuel > 0 {
      var f: nat := fuel - 1;
      var n := LogNext(store, oid.value);
      if n.Ok? {
        LogLimitFull(store, n.value.1, f);
        LogContinues(store, oid.value, f);
      } else {
        LogFails(store, oid.value, f);
      }
    }
  }
}
