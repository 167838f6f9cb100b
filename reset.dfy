/** The `reset` command (git_scratch/commands/reset.py): the target is
    resolved, HEAD's branch is moved to it, and then, by mode, the index is
    rebuilt from the target's tree (mixed, hard) and the tree's blobs are
    written into the working directory (hard). Each step happens after the
    previous one has been carried out, so a later failure leaves the earlier
    changes in place. */
module Reset {
  import opened Common
  import opened Text
  import opened Objects
  import opened Repository
  import opened TreeWalk
  import opened Refs
  import opened Commits

  // ---------------------------------------------------------------- _resolve_ref

  /** `_resolve_ref(ref)`: a valid id (either case) is taken lower-cased
      without looking for the object; "HEAD" in any case is read from the
      HEAD file, following a symbolic HEAD to its ref file; otherwise the
      branch, then the tag, of that name, stripped. Neither the HEAD text nor
      a ref file's text is checked. */
  function ResolveRef(ref: string, head: Option<string>, refs: map<string, string>): (r: Result<string>)
    ensures r.Err? ==> r.error == NotFound || r.error == UnknownRevision
  {
    if IsValidOid(ref) then Ok(Lower(ref))
    else if Upper(ref) == "HEAD" then
      if head.None? then Err(NotFound)
      else
        var content := Strip(head.value);
        if StartsWith(content, "ref: ") then
          var name := content[5..];
          if name in refs then Ok(Strip(refs[name])) else Err(NotFound)
        else Ok(content)
    else if "refs/heads/" + ref in refs then Ok(Strip(refs["refs/heads/" + ref]))
    else if "refs/tags/" + ref in refs then Ok(Strip(refs["refs/tags/" + ref]))
    else Err(UnknownRevision)
  }

  /** `_resolve_ref` with its loop over the two ref directories. */
  method ResolveRefIn(repo: Repo, ref: string) returns (r: Result<string>)
    ensures r == ResolveRef(ref, repo.head, repo.refs)
  {
    if IsValidOid(ref) {
      return Ok(Lower(ref));
    }
    if Upper(ref) == "HEAD" {
      if repo.head.None? {
        return Err(NotFound);
      }
      var content := Strip(repo.head.value);
      if StartsWith(content, "ref: ") {
        var name := content[5..];
        if name !in repo.refs {
          return Err(NotFound);
        }
        return Ok(Strip(repo.refs[name]));
      }
      return Ok(content);
    }
    var cats := ["refs/heads/", "refs/tags/"];
    assert cats[0] == "refs/heads/" && cats[1] == "refs/tags/";
    var i := 0;
    while i < |cats|
      invariant 0 <= i <= |cats|
      invariant forall j | 0 <= j < i :: cats[j] + ref !in repo.refs
    {
      var p := cats[i] + ref;
      if p in repo.refs {
        assert i == 1 ==> cats[0] + ref !in repo.refs;
        return Ok(Strip(repo.refs[p]));
      }
      i := i + 1;
    }
    assert cats[0] + ref !in repo.refs && cats[1] + ref !in repo.refs;
    return Err(UnknownRevision);
  }

  // ---------------------------------------------------------------- _get_tree_oid

  /** `_get_tree_oid(oid)`: the object must be a commit whose first line
      starts with "tree "; its second whitespace-separated word is the tree.
      An empty commit body or a line with one word is malformed. */
  function GetTreeOid(store: map<string, string>, oid: string): (r: Result<string>)
    ensures oid !in store ==> r == Err(NotFound)
    ensures ReadObject(store, oid).Ok? && ReadObject(store, oid).value.0 != "commit" ==> r == Err(NotACommit)
    ensures r.Ok? ==> ReadObject(store, oid).Ok? && ReadObject(store, oid).value.0 == "commit"
  {
    match ReadObject(store, oid)
    case Err(e) => Err(e)
    case Ok((kind, c)) =>
      if kind != "commit" then Err(NotACommit)
      else
        match FirstLine(c)
        case None => Err(Malformed)
        case Some(line) =>
          if !StartsWith(line, "tree ") then Err(Malformed)
          else
            var ws := Words(line, IsStrSpace);
            if |ws| < 2 then Err(Malformed) else Ok(ws[1])
  }

  // ---------------------------------------------------------------- _checkout_tree

  /** The writes of `_checkout_tree` for a list of entries: each entry's
      object is read and its payload written at its path, whatever its kind;
      a failed read stops the loop with the earlier writes done. */
  function WriteBlobs(store: map<string, string>, es: seq<IndexEntry>, workdir: map<string, string>)
    : (map<string, string>, Option<Failure>)
    decreases |es|
  {
    if es == [] then (workdir, None)
    else
      match ReadObject(store, es[0].oid)
      case Err(e) => (workdir, Some(e))
      case Ok((_, data)) => WriteBlobs(store, es[1..], workdir[es[0].path := data])
  }

  /** `_checkout_tree(tree)`: the tree is flattened first, so a failed walk
      writes nothing. */
  function CheckoutSpec(store: map<string, string>, tree: string, workdir: map<string, string>, fuel: nat)
    : (map<string, string>, Option<Failure>)
  {
    match Walk(store, tree, "", fuel)
    case Err(e) => (workdir, Some(e))
    case Ok(es) => WriteBlobs(store, es, workdir)
  }

  method CheckoutTree(repo: Repo, tree: string, fuel: nat) returns (err: Option<Failure>)
    modifies repo`workdir
    ensures (repo.workdir, err) == CheckoutSpec(repo.store, tree, old(repo.workdir), fuel)
  {
    var walked := EntriesFromTree(repo, tree, "", fuel);
    if walked.Err? {
      return Some(walked.error);
    }
    var es := walked.value;
    var i := 0;
    while i < |es|
      invariant 0 <= i <= |es|
      invariant CheckoutSpec(repo.store, tree, old(repo.workdir), fuel) == WriteBlobs(repo.store, es[i..], repo.workdir)
    {
      assert es[i..][1..] == es[i + 1..];
      var obj := ReadObject(repo.store, es[i].oid);
      if obj.Err? {
        return Some(obj.error);
      }
      repo.WriteFile(es[i].path, obj.value.1);
      i := i + 1;
    }
    return None;
  }

  // ---------------------------------------------------------------- reset

  function ModeName(soft: bool, hard: bool): string {
    if soft then "soft" else if hard then "hard" else "mixed"
  }

  /** The mode is the one flag given, and mixed when neither is. */
  lemma ModeOfFlags(soft: bool, hard: bool)
    requires !(soft && hard)
    ensures ModeName(soft, hard) == "soft" <==> soft
    ensures ModeName(soft, hard) == "hard" <==> hard
    ensures ModeName(soft, hard) == "mixed" <==> !soft && !hard
  {
  }

  /** At most the first seven characters. */
  function Abbrev(s: string): (r: string)
    ensures |r| <= 7 && |r| <= |s| && r == s[..|r|]
  {
    s[..if |s| < 7 then |s| else 7]
  }

  function Confirmation(target: string, soft: bool, hard: bool): string {
    "HEAD is now at " + Abbrev(target) + "  (" + ModeName(soft, hard) + ")"
  }

  /** `reset(ref, soft, hard)` on state `s`, step by step. */
  function ResetSpec(store: map<string, string>, s: RepoState, ref: string, soft: bool, hard: bool, fuel: nat)
    : Outcome
  {
    if soft && hard then Outcome(s, Err(Usage))
    else
      match ResolveRef(ref, s.head, s.refs)
      case Err(e) => Outcome(s, Err(e))
      case Ok(target) =>
        var moved := s.(head := UpdateHead(s.head, s.refs, target).0, refs := UpdateHead(s.head, s.refs, target).1);
        match GetTreeOid(store, target)
        case Err(e) => Outcome(moved, Err(e))
        case Ok(tree) =>
          if soft then Outcome(moved, Ok(Confirmation(target, soft, hard)))
          else
            match Walk(store, tree, "", fuel)
            case Err(e) => Outcome(moved, Err(e))
            case Ok(es) =>
              var indexed := moved.(index := Some(es));
              if !hard then Outcome(indexed, Ok(Confirmation(target, soft, hard)))
              else
                var written := CheckoutSpec(store, tree, s.workdir, fuel);
                Outcome(indexed.(workdir := written.0),
                             if written.1.Some? then Err(written.1.value) else Ok(Confirmation(target, soft, hard)))
  }

  method ResetCommand(repo: Repo, ref: string, soft: bool, hard: bool, fuel: nat) returns (r: Result<string>)
    modifies repo`refs, repo`head, repo`index, repo`workdir
    ensures ResetSpec(repo.store, old(repo.State()), ref, soft, hard, fuel) == Outcome(repo.State(), r)
  {
    ghost var s := repo.State();
    if soft && hard {
      return Err(Usage);
    }
    var mode := "mixed";
    if soft {
      mode := "soft";
    } else if hard {
      mode := "hard";
    }
    assert mode == ModeName(soft, hard);
    var target := ResolveRefIn(repo, ref);
    if target.Err? {
      return Err(target.error);
    }
    UpdateHeadToCommitOld(repo, target.value);
    ghost var moved := s.(head := repo.head, refs := repo.refs);
    assert repo.State() == moved;
    var tree := GetTreeOid(repo.store, target.value);
    if tree.Err? {
      assert ResetSpec(repo.store, s, ref, soft, hard, fuel) == Outcome(moved, Err(tree.error));
      return Err(tree.error);
    }
    var msg := "HEAD is now at " + Abbrev(target.value) + "  (" + mode + ")";
    assert msg == Confirmation(target.value, soft, hard);
    if mode == "mixed" || mode == "hard" {
      var es := EntriesFromTree(repo, tree.value, "", fuel);
      if es.Err? {
        assert ResetSpec(repo.store, s, ref, soft, hard, fuel) == Outcome(moved, Err(es.error));
        return Err(es.error);
      }
      repo.SaveIndex(es.value);
      assert repo.State() == moved.(index := Some(es.value));
    }
    if mode == "hard" {
      var err := CheckoutTree(repo, tree.value, fuel);
      if err.Some? {
        return Err(err.value);
      }
    }
    return Ok(msg);
  }

  // ---------------------------------------------------------------- what a reset leaves

  /** Both --soft and --hard, or a reference that does not resolve, fail
      with nothing changed. */
  lemma FailsBeforeMoving(store: map<string, string>, s: RepoState, ref: string, soft: bool, hard: bool, fuel: nat)
    requires (soft && hard) || ResolveRef(ref, s.head, s.refs).Err?
    ensures var o := ResetSpec(store, s, ref, soft, hard, fuel);
      o.state == s && o.out.Err?
      && (soft && hard ==> o.out == Err(Usage))
      && (!(soft && hard) ==> o.out == Err(ResolveRef(ref, s.head, s.refs).error))
  {
  }

  /** HEAD's branch is moved before the target is looked at: a target that
      is missing, not a commit or malformed still fails after the move, with
      the index and the working directory untouched. */
  lemma MovesBeforeCommitCheck(store: map<string, string>, s: RepoState, ref: string, soft: bool, hard: bool, fuel: nat)
    requires !(soft && hard) && ResolveRef(ref, s.head, s.refs).Ok?
    requires GetTreeOid(store, ResolveRef(ref, s.head, s.refs).value).Err?
    ensures var t := ResolveRef(ref, s.head, s.refs).value;
      var o := ResetSpec(store, s, ref, soft, hard, fuel);
      && (o.state.head, o.state.refs) == UpdateHead(s.head, s.refs, t)
      && o.state.index == s.index && o.state.workdir == s.workdir
      && o.out == Err(GetTreeOid(store, t).error)
      && (ReadObject(store, t).Ok? && ReadObject(store, t).value.0 != "commit" ==> o.out == Err(NotACommit))
  {
  }

  /** --soft moves HEAD's branch only. */
  lemma SoftMovesOnlyTheBranch(store: map<string, string>, s: RepoState, ref: string, fuel: nat)
    requires ResolveRef(ref, s.head, s.refs).Ok?
    requires GetTreeOid(store, ResolveRef(ref, s.head, s.refs).value).Ok?
    ensures var t := ResolveRef(ref, s.head, s.refs).value;
      var o := ResetSpec(store, s, ref, true, false, fuel);
      && (o.state.head, o.state.refs) == UpdateHead(s.head, s.refs, t)
      && o.state.index == s.index && o.state.workdir == s.workdir
      && o.out == Ok(Confirmation(t, true, false))
  {
  }

  /** The default mode replaces the index by the flattened tree of the
      target and leaves the working directory alone; a tree that cannot be
      flattened leaves the old index. */
  lemma MixedResetsIndex(store: map<string, string>, s: RepoState, ref: string, fuel: nat)
    requires ResolveRef(ref, s.head, s.refs).Ok?
    requires GetTreeOid(store, ResolveRef(ref, s.head, s.refs).value).Ok?
    ensures var t := ResolveRef(ref, s.head, s.refs).value;
      var w := Walk(store, GetTreeOid(store, t).value, "", fuel);
      var o := ResetSpec(store, s, ref, false, false, fuel);
      && (o.state.head, o.state.refs) == UpdateHead(s.head, s.refs, t)
      && o.state.workdir == s.workdir
      && (w.Ok? ==> o.state.index == Some(w.value) && o.out == Ok(Confirmation(t, false, false)))
      && (w.Err? ==> o.state.index == s.index && o.out == Err(w.error))
  {
  }

  /** Only --hard touches the working directory, and --soft never touches
      the index, whatever the outcome. */
  lemma OnlyHardWritesFiles(store: map<string, string>, s: RepoState, ref: string, soft: bool, hard: bool, fuel: nat)
    ensures var o := ResetSpec(store, s, ref, soft, hard, fuel);
      && (!hard || soft ==> o.state.workdir == s.workdir)
      && (soft ==> o.state.index == s.index)
  {
  }

  /** A successful --hard reset leaves the index equal to the flattened
      tree and every tracked file, unless a later entry has the same path,
      holding its blob; files the tree does not track are left as they
      were. */
  lemma HardResetsWorkdir(store: map<string, string>, s: RepoState, ref: string, fuel: nat, k: nat, p: string)
    requires ResetSpec(store, s, ref, false, true, fuel).out.Ok?
    ensures var t := ResolveRef(ref, s.head, s.refs).value;
      var es := Walk(store, GetTreeOid(store, t).value, "", fuel).value;
      var o := ResetSpec(store, s, ref, false, true, fuel);
      && o.state.index == Some(es)
      && (k < |es| && (forall j | k < j < |es| :: es[j].path != es[k].path) ==>
            ReadObject(store, es[k].oid).Ok? && es[k].path in o.state.workdir
            && o.state.workdir[es[k].path] == ReadObject(store, es[k].oid).value.1)
      && ((forall j | 0 <= j < |es| :: es[j].path != p) ==>
            (p in o.state.workdir <==> p in s.workdir) && (p in s.workdir ==> o.state.workdir[p] == s.workdir[p]))
  {
    var t := ResolveRef(ref, s.head, s.refs).value;
    var tree := GetTreeOid(store, t).value;
    var es := Walk(store, tree, "", fuel).value;
    assert CheckoutSpec(store, tree, s.workdir, fuel) == WriteBlobs(store, es, s.workdir);
    if k < |es| && (forall j | k < j < |es| :: es[j].path != es[k].path) {
      WriteBlobsWrites(store, es, s.workdir, k);
    }
    if forall j | 0 <= j < |es| :: es[j].path != p {
      WriteBlobsKeeps(store, es, s.workdir, p);
    }
  }

  /** The writes complete exactly when every entry's object can be read. */
  lemma {:induction false} WriteBlobsComplete(store: map<string, string>, es: seq<IndexEntry>, w: map<string, string>)
    ensures WriteBlobs(store, es, w).1.None? <==> forall k | 0 <= k < |es| :: ReadObject(store, es[k].oid).Ok?
    decreases |es|
  {
    if es != [] {
      if ReadObject(store, es[0].oid).Ok? {
        WriteBlobsComplete(store, es[1..], w[es[0].path := ReadObject(store, es[0].oid).value.1]);
        assert forall k | 1 <= k < |es| :: es[k] == es[1..][k - 1];
      }
    }
  }

  /** A path no entry names keeps its file, or its absence. */
  lemma {:induction false} WriteBlobsKeeps(store: map<string, string>, es: seq<IndexEntry>, w: map<string, string>, p: string)
    requires forall j | 0 <= j < |es| :: es[j].path != p
    ensures var w' := WriteBlobs(store, es, w).0;
      (p in w' <==> p in w) && (p in w ==> w'[p] == w[p])
    decreases |es|
  {
    if es != [] && ReadObject(store, es[0].oid).Ok? {
      assert es[0].path != p;
      WriteBlobsKeeps(store, es[1..], w[es[0].path := ReadObject(store, es[0].oid).value.1], p);
    }
  }

  /** After complete writes, an entry's path holds its payload unless a
      later entry names the same path. */
  lemma {:induction false} WriteBlobsWrites(store: map<string, string>, es: seq<IndexEntry>, w: map<string, string>, k: nat)
    requires WriteBlobs(store, es, w).1.None?
    requires k < |es| && forall j | k < j < |es| :: es[j].path != es[k].path
    ensures ReadObject(store, es[k].oid).Ok?
    ensures var w' := WriteBlobs(store, es, w).0;
      es[k].path in w' && w'[es[k].path] == ReadObject(store, es[k].oid).value.1
    decreases |es|
  {
    var w1 := w[es[0].path := ReadObject(store, es[0].oid).value.1];
    if k == 0 {
      WriteBlobsKeeps(store, es[1..], w1, es[0].path);
    } else {
      WriteBlobsWrites(store, es[1..], w1, k - 1);
      assert es[1..][k - 1] == es[k];
    }
  }

  // ---------------------------------------------------------------- where HEAD ends up

  /** After a reset that resolved its target to a non-empty id, HEAD
      resolves to that id, whatever happened after the move. */
  lemma HeadFollowsReset(store: map<string, string>, s: RepoState, ref: string, soft: bool, hard: bool, fuel: nat)
    requires !(soft && hard) && ResolveRef(ref, s.head, s.refs).Ok? && ResolveRef(ref, s.head, s.refs).value != []
    ensures var o := ResetSpec(store, s, ref, soft, hard, fuel);
      ResolveRef("HEAD", o.state.head, o.state.refs) == Ok(ResolveRef(ref, s.head, s.refs).value)
  {
    var t := ResolveRef(ref, s.head, s.refs).value;
    HeadMoves(store, s, ref, soft, hard, fuel);
    ResolvedIsPlain(ref, s.head, s.refs);
    HeadResolvesTo(s.head, s.refs, t);
  }

  /** Once the target resolves, HEAD and the refs are those of the move,
      however the rest of the reset goes. */
  lemma HeadMoves(store: map<string, string>, s: RepoState, ref: string, soft: bool, hard: bool, fuel: nat)
    requires !(soft && hard) && ResolveRef(ref, s.head, s.refs).Ok?
    ensures var o := ResetSpec(store, s, ref, soft, hard, fuel);
      (o.state.head, o.state.refs) == UpdateHead(s.head, s.refs, ResolveRef(ref, s.head, s.refs).value)
  {
    var t := ResolveRef(ref, s.head, s.refs).value;
    var g := GetTreeOid(store, t);
    if g.Ok? && !soft {
      var w := Walk(store, g.value, "", fuel);
      if w.Ok? && hard {
        var written := CheckoutSpec(store, g.value, s.workdir, fuel);
      }
    }
  }

  /** A non-empty resolution neither starts nor ends with whitespace. */
  lemma ResolvedIsPlain(ref: string, head: Option<string>, refs: map<string, string>)
    requires ResolveRef(ref, head, refs).Ok? && ResolveRef(ref, head, refs).value != []
    ensures var t := ResolveRef(ref, head, refs).value;
      !IsStrSpace(t[0]) && !IsStrSpace(t[|t| - 1])
  {
    var t := ResolveRef(ref, head, refs).value;
    if IsValidOid(ref) {
      assert t == Lower(ref);
      assert IsLowerHexChar(t[0]) && IsLowerHexChar(t[|t| - 1]);
    } else if Upper(ref) == "HEAD" {
      var content := Strip(head.value);
      if StartsWith(content, "ref: ") {
        assert t == Strip(refs[content[5..]]);
        StripEnds(refs[content[5..]]);
      } else {
        assert t == content;
        StripEnds(head.value);
      }
    } else if "refs/heads/" + ref in refs {
      assert t == Strip(refs["refs/heads/" + ref]);
      StripEnds(refs["refs/heads/" + ref]);
    } else {
      assert t == Strip(refs["refs/tags/" + ref]);
      StripEnds(refs["refs/tags/" + ref]);
    }
  }

  lemma StripEnds(s: string)
    requires Strip(s) != []
    ensures !IsStrSpace(Strip(s)[0]) && !IsStrSpace(Strip(s)[|Strip(s)| - 1])
  {
    var l := TrimLeft(s, IsStrSpace);
    TrimRightPrefix(l, IsStrSpace);
    assert Strip(s)[0] == l[0];
  }

  /** Moving HEAD's branch to plain text `t` makes "HEAD" resolve to `t`. */
  lemma HeadResolvesTo(head: Option<string>, refs: map<string, string>, t: string)
    requires t != [] && !IsStrSpace(t[0]) && !IsStrSpace(t[|t| - 1])
    ensures ResolveRef("HEAD", UpdateHead(head, refs, t).0, UpdateHead(head, refs, t).1) == Ok(t)
  {
    StripPlainText(t);
    var h := UpdateHead(head, refs, t).0;
    var rs := UpdateHead(head, refs, t).1;
    if head.None? || SymbolicRef(head.value).None? {
      MainHeadIsSymbolic();
      SymbolicHead(h, rs, MainRef);
    } else {
      SymbolicHead(h, rs, SymbolicRef(head.value).value);
    }
  }

  /** A symbolic HEAD resolves to its ref file's text, stripped. */
  lemma SymbolicHead(h: Option<string>, rs: map<string, string>, name: string)
    requires h.Some? && SymbolicRef(h.value) == Some(name) && name in rs
    ensures ResolveRef("HEAD", h, rs) == Ok(Strip(rs[name]))
  {
    assert !IsValidOid("HEAD") by {
      assert |"HEAD"| == 4;
    }
    UpperHead();
    var content := Strip(h.value);
    assert content == "ref: " + name;
    assert content[5..] == name;
  }

  /** "HEAD" is recognised in any case, so a branch called "head" cannot be
      reached by name. */
  lemma HeadInAnyCase(head: Option<string>, refs: map<string, string>)
    ensures ResolveRef("head", head, refs) == ResolveRef("HEAD", head, refs)
  {
    assert !IsValidOid("head") by {
      assert |"head"| == 4;
    }
    assert !IsValidOid("HEAD") by {
      assert |"HEAD"| == 4;
    }
    UpperHead();
  }

  lemma UpperHead()
    ensures Upper("HEAD") == "HEAD" && Upper("head") == "HEAD"
  {
    var u := Upper("HEAD");
    assert u[0] == 'H' && u[1] == 'E' && u[2] == 'A' && u[3] == 'D';
    var v := Upper("head");
    assert v[0] == 'H' && v[1] == 'E' && v[2] == 'A' && v[3] == 'D';
  }

  /** A reference is unknown exactly when it is neither an id, nor HEAD,
      nor a branch or tag name. */
  lemma UnknownIff(ref: string, head: Option<string>, refs: map<string, string>)
    ensures ResolveRef(ref, head, refs) == Err(UnknownRevision) <==>
      !IsValidOid(ref) && Upper(ref) != "HEAD" && "refs/heads/" + ref !in refs && "refs/tags/" + ref !in refs
  {
  }

  /** A branch wins over a tag of the same name. */
  lemma BranchBeforeTag(ref: string, head: Option<string>, refs: map<string, string>)
    requires !IsValidOid(ref) && Upper(ref) != "HEAD"
    requires "refs/heads/" + ref in refs
    ensures ResolveRef(ref, head, refs) == Ok(Strip(refs["refs/heads/" + ref]))
  {
  }

  // ---------------------------------------------------------------- commits the project writes

  /** For a commit the project builds, `_get_tree_oid` finds the tree it
      names. */
  lemma TreeOfBuiltCommit(store: map<string, string>, oid: string,
                          tree: Oid, sig: Signature, message: string, parent: Option<string>)
    requires ReadObject(store, oid) == Ok(("commit", CommitContent(tree, sig, message, parent)))
    ensures GetTreeOid(store, oid) == Ok(tree)
  {
    var lines := CommitLines(tree, sig, message, parent);
    var first := "tree " + tree;
    var rest := lines[1..];
    assert lines == [first] + rest;
    assert rest != [];
    var c := CommitContent(tree, sig, message, parent);
    assert c == first + "\n" + JoinWith(rest, '\n') by {
      assert ([first] + rest)[1..] == rest;
    }
    TreeLine(tree);
    FirstLineBeforeBreak(first, JoinWith(rest, '\n'));
  }

  /** A line without line breaks, followed by a newline, is the first line. */
  lemma FirstLineBeforeBreak(first: string, rest: string)
    requires forall j | 0 <= j < |first| :: !IsLineBreak(first[j])
    ensures FirstLine(first + "\n" + rest) == Some(first)
  {
    var c := first + "\n" + rest;
    assert c[|first|] == '\n';
    assert forall j | 0 <= j < |first| :: c[j] == first[j];
    assert c[..|first|] == first;
  }

  /** A `tree <id>` line has no line break, and its second word is the id. */
  lemma TreeLine(tree: Oid)
    ensures forall j | 0 <= j < |"tree " + tree| :: !IsLineBreak(("tree " + tree)[j])
    ensures StartsWith("tree " + tree, "tree ")
    ensures var w := Words("tree " + tree, IsStrSpace); |w| >= 2 && w[1] == tree
  {
    var line := "tree " + tree;
    forall j | 0 <= j < |line| ensures !IsLineBreak(line[j]) {
      if j >= 5 {
        assert line[j] == tree[j - 5];
        assert IsLowerHexChar(tree[j - 5]);
      }
    }
    assert NoneSpace(tree, IsStrSpace) by {
      forall k | 0 <= k < |tree| ensures !IsStrSpace(tree[k]) {
        assert IsLowerHexChar(tree[k]);
      }
    }
    assert line == "tree" + " " + tree;
    WordsPair("tree", tree, IsStrSpace);
  }
}
