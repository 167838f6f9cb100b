/** The `checkout` command (git_scratch/commands/checkout.py). With `-b` a
    new branch is created at a base commit (the start point, or HEAD's
    commit), HEAD is attached to it, and the working directory and the index
    are rebuilt from the base. Otherwise the target is resolved, a dirty
    working directory refuses the switch, HEAD is attached to the branch or
    detached at the id, and the working directory and the index are rebuilt
    from the commit. Every check checkout.py makes itself comes before the
    first write; the commit is read only after HEAD has moved, so a target
    that is not a readable commit fails with the new ref and HEAD in place. */
module Checkout {
  import opened Common
  import opened Text
  import opened Objects
  import opened Repository
  import opened TreeWalk
  import opened Refs
  import opened Reset
  import opened CheckoutUtils
  import opened Commits
  import Dicts

  /** Python truthiness of an optional string argument. */
  predicate Given(o: Option<string>) {
    o.Some? && o.value != ""
  }

  // ---------------------------------------------------------------- resolve_target_to_oid

  /** `resolve_target_to_oid(target)` of checkout.py: an existing branch's
      stripped text; otherwise 40 hexadecimal digits of either case, kept as
      written; otherwise nothing. */
  function ResolveTargetToOid(target: string, refs: map<string, string>): (r: Option<string>)
    ensures "refs/heads/" + target in refs ==> r == Some(Strip(refs["refs/heads/" + target]))
    ensures r.None? <==> "refs/heads/" + target !in refs && !IsValidOid(target)
  {
    var name := "refs/heads/" + target;
    if name in refs then Some(Strip(refs[name]))
    else if IsValidOid(target) then Some(target)
    else None
  }

  /** A valid id that is not a branch name is taken as written, upper-case
      digits included. */
  lemma IdTakenAsWritten(target: string, refs: map<string, string>)
    requires "refs/heads/" + target !in refs && IsValidOid(target)
    ensures ResolveTargetToOid(target, refs) == Some(target)
  {
  }

  /** Where this resolver answers, it agrees with the one in
      checkout_utils.py, which passes any other target through. */
  lemma ResolversAgree(target: string, refs: map<string, string>)
    ensures ResolveTargetToOid(target, refs).Some? ==> ResolveTargetToOid(target, refs) == Some(ResolveTarget(target, refs))
    ensures ResolveTargetToOid(target, refs).None? ==> ResolveTarget(target, refs) == target
  {
  }

  // ---------------------------------------------------------------- update_index_from_commit

  /** The index `update_index_from_commit(oid)` saves: the flattened tree of
      the commit, found with the reset command's `_get_tree_oid`. */
  function IndexFromCommit(store: map<string, string>, oid: string, fuel: nat): Result<seq<IndexEntry>> {
    match GetTreeOid(store, oid)
    case Err(e) => Err(e)
    case Ok(tree) => Walk(store, tree, "", fuel)
  }

  method UpdateIndexFromCommit(repo: Repo, oid: string, fuel: nat) returns (err: Option<Failure>)
    modifies repo`index
    ensures var want := IndexFromCommit(repo.store, oid, fuel);
      && (want.Ok? ==> err.None? && repo.index == Some(want.value))
      && (want.Err? ==> err == Some(want.error) && repo.index == old(repo.index))
  {
    var tree := GetTreeOid(repo.store, oid);
    if tree.Err? {
      return Some(tree.error);
    }
    var entries := EntriesFromTree(repo, tree.value, "", fuel);
    if entries.Err? {
      return Some(entries.error);
    }
    repo.SaveIndex(entries.value);
    return None;
  }

  /** For a commit the project builds over a tree it stored, the index
      becomes that tree's flattening. */
  lemma IndexOfBuiltCommit(store: map<string, string>, oid: string, tree: Oid, sig: Signature,
                           message: string, parent: Option<string>, fuel: nat)
    requires ReadObject(store, oid) == Ok(("commit", CommitContent(tree, sig, message, parent)))
    ensures IndexFromCommit(store, oid, fuel) == Walk(store, tree, "", fuel)
  {
    TreeOfBuiltCommit(store, oid, tree, sig, message, parent);
  }

  // ---------------------------------------------------------------- checkout

  /** The shared tail of both modes: the working directory is restored from
      the commit, then the index is rebuilt from it. */
  function Finish(store: map<string, string>, s: RepoState, oid: string, fuel: nat, msg: string): Outcome {
    var restored := RestoreSpec(store, oid, s.workdir);
    var s1 := s.(workdir := restored.0);
    if restored.1.Some? then Outcome(s1, Err(restored.1.value))
    else
      match IndexFromCommit(store, oid, fuel)
      case Err(e) => Outcome(s1, Err(e))
      case Ok(es) => Outcome(s1.(index := Some(es)), Ok(msg))
  }

  function NewBranchMessage(name: string): string {
    "Switched to a new branch '" + name + "'"
  }

  function SwitchMessage(target: string): string {
    "Checked out " + target
  }

  /** The base of `-b`: the start point when given, otherwise HEAD's commit. */
  function Base(s: RepoState, start: Option<string>): Result<string> {
    if Given(start) then Ok(start.value) else GetOidFromRef("HEAD", s.head, s.refs)
  }

  /** `checkout -b name [start]`: the base must be a readable object and the
      branch must not exist; then the ref is written, HEAD is attached to it,
      and the rest follows. No dirty check is made. */
  function NewBranchSpec(store: map<string, string>, s: RepoState, name: string, start: Option<string>, fuel: nat): Outcome {
    match Base(s, start)
    case Err(e) => Outcome(s, Err(e))
    case Ok(base) =>
      match ReadObjectLoose(store, base)
      case Err(e) => Outcome(s, Err(e))
      case Ok(_) =>
        var ref := "refs/heads/" + name;
        if ref in s.refs then Outcome(s, Err(RefExists))
        else
          var switched := s.(refs := s.refs[ref := base + "\n"], head := Some("ref: refs/heads/" + name + "\n"));
          Finish(store, switched, base, fuel, NewBranchMessage(name))
  }

  /** `checkout target`: a target is required and must resolve, and the
      working directory must be clean; then HEAD is attached to the branch,
      or detached at the id, and the rest follows. */
  function SwitchSpec(store: map<string, string>, s: RepoState, target: Option<string>, fuel: nat): Outcome {
    if !Given(target) then Outcome(s, Err(Usage))
    else
      match ResolveTargetToOid(target.value, s.refs)
      case None => Outcome(s, Err(UnknownRevision))
      case Some(oid) =>
        match DirtySpec(store, s.head, s.refs, s.workdir, fuel)
        case Err(e) => Outcome(s, Err(e))
        case Ok(dirty) =>
          if dirty then Outcome(s, Err(DirtyWorkdir))
          else
            var head := if "refs/heads/" + target.value in s.refs then "ref: refs/heads/" + target.value + "\n" else oid + "\n";
            Finish(store, s.(head := Some(head)), oid, fuel, SwitchMessage(target.value))
  }

  function CheckoutSpec(store: map<string, string>, s: RepoState, target: Option<string>, b: Option<string>,
                        start: Option<string>, fuel: nat): Outcome
  {
    if Given(b) then NewBranchSpec(store, s, b.value, start, fuel) else SwitchSpec(store, s, target, fuel)
  }

  /** Restores the working directory, then rebuilds the index. */
  method RestoreAndIndex(repo: Repo, oid: string, fuel: nat, msg: string) returns (r: Result<string>)
    modifies repo`workdir, repo`index
    ensures Finish(repo.store, old(repo.State()), oid, fuel, msg) == Outcome(repo.State(), r)
  {
    var err := RestoreWorkingDir(repo, oid);
    if err.Some? {
      return Err(err.value);
    }
    var ierr := UpdateIndexFromCommit(repo, oid, fuel);
    if ierr.Some? {
      return Err(ierr.value);
    }
    return Ok(msg);
  }

  method CheckoutCommand(repo: Repo, target: Option<string>, b: Option<string>, start: Option<string>, fuel: nat)
    returns (r: Result<string>)
    modifies repo`refs, repo`head, repo`index, repo`workdir
    ensures CheckoutSpec(repo.store, old(repo.State()), target, b, start, fuel) == Outcome(repo.State(), r)
  {
    ghost var s := repo.State();
    if b.Some? && b.value != "" {
      var name := b.value;
      var base: string;
      if start.Some? && start.value != "" {
        base := start.value;
      } else {
        var found := GetOidFromRef("HEAD", repo.head, repo.refs);
        if found.Err? {
          return Err(found.error);
        }
        base := found.value;
      }
      assert Base(s, start) == Ok(base);
      var obj := ReadObjectLoose(repo.store, base);
      if obj.Err? {
        return Err(obj.error);
      }
      var refPath := "refs/heads/" + name;
      if refPath in repo.refs {
        return Err(RefExists);
      }
      WriteRefFile(repo, refPath, base);
      repo.SetHead("ref: refs/heads/" + name + "\n");
      assert repo.State() == s.(refs := s.refs[refPath := base + "\n"], head := Some("ref: refs/heads/" + name + "\n"));
      r := RestoreAndIndex(repo, base, fuel, NewBranchMessage(name));
      return;
    }
    if target.None? || target.value == "" {
      return Err(Usage);
    }
    var oid := ResolveTargetToOid(target.value, repo.refs);
    if oid.None? {
      return Err(UnknownRevision);
    }
    var dirty := DetectDirtyWorkdir(repo, fuel);
    if dirty.Err? {
      return Err(dirty.error);
    }
    if dirty.value {
      return Err(DirtyWorkdir);
    }
    var branchRef := "refs/heads/" + target.value;
    if branchRef in repo.refs {
      repo.SetHead("ref: refs/heads/" + target.value + "\n");
    } else {
      repo.SetHead(oid.value + "\n");
    }
    r := RestoreAndIndex(repo, oid.value, fuel, SwitchMessage(target.value));
  }

  // ---------------------------------------------------------------- what a checkout leaves

  /** The shared tail moves neither refs nor HEAD; the working directory is
      the restored one, and on success the index is the commit's tree. */
  lemma FinishLeaves(store: map<string, string>, s: RepoState, oid: string, fuel: nat, msg: string)
    ensures var o := Finish(store, s, oid, fuel, msg);
      && o.state.refs == s.refs && o.state.head == s.head
      && o.state.workdir == RestoreSpec(store, oid, s.workdir).0
      && (o.out.Ok? ==> o.out == Ok(msg) && IndexFromCommit(store, oid, fuel).Ok?
                        && o.state.index == Some(IndexFromCommit(store, oid, fuel).value))
      && (o.out.Err? ==> o.state.index == s.index)
  {
  }

  /** -b: a base that cannot be found or read aborts before any change. */
  lemma MissingBaseAborts(store: map<string, string>, s: RepoState, target: Option<string>, b: Option<string>,
                          start: Option<string>, fuel: nat)
    requires Given(b)
    requires Base(s, start).Err? || ReadObjectLoose(store, Base(s, start).value).Err?
    ensures var o := CheckoutSpec(store, s, target, b, start, fuel);
      o.state == s && o.out.Err?
      && (Base(s, start).Ok? && Base(s, start).value !in store ==> o.out == Err(NotFound))
  {
  }

  /** -b: an existing branch of that name aborts before any change. */
  lemma ExistingBranchAborts(store: map<string, string>, s: RepoState, target: Option<string>, b: Option<string>,
                             start: Option<string>, fuel: nat)
    requires Given(b) && Base(s, start).Ok? && ReadObjectLoose(store, Base(s, start).value).Ok?
    requires "refs/heads/" + b.value in s.refs
    ensures CheckoutSpec(store, s, target, b, start, fuel) == Outcome(s, Err(RefExists))
  {
  }

  /** -b: once the base is readable and the name is new, the branch is
      written and HEAD attached to it whatever the working directory holds
      (no dirty check); on success the working directory and the index come
      from the base commit, and HEAD's commit is the base. */
  lemma NewBranchCreated(store: map<string, string>, s: RepoState, target: Option<string>, b: Option<string>,
                         start: Option<string>, fuel: nat)
    requires Given(b) && Base(s, start).Ok? && ReadObjectLoose(store, Base(s, start).value).Ok?
    requires "refs/heads/" + b.value !in s.refs
    ensures var base := Base(s, start).value;
      var o := CheckoutSpec(store, s, target, b, start, fuel);
      && o.state.refs == s.refs["refs/heads/" + b.value := base + "\n"]
      && o.state.head == Some("ref: refs/heads/" + b.value + "\n")
      && o.state.workdir == RestoreSpec(store, base, s.workdir).0
      && (o.out.Ok? ==> o.state.index == Some(IndexFromCommit(store, base, fuel).value))
  {
    var base := Base(s, start).value;
    var s1 := s.(refs := s.refs["refs/heads/" + b.value := base + "\n"], head := Some("ref: refs/heads/" + b.value + "\n"));
    assert CheckoutSpec(store, s, target, b, start, fuel) == Finish(store, s1, base, fuel, NewBranchMessage(b.value));
    FinishLeaves(store, s1, base, fuel, NewBranchMessage(b.value));
  }

  /** After -b, HEAD names the new branch, which holds the base. */
  /** HEAD attached to a branch gives that branch's stripped text. */
  lemma AttachedHead(name: string, refs: map<string, string>)
    requires name != [] && !IsStrSpace(name[|name| - 1])
    ensures GetOidFromRef("HEAD", Some("ref: refs/heads/" + name + "\n"), refs)
      == if "refs/heads/" + name in refs then Ok(Strip(refs["refs/heads/" + name])) else Err(NotFound)
  {
    var ref := "refs/heads/" + name;
    assert "ref: refs/heads/" + name + "\n" == "ref: " + ref + "\n";
    OidFromHead(ref, refs, "x");
  }

  lemma NewBranchHead(name: string, base: string, refs: map<string, string>)
    requires name != [] && !IsStrSpace(name[|name| - 1])
    requires base != [] && !IsStrSpace(base[0]) && !IsStrSpace(base[|base| - 1])
    ensures GetOidFromRef("HEAD", Some("ref: refs/heads/" + name + "\n"), refs["refs/heads/" + name := base + "\n"]) == Ok(base)
  {
    AttachedHead(name, refs["refs/heads/" + name := base + "\n"]);
    StripPlainText(base);
  }

  /** Without -b, a missing or unresolvable target aborts with nothing
      changed. */
  lemma NoTargetAborts(store: map<string, string>, s: RepoState, target: Option<string>, b: Option<string>,
                       start: Option<string>, fuel: nat)
    requires !Given(b)
    requires !Given(target) || ResolveTargetToOid(target.value, s.refs).None?
    ensures var o := CheckoutSpec(store, s, target, b, start, fuel);
      o.state == s && o.out == (if !Given(target) then Err(Usage) else Err(UnknownRevision))
  {
  }

  /** Without -b, a dirty working directory, or a failure deciding whether
      it is dirty, aborts before HEAD, the index or any file changes. */
  lemma DirtyAborts(store: map<string, string>, s: RepoState, target: Option<string>, b: Option<string>,
                    start: Option<string>, fuel: nat)
    requires !Given(b) && Given(target) && ResolveTargetToOid(target.value, s.refs).Some?
    requires DirtySpec(store, s.head, s.refs, s.workdir, fuel) != Ok(false)
    ensures var o := CheckoutSpec(store, s, target, b, start, fuel);
      o.state == s && o.out.Err?
      && (DirtySpec(store, s.head, s.refs, s.workdir, fuel) == Ok(true) ==> o.out == Err(DirtyWorkdir))
  {
  }

  /** Without -b, once the working directory is clean, HEAD is attached to
      the target when it is a branch and detached at the resolved id
      otherwise; no ref file changes. */
  lemma SwitchMovesHead(store: map<string, string>, s: RepoState, target: Option<string>, b: Option<string>,
                        start: Option<string>, fuel: nat)
    requires !Given(b) && Given(target) && ResolveTargetToOid(target.value, s.refs).Some?
    requires DirtySpec(store, s.head, s.refs, s.workdir, fuel) == Ok(false)
    ensures var oid := ResolveTargetToOid(target.value, s.refs).value;
      var o := CheckoutSpec(store, s, target, b, start, fuel);
      && o.state.refs == s.refs
      && o.state.head == Some(if "refs/heads/" + target.value in s.refs then "ref: refs/heads/" + target.value + "\n" else oid + "\n")
      && o.state.workdir == RestoreSpec(store, oid, s.workdir).0
      && (o.out.Ok? ==> o.state.index == Some(IndexFromCommit(store, oid, fuel).value))
  {
    var t := target.value;
    var oid := ResolveTargetToOid(t, s.refs).value;
    var head := if "refs/heads/" + t in s.refs then "ref: refs/heads/" + t + "\n" else oid + "\n";
    assert CheckoutSpec(store, s, target, b, start, fuel) == Finish(store, s.(head := Some(head)), oid, fuel, SwitchMessage(t));
    FinishLeaves(store, s.(head := Some(head)), oid, fuel, SwitchMessage(t));
  }

  /** After a switch, HEAD's commit is the resolved id. */
  lemma SwitchHeadResolves(t: string, refs: map<string, string>)
    requires t != [] && !IsStrSpace(t[|t| - 1]) && ResolveTargetToOid(t, refs).Some?
    ensures var oid := ResolveTargetToOid(t, refs).value;
      var head := if "refs/heads/" + t in refs then "ref: refs/heads/" + t + "\n" else oid + "\n";
      GetOidFromRef("HEAD", Some(head), refs) == Ok(oid)
  {
    if "refs/heads/" + t in refs {
      AttachedHead(t, refs);
    } else {
      ValidOidPlain(t);
      OidFromHead("x", refs, t);
    }
  }

  /** Whatever the mode, a successful checkout leaves the index equal to the
      flattened tree of the commit checked out, and the working directory
      holding exactly that commit's top-level files. */
  lemma IndexIsCheckedOutTree(store: map<string, string>, s: RepoState, oid: string, fuel: nat, msg: string, p: string)
    requires Finish(store, s, oid, fuel, msg).out.Ok?
    ensures IndexFromCommit(store, oid, fuel).Ok? && GetCommitTree(store, oid).Ok?
    ensures ReadTreeSpec(store, GetCommitTree(store, oid).value).Ok?
    ensures var o := Finish(store, s, oid, fuel, msg);
      && o.state.index == Some(IndexFromCommit(store, oid, fuel).value)
      && (p in o.state.workdir <==> p in Dicts.Keys(ReadTreeSpec(store, GetCommitTree(store, oid).value).value))
  {
    RestoreResult(store, oid, s.workdir, p, 0);
  }
}
