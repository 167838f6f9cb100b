/** The `commit` command (git_scratch/commands/porcelain_commit.py): the
    index is stored as trees, HEAD's commit becomes the parent, the commit
    object is written, HEAD's branch is moved to it, and a summary line is
    printed. The author identity and the clock are parameters. */
module Porcelain {
  import opened Common
  import opened Text
  import opened Objects
  import opened Repository
  import opened TreeBuild
  import opened WriteTree
  import opened Commits
  import opened Refs

  /** The verbose summary: `"[<head desc>[ (root-commit)] <oid[:7]>] <message>"`. */
  function Summary(desc: string, root: bool, oid: Oid, message: string): string {
    "[" + desc + (if root then " (root-commit)" else "") + " " + oid[..7] + "] " + message
  }

  lemma SummaryShape(desc: string, root: bool, oid: Oid, message: string, prefix: string)
    requires prefix == "[" + desc + (if root then " (root-commit)" else "")
    ensures prefix + " " + oid[..7] + "]" + " " + message == Summary(desc, root, oid, message)
  {
  }

  /** What the command prints once HEAD has moved: the summary, whose
      description needs HEAD, or the bare id. */
  function Output(verbose: bool, head: Option<string>, root: bool, oid: Oid, message: string): Result<string> {
    if !verbose then Ok(oid)
    else
      match HeadDisplay(head, oid)
      case Err(e) => Err(e)
      case Ok(desc) => Ok(Summary(desc, root, oid, message))
  }

  /** The id of the root tree the command stores for an index. */
  function RootTreeId(hash: string -> Oid, es: seq<IndexEntry>): Oid {
    hash(Frame("tree", RootContent(hash, es)))
  }

  /** `commit(message, verbose)`. The trees are written first, so a later
      failure leaves them stored; an InvalidHeadError or a missing identity
      fails before the commit is written and before any ref moves. On
      success the commit, with HEAD's commit as its parent, is stored, HEAD's
      branch (or main) points at it, and the summary or the bare id is the
      output. */
  method Commit(repo: Repo, message: string, verbose: bool,
                identity: Option<(string, string)>, timestamp: nat, zone: string)
    returns (r: Result<string>)
    modifies repo`store, repo`refs, repo`head
    ensures var es := old(repo.LoadIndex());
      var trees := DedupAll(repo.hash, old(repo.store), TreeFrames(repo.hash, es));
      var parent := HeadCommitOid(old(repo.head), old(repo.refs));
      && (parent.Err? ==> r == Err(InvalidHead) && repo.store == trees
                          && repo.refs == old(repo.refs) && repo.head == old(repo.head))
      && (parent.Ok? && identity.None? ==>
            r == Err(IdentityMissing) && repo.store == trees && repo.refs == old(repo.refs) && repo.head == old(repo.head))
      && (parent.Ok? && identity.Some? ==>
            var sig := Signature(identity.value.0, identity.value.1, timestamp, zone);
            var content := CommitContent(RootTreeId(repo.hash, es), sig, message, parent.value);
            var oid := ObjectId(repo.hash, "commit", content);
            && repo.store == StoreDedup(repo.hash, trees, Frame("commit", content))
            && (repo.head, repo.refs) == UpdateHead(old(repo.head), old(repo.refs), oid)
            && r == Output(verbose, repo.head, parent.value.None?, oid, message))
  {
    var tree := CreateRootTree(repo);
    var parent := HeadCommitOid(repo.head, repo.refs);
    if parent.Err? {
      return Err(InvalidHead);
    }
    var isRoot := parent.value.None?;
    var built := BuildCommitObject(repo, tree, message, parent.value, identity, timestamp, zone);
    if built.Err? {
      return Err(built.error);
    }
    var oid := built.value;
    UpdateHeadToCommit(repo, oid);
    if verbose {
      var desc := HeadDisplay(repo.head, oid);
      if desc.Err? {
        return Err(desc.error);
      }
      var prefix := "[" + desc.value;
      if isRoot {
        prefix := prefix + " (root-commit)";
      } else {
        assert prefix == "[" + desc.value + "";
      }
      SummaryShape(desc.value, isRoot, oid, message, prefix);
      prefix := prefix + " " + oid[..7] + "]";
      return Ok(prefix + " " + message);
    }
    return Ok(oid);
  }

  // ---------------------------------------------------------------- what a commit leaves

  /** After a successful commit, HEAD resolves to the new commit. */
  lemma CommitMovesHead(head: Option<string>, refs: map<string, string>, oid: Oid)
    ensures var (h, rs) := UpdateHead(head, refs, oid);
      HeadCommitOid(h, rs) == Ok(Some(oid))
  {
    ValidFromOid(oid);
    UpdateThenRead(head, refs, oid);
  }

  lemma ValidFromOid(oid: Oid)
    ensures IsValidOid(oid)
  {
    LowerOfLowerHex(oid);
  }

  /** The commit the command writes names the root tree it stored, and its
      parent is the commit HEAD resolved to before, or none when HEAD had no
      commit: a root commit is exactly one without parent. */
  lemma CommitRecordsParent(hash: string -> Oid, es: seq<IndexEntry>, sig: Signature, message: string,
                            head: Option<string>, refs: map<string, string>)
    requires HeadCommitOid(head, refs).Ok?
    requires '\n' !in sig.name && '\n' !in sig.email && '\n' !in sig.zone
    ensures var parent := HeadCommitOid(head, refs).value;
      var c := ParseCommitSpec(CommitContent(RootTreeId(hash, es), sig, message, parent));
      c.tree == Some(RootTreeId(hash, es)) && c.parent == parent
      && (c.parent.None? <==> parent.None?)
  {
    var parent := HeadCommitOid(head, refs).value;
    var tree := RootTreeId(hash, es);
    OidPlain(tree);
    if parent.Some? {
      ValidOidPlain(parent.value);
      ValidNoSpace(parent.value);
    }
    ParseBuiltCommit(tree, sig, message, parent);
  }

  /** An id holds neither a space nor a newline. */
  lemma OidPlain(oid: Oid)
    ensures ' ' !in oid && '\n' !in oid
  {
    forall k | 0 <= k < |oid| ensures oid[k] != ' ' && oid[k] != '\n' {
      assert IsLowerHexChar(oid[k]);
    }
  }

  lemma ValidNoSpace(s: string)
    requires IsValidOid(s)
    ensures s != "" && ' ' !in s && '\n' !in s
  {
    forall k | 0 <= k < |s| ensures s[k] != ' ' && s[k] != '\n' {
      assert IsLowerHexChar(Lower(s)[k]);
    }
  }

  /** Once HEAD has moved, printing cannot fail: the quiet output is the
      id, the verbose one the summary with HEAD's description. */
  lemma CommitPrints(head: Option<string>, refs: map<string, string>, oid: Oid, root: bool, message: string)
    ensures var h := UpdateHead(head, refs, oid).0;
      && Output(false, h, root, oid, message) == Ok(oid)
      && HeadDisplay(h, oid).Ok?
      && Output(true, h, root, oid, message) == Ok(Summary(HeadDisplay(h, oid).value, root, oid, message))
  {
  }
}
