/** HEAD and branch refs: reading HEAD's commit, moving the current branch to
    a new commit, and the description of HEAD a commit summary shows
    (git_scratch/utils/refs.py), with the older reader and writer of
    git_scratch/utils/porcelain_commit.py beside them. A ref is named by its
    path relative to `.git`; `head` is the text of `.git/HEAD`. */
module Refs {
  import opened Common
  import opened Text
  import opened Repository

  /** `_is_valid_oid`: 40 characters that are hexadecimal digits once lower-cased. */
  predicate IsValidOid(s: string) {
    |s| == 40 && AllLowerHex(Lower(s))
  }

  predicate IsHexDigitEitherCase(c: char) {
    ('0' <= c <= '9') || ('a' <= c <= 'f') || ('A' <= c <= 'F')
  }

  /** A valid id is exactly 40 hexadecimal digits, in either case. */
  lemma ValidOidIff(s: string)
    ensures IsValidOid(s) <==> |s| == 40 && forall k | 0 <= k < |s| :: IsHexDigitEitherCase(s[k])
  {
    if |s| == 40 {
      if IsValidOid(s) {
        forall k | 0 <= k < |s| ensures IsHexDigitEitherCase(s[k]) {
          assert IsLowerHexChar(Lower(s)[k]);
        }
      }
      if forall k | 0 <= k < |s| :: IsHexDigitEitherCase(s[k]) {
        forall k | 0 <= k < |s| ensures IsLowerHexChar(Lower(s)[k]) {
          assert IsHexDigitEitherCase(s[k]);
        }
      }
    }
  }

  /** The ref a HEAD text names, when it is symbolic (`"ref: <name>"`
      once stripped). */
  function SymbolicRef(head: string): (r: Option<string>)
    ensures r.Some? <==> StartsWith(Strip(head), "ref: ")
    ensures r.Some? ==> Strip(head) == "ref: " + r.value
  {
    var content := Strip(head);
    if StartsWith(content, "ref: ") then
      assert content == content[..5] + content[5..];
      Some(content[5..])
    else None
  }

  // ---------------------------------------------------------------- refs.py

  /** `get_head_commit_oid` of refs.py: no HEAD, or a symbolic HEAD whose
      branch has no ref file, is no commit; the id found must be valid,
      otherwise the result is an InvalidHeadError. */
  function HeadCommitOid(head: Option<string>, refs: map<string, string>): (r: Result<Option<string>>)
    ensures r.Ok? && r.value.Some? ==> IsValidOid(r.value.value)
    ensures head.None? ==> r == Ok(None)
    ensures head.Some? && SymbolicRef(head.value).Some? ==>
      var name := SymbolicRef(head.value).value;
      && (name !in refs ==> r == Ok(None))
      && (name in refs ==> r == if IsValidOid(Strip(refs[name])) then Ok(Some(Strip(refs[name]))) else Err(InvalidHead))
    ensures head.Some? && SymbolicRef(head.value).None? ==>
      r == if IsValidOid(Strip(head.value)) then Ok(Some(Strip(head.value))) else Err(InvalidHead)
  {
    if head.None? then Ok(None)
    else
      var content := Strip(head.value);
      if StartsWith(content, "ref: ") then
        var name := content[5..];
        if name !in refs then Ok(None)
        else
          var oid := Strip(refs[name]);
          if IsValidOid(oid) then Ok(Some(oid)) else Err(InvalidHead)
      else if IsValidOid(content) then Ok(Some(content))
      else Err(InvalidHead)
  }

  /** The branch `update_head_to_commit` falls back to. */
  const MainRef := "refs/heads/main"

  /** The HEAD text attached to main, `ref: refs/heads/main` and a newline. */
  const MainHead := "ref: " + MainRef + "\n"

  /** The HEAD text and ref files after `update_head_to_commit(oid)`: with a
      symbolic HEAD its branch is overwritten and HEAD is left alone;
      otherwise the branch main gets the id and HEAD is attached to it. */
  function UpdateHead(head: Option<string>, refs: map<string, string>, oid: string): (Option<string>, map<string, string>) {
    if head.None? || SymbolicRef(head.value).None? then
      (Some(MainHead), refs[MainRef := oid + "\n"])
    else (head, refs[SymbolicRef(head.value).value := oid + "\n"])
  }

  /** `update_head_to_commit` of refs.py. */
  method UpdateHeadToCommit(repo: Repo, oid: string)
    modifies repo`refs, repo`head
    ensures (repo.head, repo.refs) == UpdateHead(old(repo.head), old(repo.refs), oid)
  {
    ghost var h0, r0 := repo.head, repo.refs;
    if repo.head.None? || !StartsWith(Strip(repo.head.value), "ref: ") {
      assert h0.None? || SymbolicRef(h0.value).None?;
      repo.WriteRef(MainRef, oid + "\n");
      repo.SetHead(MainHead);
      assert (repo.head, repo.refs) == (Some(MainHead), r0[MainRef := oid + "\n"]);
      return;
    }
    var content := Strip(repo.head.value);
    var name := content[5..];
    assert SymbolicRef(h0.value) == Some(name);
    repo.WriteRef(name, oid + "\n");
  }

  /** `get_head_display(oid)`: the branch name for a branch under
      refs/heads, any other symbolic target whole, and otherwise
      "HEAD detached at" the first seven characters of `oid`; reading a
      missing HEAD fails. */
  function HeadDisplay(head: Option<string>, oid: string): (r: Result<string>)
    ensures head.None? <==> r == Err(NotFound)
    ensures head.Some? && SymbolicRef(head.value).Some? ==>
      var target := SymbolicRef(head.value).value;
      r == Ok(if StartsWith(target, "refs/heads/") then target[11..] else target)
    ensures head.Some? && SymbolicRef(head.value).None? ==>
      r == Ok("HEAD detached at " + oid[..if |oid| < 7 then |oid| else 7])
  {
    if head.None? then Err(NotFound)
    else
      var content := Strip(head.value);
      if StartsWith(content, "ref: ") then
        var target := content[5..];
        if StartsWith(target, "refs/heads/") then Ok(target[11..]) else Ok(target)
      else Ok("HEAD detached at " + oid[..if |oid| < 7 then |oid| else 7])
  }

  // ---------------------------------------------------------------- what the update leaves

  lemma ValidOidPlain(oid: string)
    requires IsValidOid(oid)
    ensures oid != [] && !IsStrSpace(oid[0]) && !IsStrSpace(oid[|oid| - 1])
    ensures !StartsWith(oid, "ref:")
  {
    assert IsLowerHexChar(Lower(oid)[0]);
    assert IsLowerHexChar(Lower(oid)[39]);
    assert oid[..4][0] == oid[0] != 'r';
  }

  /** `"ref: <name>\n"` names `name`. */
  lemma SymbolicLine(name: string)
    requires name != [] && !IsStrSpace(name[|name| - 1])
    ensures SymbolicRef("ref: " + name + "\n") == Some(name)
  {
    var s := "ref: " + name;
    StripPlainText(s);
    assert s[..5] == "ref: ";
    assert s[5..] == name;
  }

  lemma MainHeadIsSymbolic()
    ensures SymbolicRef(MainHead) == Some(MainRef)
  {
    SymbolicLine(MainRef);
  }

  /** After `update_head_to_commit(oid)` with a valid id, HEAD is symbolic,
      and `get_head_commit_oid` reads back exactly that id. */
  lemma UpdateThenRead(head: Option<string>, refs: map<string, string>, oid: string)
    requires IsValidOid(oid)
    ensures var (h, rs) := UpdateHead(head, refs, oid);
      h.Some? && SymbolicRef(h.value).Some? && HeadCommitOid(h, rs) == Ok(Some(oid))
  {
    ValidOidPlain(oid);
    StripPlainText(oid);
    var (h, rs) := UpdateHead(head, refs, oid);
    if head.None? || SymbolicRef(head.value).None? {
      MainHeadIsSymbolic();
      assert h == Some(MainHead) && MainRef in rs && rs[MainRef] == oid + "\n";
    } else {
      var name := SymbolicRef(head.value).value;
      assert h == head && name in rs && rs[name] == oid + "\n";
    }
  }

  /** A symbolic HEAD stays as it is, and only the ref it names changes;
      otherwise only the branch main and HEAD change. */
  lemma UpdateTouchesOneRef(head: Option<string>, refs: map<string, string>, oid: string, other: string)
    ensures var (h, rs) := UpdateHead(head, refs, oid);
      var target := if head.Some? && SymbolicRef(head.value).Some? then SymbolicRef(head.value).value else MainRef;
      && target in rs && rs[target] == oid + "\n"
      && (other != target ==> (other in rs <==> other in refs) && (other in refs ==> rs[other] == refs[other]))
      && (head.Some? && SymbolicRef(head.value).Some? ==> h == head)
  {
  }

  /** After a commit on a missing or detached HEAD, the summary names the
      branch main. */
  lemma DisplayAfterDetachedUpdate(head: Option<string>, refs: map<string, string>, oid: string)
    requires head.None? || SymbolicRef(head.value).None?
    ensures HeadDisplay(UpdateHead(head, refs, oid).0, oid) == Ok("main")
  {
    MainHeadIsSymbolic();
    assert UpdateHead(head, refs, oid).0 == Some(MainHead);
    assert StartsWith(MainRef, "refs/heads/") by {
      assert MainRef[..11] == "refs/heads/";
    }
    assert MainRef[11..] == "main";
  }

  // ---------------------------------------------------------------- porcelain_commit.py

  /** The older `get_head_commit_oid`: a symbolic HEAD gives its branch's
      stripped contents without checking them; a detached HEAD counts only
      when it is 40 lower-case hexadecimal digits; anything else is no
      commit rather than an error. */
  function HeadCommitOidOld(head: Option<string>, refs: map<string, string>): (r: Option<string>)
    ensures head.None? ==> r.None?
    ensures head.Some? && SymbolicRef(head.value).Some? ==>
      var name := SymbolicRef(head.value).value;
      r == if name in refs then Some(Strip(refs[name])) else None
    ensures head.Some? && SymbolicRef(head.value).None? ==>
      r == if IsOid(Strip(head.value)) then Some(Strip(head.value)) else None
  {
    if head.None? then None
    else
      var content := Strip(head.value);
      if StartsWith(content, "ref: ") then
        var name := content[5..];
        if name in refs then Some(Strip(refs[name])) else None
      else if |content| == 40 && AllLowerHex(content) then Some(content)
      else None
  }

  /** The older `update_head_to_commit`: the same test and the same writes
      as the one in refs.py. */
  method UpdateHeadToCommitOld(repo: Repo, oid: string)
    modifies repo`refs, repo`head
    ensures (repo.head, repo.refs) == UpdateHead(old(repo.head), old(repo.refs), oid)
  {
    ghost var h0, r0 := repo.head, repo.refs;
    if repo.head.None? || !StartsWith(Strip(repo.head.value), "ref: ") {
      assert h0.None? || SymbolicRef(h0.value).None?;
      repo.WriteRef(MainRef, oid + "\n");
      repo.SetHead(MainHead);
      assert (repo.head, repo.refs) == (Some(MainHead), r0[MainRef := oid + "\n"]);
      return;
    }
    var headContent := Strip(repo.head.value);
    var refName := headContent[5..];
    assert SymbolicRef(h0.value) == Some(refName);
    repo.WriteRef(refName, oid + "\n");
  }

  /** Where the newer reader finds a commit, the older one finds the same,
      unless HEAD is detached at an id with upper-case digits; where the
      older one finds nothing, the newer one finds nothing or fails. */
  lemma HeadReadersAgree(head: Option<string>, refs: map<string, string>)
    ensures HeadCommitOid(head, refs).Ok? && HeadCommitOid(head, refs).value.Some?
      && (head.Some? && SymbolicRef(head.value).None? ==> IsOid(HeadCommitOid(head, refs).value.value))
      ==> HeadCommitOidOld(head, refs) == HeadCommitOid(head, refs).value
    ensures HeadCommitOidOld(head, refs).None? && HeadCommitOid(head, refs).Ok? && HeadCommitOid(head, refs).value.Some? ==>
      head.Some? && SymbolicRef(head.value).None? && !IsOid(HeadCommitOid(head, refs).value.value)
  {
    if head.Some? && SymbolicRef(head.value).None? && IsOid(Strip(head.value)) {
      LowerOfLowerHex(Strip(head.value));
    }
  }

  lemma LowerOfLowerHex(s: string)
    requires AllLowerHex(s)
    ensures Lower(s) == s
  {
  }

  /** A HEAD detached at a valid id with an upper-case digit: the newer
      reader accepts it, the older one ignores it. */
  lemma UpperCaseDetachedHead(h: string, refs: map<string, string>)
    requires IsValidOid(h) && !IsOid(h)
    ensures HeadCommitOid(Some(h), refs) == Ok(Some(h)) && HeadCommitOidOld(Some(h), refs).None?
  {
    DetachedAccepted(h, refs);
    DetachedIgnoredByOld(h, refs);
  }

  lemma DetachedAccepted(h: string, refs: map<string, string>)
    requires IsValidOid(h)
    ensures HeadCommitOid(Some(h), refs) == Ok(Some(h))
  {
    DetachedPlain(h);
  }

  lemma DetachedIgnoredByOld(h: string, refs: map<string, string>)
    requires IsValidOid(h) && !IsOid(h)
    ensures HeadCommitOidOld(Some(h), refs).None?
  {
    DetachedPlain(h);
  }

  /** A valid id is a detached HEAD text as it stands. */
  lemma DetachedPlain(h: string)
    requires IsValidOid(h)
    ensures Strip(h) == h && SymbolicRef(h).None?
  {
    ValidOidPlain(h);
    StripPlainText(h);
    assert IsLowerHexChar(Lower(h)[0]);
    HexIsNotR(h[0]);
  }

  lemma HexIsNotR(c: char)
    requires IsLowerHexChar(LowerChar(c))
    ensures c != 'r'
  {
  }

  /** Such ids exist: "A" followed by 39 zeros. */
  lemma UpperCaseIdIsValid()
    ensures var h := ['A'] + seq(39, k => '0'); IsValidOid(h) && !IsOid(h)
  {
    var h := ['A'] + seq(39, k => '0');
    forall k | 0 <= k < |h| ensures IsHexDigitEitherCase(h[k]) {
      if k > 0 { assert h[k] == '0'; }
    }
    ValidOidIff(h);
    assert !IsLowerHexChar(h[0]);
  }

}
