/** `find_git_dir` (git_scratch/utils/find_git_dir.py): from a resolved
    starting directory, climb towards the root and stop at the first
    directory that holds a `.git` directory. A path is the sequence of its
    components below the root; the root is `[]` and is its own parent. The
    file system is the set of paths that are directories. */
module FindGitDir {
  import opened Common

  /** `Path.parent`: the root is its own parent. */
  function Parent(path: seq<string>): (p: seq<string>)
    ensures p == path <==> path == []
    ensures path != [] ==> p == path[..|path| - 1]
  {
    if path == [] then [] else path[..|path| - 1]
  }

  /** `path / ".git"`. */
  function GitPath(path: seq<string>): seq<string> {
    path + [".git"]
  }

  /** The answer of the climb from `path`. */
  function FindFrom(dirs: set<seq<string>>, path: seq<string>): Result<seq<string>>
    decreases |path|
  {
    if GitPath(path) in dirs then Ok(GitPath(path))
    else if Parent(path) == path then Err(NotFound)
    else FindFrom(dirs, Parent(path))
  }

  /** The loop of `find_git_dir`; each round moves to a strictly shorter
      path, so it ends at the root at the latest. */
  method FindGitDirFrom(dirs: set<seq<string>>, start: seq<string>) returns (r: Result<seq<string>>)
    ensures r == FindFrom(dirs, start)
  {
    var path := start;
    while true
      invariant FindFrom(dirs, path) == FindFrom(dirs, start)
      decreases |path|
    {
      var gitPath := path + [".git"];
      if gitPath in dirs {
        return Ok(gitPath);
      }
      var parent := Parent(path);
      if parent == path {
        return Err(NotFound);
      }
      path := parent;
    }
  }

  /** The starting directory is looked at first. */
  lemma StartFirst(dirs: set<seq<string>>, start: seq<string>)
    requires GitPath(start) in dirs
    ensures FindFrom(dirs, start) == Ok(start + [".git"])
  {
  }

  /** Whatever is found is the `.git` of an ancestor of the start, itself
      included. */
  lemma {:induction false} FoundIsAncestor(dirs: set<seq<string>>, start: seq<string>)
    ensures FindFrom(dirs, start).Ok? ==>
      exists k | 0 <= k <= |start| :: FindFrom(dirs, start).value == GitPath(start[..k]) && GitPath(start[..k]) in dirs
    decreases |start|
  {
    if GitPath(start) in dirs {
      assert start[..|start|] == start;
    } else if start != [] {
      var p := Parent(start);
      FoundIsAncestor(dirs, p);
      if FindFrom(dirs, p).Ok? {
        var k :| 0 <= k <= |p| && FindFrom(dirs, p).value == GitPath(p[..k]) && GitPath(p[..k]) in dirs;
        assert p[..k] == start[..k];
      }
    }
  }

  /** The ancestor at depth `k` is the answer exactly when it holds `.git`
      and no deeper ancestor does: the nearest one wins. */
  lemma {:induction false} NearestWins(dirs: set<seq<string>>, start: seq<string>, k: nat)
    requires k <= |start|
    ensures FindFrom(dirs, start) == Ok(GitPath(start[..k]))
      <==> GitPath(start[..k]) in dirs && forall j | k < j <= |start| :: GitPath(start[..j]) !in dirs
    decreases |start|
  {
    assert start[..|start|] == start;
    if k < |start| {
      if GitPath(start) in dirs {
        assert |GitPath(start)| != |GitPath(start[..k])|;
      } else {
        var p := Parent(start);
        NearestWins(dirs, p, k);
        assert p[..k] == start[..k];
        assert forall j | k < j <= |p| :: p[..j] == start[..j];
      }
    } else if GitPath(start) !in dirs && start != [] {
      var p := Parent(start);
      FoundIsAncestor(dirs, p);
      if FindFrom(dirs, p).Ok? {
        var i :| 0 <= i <= |p| && FindFrom(dirs, p).value == GitPath(p[..i]) && GitPath(p[..i]) in dirs;
        assert |GitPath(p[..i])| < |GitPath(start[..k])|;
      }
    }
  }

  /** Not found exactly when no ancestor, the root included, holds `.git`. */
  lemma {:induction false} NotFoundIff(dirs: set<seq<string>>, start: seq<string>)
    ensures FindFrom(dirs, start).Err? <==> forall j | 0 <= j <= |start| :: GitPath(start[..j]) !in dirs
    ensures FindFrom(dirs, start).Err? ==> FindFrom(dirs, start).error == NotFound
    decreases |start|
  {
    assert start[..|start|] == start;
    if GitPath(start) !in dirs && start != [] {
      var p := Parent(start);
      NotFoundIff(dirs, p);
      assert forall j | 0 <= j <= |p| :: p[..j] == start[..j];
    }
  }
}
