/** Outcome types shared by every component: an optional value, and a result
    that is either a value or one of the failures the commands report. */
module Common {

  datatype Option<+T> = None | Some(value: T)

  /** The ways an operation of the repository can fail: Python exceptions that
      the code raises or lets escape, and the `typer.Exit(1)` error exits. */
  datatype Failure =
    | NotFound          // FileNotFoundError, or an "object not found" exit
    | Malformed         // ValueError / IndexError / AssertionError while parsing stored text
    | InvalidKind       // write_object given a kind other than blob, tree, commit
    | InvalidHead       // InvalidHeadError
    | NotATree          // an object of another kind where a tree is expected
    | NotACommit        // an object of another kind where a commit is expected
    | NotABlob          // an object of another kind where a blob is expected
    | EmptyIndex        // write-tree with a missing or empty index
    | UnknownRevision
    | AmbiguousRevision
    | HeadInvalid       // rev-parse: HEAD missing or unusable
    | RefExists         // branch creation over an existing branch
    | DirtyWorkdir
    | Usage             // contradictory or missing command-line options
    | InvalidOid        // cat-file given something that is not 40 hex characters
    | RecursionLimit    // recursion or iteration deeper than the fuel allows
    | IdentityMissing
    | NoRefsDir
    | UnsupportedFile

  datatype Result<+T> = Ok(value: T) | Err(error: Failure)
}
