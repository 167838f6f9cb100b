# pit, modelled in Dafny

pit is a Git re-implementation in Python (the `git_scratch` package). This
project models its core: the loose-object database, trees, commits, refs,
HEAD and the JSON index, and the commands built on them: `add`, `rmfile`,
`write-tree`, `ls-tree`, `cat-file`, `commit`, `log`, `status`, `reset`,
`checkout`, `rev-parse` and `show-ref`. It also models the search for the
`.git` directory.

The repository is the class `Repository.Repo`. Its fields are:

- the object database: object id to framed, decompressed bytes;
- the ref files: a path relative to `.git` to its text;
- the text of `.git/HEAD`;
- the index list;
- the text of `packed-refs`;
- the working directory: a relative path to the file's bytes.

Commands are methods that change these fields through the primitive writes
of `Repo`. Each one is proved against a pure specification function of the
same command. For example, `Reset.ResetCommand` leaves `repo.State()` and
returns what `Reset.ResetSpec` gives. The lemmas beside each module state what
the source promises about that specification.

Things the model takes as parameters:

- SHA-1 is the parameter `hash: string -> Oid`, where `Oid` is 40 lower-case
  hex digits.
- zlib is the identity: the database holds the decompressed frame.
- Bytes and text are both `string`, one character per byte, and text is
  ASCII.
- The author identity, the clock, `os.stat` modes and directory-walk orders
  are parameters of the operations that use them.

The main results are these:

- `RoundTrip.WalkBuilt` and `WriteTree.WriteTreeRoundTrip` show that writing
  the index as trees and flattening the root again gives back the index.
- `Objects.WriteThenRead` shows that an object written is read back.
- `Commits.ParseBuiltCommit` shows that a commit object built is parsed back.
- `Status.CleanIffWorkdir` shows that status reports "clean" exactly when
  HEAD's tree, the index and the working directory agree, given the file
  listing `list_project_files` produces (`Status.ProjectFiles`).
- `Reset` and `Checkout` lemmas state what each mode or branch of the
  command changes and what it leaves untouched.

## Model

| member | source | states |
|---|---|---|
| Objects.ParseObject | git_scratch/utils/read_object.py:18-23 | On success the content is everything after some NUL. Data without a NUL is malformed. The only error is "malformed". |
| Objects.ReadObject | git_scratch/utils/read_object.py:4-23 | A missing id is "not found". A present id parses its stored bytes. No other error is possible. |
| Objects.ComputeBlobHash | git_scratch/utils/hash.py:4-8 | The framed bytes are `"blob <len>\0"` followed by the content. The id is the hash of those bytes. |
| Objects.KindsAreWords | git_scratch/utils/object.py:16-17 | The three accepted kinds are single words without NUL, so they read back. |
| Objects.FrameFirstNul | git_scratch/utils/read_object.py:19 | The first NUL of a frame is the one that ends its header. |
| Objects.ParseFrame | git_scratch/utils/read_object.py:19-23 | A frame reads back as its kind and content, even when the content holds NULs. This holds for both readers. |
| Objects.HeaderWords | git_scratch/utils/read_object.py:20-21 | A header splits into exactly the kind and the length, whichever whitespace notion is used. |
| Objects.FrameSplit | git_scratch/utils/object.py:19-20 | A frame is the kind, a space, the decimal length, the first NUL and then the content. |
| Objects.LengthNotChecked | git_scratch/utils/read_object.py:20-22 | A header whose declared length is wrong still reads. |
| Objects.OneWordHeaderFails | git_scratch/utils/read_object.py:21 | A header that is not two words is rejected. |
| Objects.BlobHashIsObjectId | git_scratch/utils/hash.py:4-8 | `compute_blob_hash` gives the id that `write_object(content, "blob")` gives, and its bytes read back as that blob. |
| Objects.StoreDedup | git_scratch/utils/object.py:26-31 | After a deduplicating write the id is present and exactly that one key is added. An object already stored is never replaced. |
| Objects.StoreOverwrite | git_scratch/commands/write_tree.py:17-22 | An unconditional write puts the frame under its id and leaves every other object unchanged. |
| Objects.WritesKeepConsistent | git_scratch/utils/object.py:21-31 | Both kinds of write keep every object stored under the hash of its bytes. |
| Objects.DedupIsOverwrite | git_scratch/utils/object.py:26-31 | Without a hash collision, deduplicating and overwriting give the same database. |
| Objects.WritesIdempotent | git_scratch/utils/object.py:26-27 | Writing the same frame twice equals writing it once, for both kinds of write. |
| Objects.WriteThenRead | git_scratch/utils/object.py:5-33 | Reading the id returned by a write gives back `(kind, content)`. |
| Objects.SameObjectSameId | git_scratch/utils/object.py:19-27 | The same object always gets the same id, and a repeated write changes nothing. |
| Objects.WritesAppend | git_scratch/utils/object.py:26-31 | Writing `a` and then `b` equals writing `a + b`, for both kinds of write. |
| Repository.Repo.Init | git_scratch/commands/init.py:20-30 | In a fresh repository HEAD is `ref: refs/heads/master`. There are no objects, ref files, index or packed-refs, and the refs directory exists. The database is consistent. |
| Repository.Repo.LoadIndex | git_scratch/utils/index_utils.py:13-22 | A missing index file reads as the empty list. Otherwise the saved list is returned. |
| Repository.Repo.WriteObject | git_scratch/utils/object.py:5-33 | An unknown kind fails and changes nothing. Otherwise the id is the hash of the frame, the write is deduplicating, and the database stays consistent. Without a collision, the object reads back. |
| Repository.Repo.StoreObject | git_scratch/commands/write_tree.py:9-24 | Any kind is accepted, the frame is overwritten under its id, and the database stays consistent. |
| Repository.Repo.SaveIndex | git_scratch/utils/index_utils.py:24-31 | After a save, `load_index` returns exactly the saved list. |
| Index.ComputeMode | git_scratch/utils/index_utils.py:33-43 | The mode is "120000" exactly when the `st_mode` type bits are a link's, which `os.stat` never reports. It is "100755" exactly for other modes with owner-execute set, and "100644" otherwise. |
| Index.ModePrecedence | git_scratch/utils/index_utils.py:38-43 | The link-type test comes before the execute test. |
| Index.WithoutPath | git_scratch/commands/add.py:36 | The filter keeps exactly the entries with other paths, and never lengthens the list. |
| Index.WithoutPathShrinks | git_scratch/commands/rmfile.py:25-26 | The filtered list is shorter exactly when the path was staged, so "removed" is reported only then. |
| Index.WithoutPathKeepsOrder | git_scratch/commands/add.py:36 | The kept entries keep their order: they form a subsequence of the original. |
| Index.WithoutPathTwice | git_scratch/commands/rmfile.py:25 | Filtering twice equals filtering once. |
| Index.UpsertSpec | git_scratch/commands/add.py:36-37 | After staging, the new entry is last and is the only entry for its path. Entries for other paths are kept. |
| Index.UpsertIdempotent | git_scratch/commands/add.py:36-37 | Staging the same entry twice gives the index that staging it once gives. |
| Index.AddFileToIndex | git_scratch/commands/add.py:10-40 | The blob is overwritten under its id. The index gains the file's entry (mode, blob id, path) by filter-then-append. The database stays consistent. |
| Index.AddedFiles | git_scratch/commands/add.py:54-60 | Only walked files are staged. |
| Index.AddedFilesMembers | git_scratch/commands/add.py:54-60 | A walked file is staged exactly when its path does not contain ".git". |
| Index.StageAllSpec | git_scratch/commands/add.py:54-61 | After staging a list of files, each of them has exactly its new entry. Entries for other paths are unchanged. |
| Index.AddWalked | git_scratch/commands/add.py:57-61 | One round of the walk stages the file unless its path contains ".git", keeping the staged-prefix invariant. |
| Index.AddDirectory | git_scratch/commands/add.py:53-61 | The index and database are those after staging every walked non-".git" file, in walk order. One id is returned per staged file. |
| Index.Add | git_scratch/commands/add.py:43-64 | A path that is neither a file nor a directory fails and changes nothing. A file stages itself. A directory stages its walk. |
| Index.RmFile | git_scratch/commands/rmfile.py:6-32 | The working file is removed if present. The index is saved without the path exactly when it was staged, and is otherwise untouched. |
| TreeCodec.NextRecord | git_scratch/utils/tree_walker.py:14-20 | A successful step moves the cursor strictly forward, stays within the content, and yields a record that can be read back. |
| TreeCodec.NextRecordSpan | git_scratch/utils/tree_walker.py:14-20 | A step consumes exactly the encoding of the record it returns. |
| TreeCodec.NextRecordEncoded | git_scratch/utils/tree.py:34 | The cursor step reads an encoded record back wherever it sits in the content. |
| TreeCodec.EncodedFields | git_scratch/utils/tree.py:34 | Gives the positions of the mode, the space, the name, the NUL and the 20 id bytes inside an encoded record. |
| TreeCodec.EncodedFinds | git_scratch/utils/tree_walker.py:14-15 | The two searches of the step stop at the separators of the record. |
| TreeCodec.EncodeRecordsSnoc | git_scratch/utils/tree.py:31-34 | Appending a record appends its encoding. |
| TreeCodec.ParseFromEncoded | git_scratch/utils/tree_walker.py:12-20 | Parsing an encoded run of records from any offset gives back exactly those records. |
| TreeCodec.ParseEncoded | git_scratch/utils/tree_walker.py:12-20 | Encoding and then parsing a run of records is the identity. |
| TreeCodec.ParsedIsEncoded | git_scratch/utils/tree_walker.py:12-20 | Content that parses is exactly the encoding of what it parses to. |
| Dicts.PutGet | git_scratch/utils/tree.py:22 | A dictionary assignment is read back and leaves other keys alone. |
| Dicts.PutNew | git_scratch/utils/tree.py:29 | A new key goes to the end of the insertion order. |
| Dicts.PutExisting | git_scratch/utils/tree.py:22 | Assigning to an existing key keeps the key order. |
| Dicts.PutDistinct | git_scratch/utils/tree.py:22 | Assignment keeps the keys distinct. |
| Dicts.UpdateGet | git_scratch/utils/checkout_utils.py:80 | After `update`, a key of the update reads its last value there. Every other key reads as before. |
| TreeBuild.SubBaseBound | git_scratch/utils/tree.py:15-25 | A subdirectory's base is strictly longer than its parent's and no longer than the entry path, so the recursion ends. |
| TreeBuild.LevelRecordsFacts | git_scratch/utils/tree.py:31-34 | A level is encoded as one record per key, in sorted key order, each carrying that key's value. |
| TreeBuild.BuildTree | git_scratch/utils/tree.py:7-36 | Returns the level content of `Build`. The database is the old one after writing every subtree frame, in build order, under the chosen policy. |
| TreeBuild.WriteSubtree | git_scratch/commands/write_tree.py:47 | The subtree id is the hash of the tree frame. `write_object` deduplicates and `store_object` overwrites. |
| TreeBuild.EncodeLevel | git_scratch/utils/tree.py:31-34 | The loop over sorted names produces the encoding of the level's records. |
| TreeBuild.LastLeaf | git_scratch/utils/tree.py:18-22 | Finds the last file of a name at a level, or reports that there is none. |
| TreeBuild.StepGet | git_scratch/utils/tree.py:10-29 | One round of the loop, name by name. A file assigns its value. A directory is entered only if its name is not yet present. Other names are unchanged. |
| TreeBuild.StepWrites | git_scratch/utils/tree.py:26-28 | A round only adds frames. A newly seen directory adds its subtree frames and its own frame. |
| TreeBuild.LevelChar | git_scratch/utils/tree.py:8-29 | A level's dictionary, without the loop: the last file of a name wins wherever it occurs. Otherwise a directory of that name points at its subtree. Otherwise the name is absent. |
| TreeBuild.DirWritten | git_scratch/utils/tree.py:26-28 | A directory not shadowed by a file of the same name has its whole subtree written while the level is built. |
| TreeBuild.PrefixQuirk | git_scratch/utils/tree.py:12-22 | Membership of a level is a plain string-prefix test. At level `src`, the path `srcx` counts as a file named `x`. |
| TreeWalk.EntriesFromTree | git_scratch/utils/tree_walker.py:5-28 | Computes `Walk`: a missing or unreadable object and a non-tree fail. Otherwise the result is the records depth-first in stored order, subtrees expanded, each leaf an index entry at the joined path. |
| TreeWalk.WalkContent | git_scratch/utils/tree_walker.py:12-28 | The cursor loop computes `WalkFrom`, with a subtree's error stopping the walk. |
| TreeWalk.WalkStepDirectory | git_scratch/utils/tree_walker.py:23-24 | A "40000" record is replaced by the walk of its subtree at the joined path. |
| TreeWalk.WalkStepLeaf | git_scratch/utils/tree_walker.py:25-26 | Any other record becomes one entry with its mode, hex id and joined path. |
| TreeWalk.WalkNoDirectories | git_scratch/utils/tree_walker.py:23-26 | A flattened tree never holds a directory entry. |
| TreeWalk.LsTree | git_scratch/commands/ls_tree.py:5-38 | A missing object, an unreadable one or a non-tree prints nothing and fails. Otherwise one line is printed per record until a malformed record stops the listing. |
| TreeWalk.LsStep | git_scratch/commands/ls_tree.py:22-38 | A listing is its first record's line followed by the listing of the rest. A malformed first record gives no line and an error. |
| TreeWalk.LsFromEncoded | git_scratch/commands/ls_tree.py:21-38 | An encoded run of records is listed as one `mode hex name` line per record, in order, with no error. |
| TreeWalk.LsMissingSpace | git_scratch/commands/ls_tree.py:24 | Content with no further space stops the listing with an error. |
| TreeWalk.ReadTree | git_scratch/utils/checkout_utils.py:43-59 | Computes `ReadTreeSpec`. A missing, unreadable or non-tree object fails. Otherwise the result maps each top-level name to its (mode, hex id). |
| TreeWalk.RecordItems | git_scratch/utils/checkout_utils.py:57 | Each record gives the item (name, (mode, hex id)), in order. |
| TreeWalk.ReadTreeEncoded | git_scratch/utils/checkout_utils.py:47-59 | Reading encoded records assigns them in order, so a repeated name keeps its last record. |
| TreeWalk.ReadTreeFiles | git_scratch/utils/checkout_utils.py:61-84 | Computes `TreeFiles`: path to blob id for every record under the tree, descending into every mode that starts with "40000". |
| TreeWalk.TreeFilesContent | git_scratch/utils/checkout_utils.py:69-84 | The cursor loop of `read_tree_files` computes `TreeFilesFrom`, merging each subtree's files and assigning each leaf. |
| TreeWalk.FilePathIsJoin | git_scratch/utils/checkout_utils.py:78 | The conditional join used here equals `os.path.join`. |
| TreeWalk.WalkFromEncoded | git_scratch/utils/tree_walker.py:12-26 | The cursor loop over encoded records visits exactly those records, in order. |
| TreeWalk.WalkRead | git_scratch/utils/tree_walker.py:8-12 | Walking a stored tree is walking its content. |
| RoundTrip.WalkBuilt | git_scratch/utils/tree_walker.py:5-28 | For a well-formed index whose trees are stored, the walker returns each entry beneath a base exactly once. |
| RoundTrip.WalkRecsBuilt | git_scratch/utils/tree_walker.py:12-26 | The records of a built level walk back to the entries whose first segment they name, each once. |
| RoundTrip.RecordWalkBuilt | git_scratch/utils/tree_walker.py:22-26 | One record of a built level walks back to the entries of its name. |
| RoundTrip.LevelDistinct | git_scratch/utils/tree.py:8-29 | A level never holds a name twice. |
| RoundTrip.RecordSource | git_scratch/utils/tree.py:18-29 | Every record of a level comes either from a file directly under the base, whose entry it copies, or from a directory, whose subtree it points at. |
| RoundTrip.SegIff | git_scratch/utils/tree.py:12-27 | In a well-formed index, a path lies in subdirectory `n` exactly when its first segment below the base is `n`. |
| RoundTrip.LeafUnique | git_scratch/utils/tree.py:18-22 | A file directly under a base is the only entry with its first segment. |
| RoundTrip.RecordEncodable | git_scratch/utils/tree.py:34 | Every record of a well-formed level can be read back. |
| RoundTrip.LevelEncoding | git_scratch/utils/tree.py:31-36 | A tree's content is the encoding of its level's records in sorted order. |
| WriteTree.WriteTreeCommand | git_scratch/commands/write_tree.py:57-68 | An empty index fails and writes nothing. Otherwise every subtree and then the root is overwritten, and the root's id is returned. |
| WriteTree.CreateRootTree | git_scratch/utils/tree.py:7-36 | The commit's tree step writes the same frames with `write_object` and returns the root's id. |
| WriteTree.OverwriteHolds | git_scratch/commands/write_tree.py:17-22 | After overwriting writes of frames with distinct ids, every frame sits under its id. |
| WriteTree.OverwriteValues | git_scratch/commands/write_tree.py:17-22 | Every value left by overwriting writes is either an old value or one of the frames. |
| WriteTree.DedupAllIsOverwriteAll | git_scratch/utils/object.py:26-31 | Without collisions, the deduplicating and the overwriting builders leave the same consistent database. |
| WriteTree.SameMembersPermutation | git_scratch/utils/tree_walker.py:5-28 | Two lists without repeats that have the same members are permutations of each other. |
| WriteTree.IndexNoDup | git_scratch/commands/add.py:36-37 | A well-formed index has no repeated entry. |
| WriteTree.WalkRoot | git_scratch/utils/tree_walker.py:5-28 | Walking a root stored with its subtrees gives back the index, as a permutation. |
| WriteTree.WriteTreeRoundTrip | git_scratch/commands/write_tree.py:57-68 | After `write_tree`, flattening the printed root gives back a permutation of the index. |
| WriteTree.CreateRootTreeRoundTrip | git_scratch/utils/tree.py:7-36 | The same round trip holds for the commit's deduplicating tree write, when no old object collides. |
| Commits.BuildCommitObject | git_scratch/utils/commit.py:6-38 | Without an identity it fails and writes nothing. Otherwise it writes the commit text with `write_object` and returns its id. The text has a tree line, a parent line when the parent is truthy, author and committer lines with the same signature, an empty line and the message. |
| Commits.ParseCommit | git_scratch/commands/log.py:6-33 | The line loop computes `ParseCommitSpec`. Header prefixes fill their fields in order. The first empty line takes the rest, stripped, as the message. |
| Commits.ParseShift | git_scratch/commands/log.py:16-31 | Starting the loop at line `i` is the same as parsing the suffix of lines from `i`. |
| Commits.ParseHeaders | git_scratch/commands/log.py:17-26 | Through non-empty lines, the parse applies each header step in turn. |
| Commits.SplitJoinPrefix | git_scratch/commands/log.py:7 | Splitting joined newline-free lines gives them back. |
| Commits.SecondWordOf | git_scratch/commands/log.py:20 | `split(" ")[1]` of `w + " " + x` is `x` when neither holds a space. |
| Commits.TreeLine | git_scratch/commands/log.py:19-20 | A `tree` line sets exactly the tree field. |
| Commits.ParentLine | git_scratch/commands/log.py:21-22 | A `parent` line sets exactly the parent field. |
| Commits.AuthorLine | git_scratch/commands/log.py:23-24 | An `author` line sets exactly the author field, to the rest of the line. |
| Commits.CommitterLine | git_scratch/commands/log.py:25-26 | A `committer` line sets exactly the committer field. |
| Commits.HeaderFields | git_scratch/utils/commit.py:25-31 | The header lines of a built commit parse to its tree, its parent, and its author and committer signature. |
| Commits.ParseBuiltCommit | git_scratch/utils/commit.py:25-35 | Parsing a built commit gives back its tree, its parent (when truthy), its signature twice and its stripped message. |
| Commits.ParseHeadersThenMessage | git_scratch/commands/log.py:27-30 | After the headers, the first empty line makes the stripped rest the message. |
| Commits.NoEmptyLineNoMessage | git_scratch/commands/log.py:27-30 | Without an empty line the message stays empty. |
| Commits.LaterTreeWins | git_scratch/commands/log.py:19-20 | A repeated `tree` header overwrites the earlier one. |
| Commits.LogNext | git_scratch/commands/log.py:67-84 | One round: a missing object is "not found" and a non-commit is refused. Otherwise the round shows the id, author and message and goes on with the parsed parent. |
| Commits.Log | git_scratch/commands/log.py:36-84 | Computes `LogSpec`. A missing HEAD or branch file is an error, an empty id shows nothing, and otherwise the parent chain is walked from HEAD's commit. |
| Commits.LogWalk | git_scratch/commands/log.py:66-84 | The `while oid` loop computes the bounded walk `LogFrom`. |
| Commits.After | git_scratch/commands/log.py:79-84 | Prepending shown entries adds their count and keeps the way the walk stopped. |
| Commits.LogRound | git_scratch/commands/log.py:66-84 | A readable commit is shown first, followed by what its parent's walk shows. |
| Commits.LogShowsNewCommit | git_scratch/commands/log.py:66-84 | A commit just built is shown first, with its signature and stripped message, and the walk goes on from its parent. |
| Commits.LogBounded | git_scratch/commands/log.py:66 | The walk never shows more commits than it has rounds. |
| Commits.LogFails | git_scratch/commands/log.py:67-75 | A failing round ends the walk with that failure and shows nothing more. |
| Commits.LogContinues | git_scratch/commands/log.py:77-84 | A successful round shows its entry and continues with its next id. |
| Commits.LogLimitFull | git_scratch/commands/log.py:66-84 | The walk only runs out of rounds after showing one commit per round. |
| Refs.ValidOidIff | git_scratch/utils/refs.py:13-14 | An id is valid exactly when it is 40 hex digits in either case. |
| Refs.SymbolicRef | git_scratch/utils/refs.py:22-25 | A HEAD text is symbolic exactly when its stripped form starts with `ref: `. The named ref is the rest. |
| Refs.HeadCommitOid | git_scratch/utils/refs.py:17-40 | A missing HEAD or missing branch file gives no commit. A branch file or detached HEAD holding a valid id gives that stripped id. An invalid id fails with InvalidHeadError. Any id returned is valid. |
| Refs.UpdateHeadToCommit | git_scratch/utils/refs.py:43-63 | Computes `UpdateHead`. A symbolic HEAD's branch gets the id and a newline. A missing or detached HEAD makes `refs/heads/main` hold the id, with HEAD attached to main. |
| Refs.HeadDisplay | git_scratch/utils/refs.py:65-78 | A missing HEAD fails. A symbolic HEAD shows its branch without `refs/heads/`. A detached HEAD shows "HEAD detached at" and the first 7 characters of the id. |
| Refs.SymbolicLine | git_scratch/utils/refs.py:54 | The text `ref: <name>\n` names `<name>`. |
| Refs.UpdateThenRead | git_scratch/utils/refs.py:43-63 | After moving HEAD to a valid id, HEAD is symbolic and `get_head_commit_oid` reads back exactly that id. |
| Refs.UpdateTouchesOneRef | git_scratch/utils/refs.py:43-63 | Only the target branch changes, to the id and a newline. A symbolic HEAD is left as it was. |
| Refs.DisplayAfterDetachedUpdate | git_scratch/utils/refs.py:46-55 | After committing on a missing or detached HEAD, the summary names the branch main. |
| Refs.HeadCommitOidOld | git_scratch/utils/porcelain_commit.py:5-33 | The older reader gives no commit for a missing HEAD or branch file. It gives a branch's stripped text unchecked. It gives a detached id only when it is 40 lower-case hex digits, and no commit otherwise. |
| Refs.UpdateHeadToCommitOld | git_scratch/utils/porcelain_commit.py:35-65 | The older writer makes exactly the same changes as the newer one. |
| Refs.HeadReadersAgree | git_scratch/utils/porcelain_commit.py:5-33 | When the newer reader finds a commit (lower-case when detached), the older one finds the same commit. When the older finds nothing but the newer finds a commit, HEAD is detached at an id with an upper-case digit. |
| Refs.UpperCaseDetachedHead | git_scratch/utils/porcelain_commit.py:31 | A HEAD detached at a valid id with an upper-case digit is accepted by the newer reader and ignored by the older one. |
| Refs.DetachedAccepted | git_scratch/utils/refs.py:37-39 | A detached HEAD holding a valid id is that commit. |
| Refs.DetachedIgnoredByOld | git_scratch/utils/porcelain_commit.py:31-33 | The older reader ignores a detached id with an upper-case digit. |
| Refs.UpperCaseIdIsValid | git_scratch/utils/refs.py:13-14 | Such ids exist: "A" followed by 39 zeros passes the check but is not lower-case. |
| Porcelain.SummaryShape | git_scratch/commands/porcelain_commit.py:31-36 | The prefix built piece by piece, then the message, is the summary line `[<head> (root-commit) <id7>] <message>`. |
| Porcelain.Commit | git_scratch/commands/porcelain_commit.py:7-57 | The index's trees are always written first. An invalid HEAD, or a missing identity, then fails with HEAD and refs unchanged. Otherwise the commit object is written with HEAD's commit as parent, HEAD's branch moves to it, and the summary or the bare id is printed. |
| Porcelain.CommitMovesHead | git_scratch/commands/porcelain_commit.py:26 | After a commit, HEAD resolves to the new commit. |
| Porcelain.CommitRecordsParent | git_scratch/commands/porcelain_commit.py:15-24 | The new commit records the index's root tree and HEAD's previous commit as parent. It is a root commit exactly when HEAD had no commit. |
| Porcelain.CommitPrints | git_scratch/commands/porcelain_commit.py:28-38 | Once HEAD has moved, printing cannot fail. Quiet prints the id. Verbose prints the summary with HEAD's description. |
| RevParse.PrefixMatches | git_scratch/commands/rev_parse.py:42-50 | The matches are exactly the listed ids that start with the prefix, and there are no more of them than listed ids. |
| RevParse.CollectMatches | git_scratch/commands/rev_parse.py:42-50 | The loop over the objects directory collects `PrefixMatches` in listing order. |
| RevParse.ScanPacked | git_scratch/commands/rev_parse.py:85-96 | The packed-refs loop computes `PackedFrom`. Blank, `#` and `^` lines are skipped. A line without a space raises. The first line naming the branch or tag gives its id, lower-cased. |
| RevParse.RevParse | git_scratch/commands/rev_parse.py:26-99 | The command computes `RevParseSpec`. It tries a full id, then an abbreviated id, branch, tag, HEAD and packed-refs, in that order. |
| RevParse.FullId | git_scratch/commands/rev_parse.py:33-38 | A 40-digit id resolves, lower-cased, exactly when its object file exists under the id as typed. Otherwise it is unknown. |
| RevParse.AbbreviatedId | git_scratch/commands/rev_parse.py:41-58 | An abbreviated id resolves exactly when one stored id begins with it (lower-cased), and gives that id. It is ambiguous exactly when two or more do, and unknown exactly when none does. |
| RevParse.MatchesAreFound | git_scratch/commands/rev_parse.py:44-50 | The collected matches are the stored ids with the prefix, each once. |
| RevParse.MatchesDistinct | git_scratch/commands/rev_parse.py:44-50 | Collecting matches never repeats an id. |
| RevParse.HexIgnoresRefs | git_scratch/commands/rev_parse.py:33-58 | Hexadecimal input of 4 to 40 digits never consults branches, tags, HEAD or packed-refs. |
| RevParse.LooseFirst | git_scratch/commands/rev_parse.py:61-67 | A branch whose file has non-empty text wins over a tag of the same name. Both win over HEAD and packed-refs. |
| RevParse.AfterLoose | git_scratch/commands/rev_parse.py:69-99 | Without a loose ref, "HEAD" in any case is answered by HEAD alone. Any other name is answered by packed-refs alone, and is unknown without that file. |
| RevParse.PackedFirstWins | git_scratch/commands/rev_parse.py:89-96 | Skipped and non-matching lines do not count. The first line naming the branch decides. |
| RevParse.HeadAnswers | git_scratch/commands/rev_parse.py:70-81 | A symbolic HEAD answers with its target's stripped text, and a detached HEAD with its id, both lower-cased. |
| RevParse.SymbolicHeadAnswers | git_scratch/commands/rev_parse.py:74-78 | A symbolic HEAD whose target exists answers with the target's stripped text, lower-cased. |
| RevParse.DetachedHeadAnswers | git_scratch/commands/rev_parse.py:79-81 | A detached HEAD at a 40-digit hex id answers with the id, lower-cased. |
| ShowRef.StrippedRefs | git_scratch/commands/show_ref.py:18-19 | Every ref file is read and stripped, and only ref files are. |
| ShowRef.LooseLines | git_scratch/commands/show_ref.py:15-22 | One line per walked ref file, in walk order. |
| ShowRef.ShowRefCommand | git_scratch/commands/show_ref.py:5-33 | Computes `ShowRefSpec`. A missing `.git/refs` is an error with nothing printed. Otherwise the loose lines come first, then the packed-refs lines, and the listing stops at a packed line that does not split into two fields. |
| ShowRef.LooseStep | git_scratch/commands/show_ref.py:16-22 | Each further ref file of the walk adds exactly its line. |
| ShowRef.ScanPacked | git_scratch/commands/show_ref.py:27-33 | The packed-refs loop computes `PackedShow`: comments, blank lines and lines without a space print nothing. |
| ShowRef.LooseShownFirst | git_scratch/commands/show_ref.py:15-33 | Every loose ref is printed with its stripped text, in walk order, before anything from packed-refs. |
| ShowRef.LooseThen | git_scratch/commands/show_ref.py:15-22 | The loose lines keep their places whatever is printed after them. |
| ShowRef.LooseLinesAt | git_scratch/commands/show_ref.py:15-22 | Line `k` is the `k`-th walked ref's text and name. |
| ShowRef.LooseLinesCover | git_scratch/commands/show_ref.py:15-22 | Every ref file has a line. |
| ShowRef.NoRefsNothingShown | git_scratch/commands/show_ref.py:11-13 | Without `.git/refs`, nothing is printed and the command fails. |
| ShowRef.EntryLines | git_scratch/commands/show_ref.py:32-33 | One `id name` line per packed entry, in order. |
| ShowRef.PackedRoundTrip | git_scratch/commands/show_ref.py:25-33 | A packed-refs file with a comment header and plain entry lines is printed back entry by entry, without failing. |
| ShowRef.PackedEntries | git_scratch/commands/show_ref.py:28-33 | Plain entry lines are printed back entry by entry. |
| ShowRef.PackedStep | git_scratch/commands/show_ref.py:28-33 | The first entry's line comes first, then the rest of the entries' lines. |
| ShowRef.PackedCons | git_scratch/commands/show_ref.py:28-33 | A printable line is printed, then the rest of the file is handled. |
| ShowRef.PlainLine | git_scratch/commands/show_ref.py:31-33 | An entry line is printed exactly as it stands. |
| ShowRef.TrailingSpaceStops | git_scratch/commands/show_ref.py:31-32 | A line of one word followed by a space passes the space test, but splits into one field. It raises, and nothing more is printed. |
| ShowRef.TrailingSpaceLine | git_scratch/commands/show_ref.py:31-32 | Such a line is an error. |
| Status.HeadCommitId | git_scratch/commands/status.py:20-25 | A `ref: ` HEAD is followed to its ref file, and any other HEAD text is taken as the id. The only failure is a missing file. |
| Status.GetHeadTreeOid | git_scratch/commands/status.py:16-34 | Computes `HeadTreeSpec`. HEAD's object must be a commit, and its first `tree ` line gives the tree id. Otherwise the call fails. |
| Status.FirstTreeLine | git_scratch/commands/status.py:31-34 | The loop over the commit's lines computes `TreeFromLines`: the second word of the first `tree ` line, or an error. |
| Status.Pairs | git_scratch/commands/status.py:82 | One (path, id) pair per index entry. |
| Status.StatusCommand | git_scratch/commands/status.py:65-128 | Computes `StatusSpec` and changes nothing. A failure to read HEAD's tree is the answer. Otherwise the three sections are classified from the index, HEAD's flattened tree and the disk. |
| Status.ClassifyFiles | git_scratch/commands/status.py:90-105 | The loop over project files computes the staged (new file, modified) and untracked lines of `ScanFiles`. |
| Status.StagedDeletions | git_scratch/commands/status.py:107-109 | The staged section gains, in HEAD's tree order, a `deleted` line per path missing from the index. |
| Status.UnstagedChanges | git_scratch/commands/status.py:111-117 | The loop over the index computes `Unstaged`. |
| Status.SameBlobHash | git_scratch/commands/status.py:37-43 | The hash `status` computes for a file is the blob id `add` stores it under. |
| Status.ScanStaged | git_scratch/commands/status.py:94-102 | A listed, non-ignored, indexed file is staged. It is "new file" exactly when absent from HEAD's tree, and "modified" exactly when HEAD's tree has another id. |
| Status.ScanUntracked | git_scratch/commands/status.py:103-105 | A file is untracked exactly when it is listed, not ignored, and in neither the index nor HEAD's tree. |
| Status.DeletedMembers | git_scratch/commands/status.py:107-109 | A path of HEAD's tree is staged as deleted exactly when it is missing from the index, whatever the disk or the ignore rules say. |
| Status.UnstagedMembers | git_scratch/commands/status.py:111-117 | An indexed path missing on disk is unstaged as deleted. One whose bytes hash to another id is unstaged as modified. Nothing else is unstaged. |
| Status.CleanIff | git_scratch/commands/status.py:125-126 | The clean message is printed exactly when listed files, the index, HEAD's tree and the disk all agree. |
| Status.CleanIsUpToDate | git_scratch/commands/status.py:125-126 | A clean report means the three agree. |
| Status.CleanIffWorkdir | git_scratch/commands/status.py:119-126 | When the listing is every working file outside `.git`, once each, the clean message is printed exactly when every non-ignored working file outside `.git` is indexed with HEAD's id, every file of HEAD's tree is indexed, and every indexed file is on disk with its indexed bytes. |
| Status.UntrackedWorkdir | git_scratch/commands/status.py:103-105 | With that listing, a working file is untracked exactly when it lies outside `.git`, is not ignored, and is in neither the index nor HEAD's tree. |
| Status.GitFilesNeverUntracked | git_scratch/commands/status.py:50-52 | With that listing, a file directly under `.git` is never reported untracked. |
| Status.UpToDateIsClean | git_scratch/commands/status.py:125-126 | When the three agree, the report is clean. |
| Status.NothingStagedOrUntracked | git_scratch/commands/status.py:90-105 | Without staged or untracked lines from the file loop, every listed file is tracked, with the same id in the index and HEAD. |
| Status.NothingUnstaged | git_scratch/commands/status.py:111-117 | Without unstaged lines, every indexed file is on disk with the bytes of its indexed id. |
| Status.StagedAndUnstaged | git_scratch/commands/status.py:97-117 | One path can be both staged and unstaged as modified. |
| Status.PathMapDistinct | git_scratch/commands/status.py:75 | The path dictionaries hold each path once. |
| Status.HeadTreeOfBuiltCommit | git_scratch/commands/status.py:16-34 | When HEAD names a commit the commit command built, `status` compares against that commit's tree. |
| Status.CommitFirstLine | git_scratch/utils/commit.py:25 | The first line of a built commit is its `tree` line. |
| Status.TreeFromTreeLine | git_scratch/commands/status.py:31-33 | Lines that begin with a `tree <id>` line give that id. |
| Reset.ResolveRef | git_scratch/commands/reset.py:14-39 | The only failures are a missing HEAD or branch file and an unknown name. |
| Reset.ResolveRefIn | git_scratch/commands/reset.py:14-39 | The method, with its loop over the two ref directories, computes `ResolveRef`. A valid id is taken lower-cased. "HEAD" in any case is read, following a symbolic HEAD. Otherwise the branch, then the tag, is read, stripped. |
| Reset.GetTreeOid | git_scratch/commands/reset.py:42-52 | A missing object is "not found" and a non-commit is refused. Any tree id found comes from a commit. |
| Reset.CheckoutTree | git_scratch/commands/reset.py:80-87 | Computes `CheckoutSpec`. The tree is flattened first, so a failed walk writes nothing. Each entry's payload is then written at its path until a read fails. |
| Reset.ModeOfFlags | git_scratch/commands/reset.py:99-103 | The mode is "soft" exactly with --soft, "hard" exactly with --hard, and "mixed" exactly with neither. |
| Reset.Abbrev | git_scratch/commands/reset.py:120 | The shown id is a prefix of at most seven characters. |
| Reset.ResetCommand | git_scratch/commands/reset.py:89-120 | The command leaves the state, and returns the answer, that `ResetSpec` gives: resolve, move HEAD, read the tree, rebuild the index (mixed, hard), write the files (hard). |
| Reset.FailsBeforeMoving | git_scratch/commands/reset.py:95-106 | Both flags, or a reference that does not resolve, fail with nothing changed. |
| Reset.MovesBeforeCommitCheck | git_scratch/commands/reset.py:106-112 | A target that is not a readable commit fails after HEAD's branch has moved. The index and files are untouched. |
| Reset.SoftMovesOnlyTheBranch | git_scratch/commands/reset.py:100-101 | --soft moves HEAD's branch only and confirms. |
| Reset.MixedResetsIndex | git_scratch/commands/reset.py:112-114 | Mixed moves the branch and sets the index to the flattened tree. A tree that cannot be flattened leaves the old index and fails. The files are untouched. |
| Reset.OnlyHardWritesFiles | git_scratch/commands/reset.py:113-118 | Only --hard touches the working directory, and --soft never touches the index, whatever the outcome. |
| Reset.HardResetsWorkdir | git_scratch/commands/reset.py:113-118 | After a successful hard reset, the index is the tree's entries. Each entry's path holds its blob, the last one winning. Paths outside the tree keep their files. |
| Reset.WriteBlobsComplete | git_scratch/commands/reset.py:82-87 | The writes complete exactly when every entry's object can be read. |
| Reset.WriteBlobsKeeps | git_scratch/commands/reset.py:82-87 | A path that no entry names keeps its file, or its absence. |
| Reset.WriteBlobsWrites | git_scratch/commands/reset.py:82-87 | After complete writes, an entry's path holds its payload unless a later entry names the same path. |
| Reset.HeadFollowsReset | git_scratch/commands/reset.py:106-109 | After a reset whose target resolves to a non-empty id, "HEAD" resolves to that id, whatever happened after the move. |
| Reset.HeadMoves | git_scratch/commands/reset.py:106-109 | Once the target resolves, HEAD and the refs are those of the move, however the rest goes. |
| Reset.HeadResolvesTo | git_scratch/commands/reset.py:21-30 | Moving HEAD's branch to plain text makes "HEAD" resolve to that text. |
| Reset.SymbolicHead | git_scratch/commands/reset.py:26-29 | A symbolic HEAD resolves to its ref file's text, stripped. |
| Reset.HeadInAnyCase | git_scratch/commands/reset.py:21 | "head" resolves as "HEAD" does, so a branch named "head" cannot be reached by name. |
| Reset.UnknownIff | git_scratch/commands/reset.py:33-39 | A reference is unknown exactly when it is not a valid id, not "HEAD" and not a branch or tag name. |
| Reset.BranchBeforeTag | git_scratch/commands/reset.py:33-36 | A branch wins over a tag of the same name. |
| Reset.TreeOfBuiltCommit | git_scratch/commands/reset.py:48-52 | For a commit the commit command built, `_get_tree_oid` finds its tree. |
| CheckoutUtils.GetOidFromRef | git_scratch/utils/checkout_utils.py:18-32 | The only failure is a missing HEAD or ref file. With no HEAD there is no answer. |
| CheckoutUtils.IgnoresItsArgument | git_scratch/utils/checkout_utils.py:18-32 | The name passed in makes no difference: HEAD is always read. |
| CheckoutUtils.OidFromHead | git_scratch/utils/checkout_utils.py:26-32 | A symbolic HEAD gives its ref's stripped text, or "not found" when the ref file is missing. A detached HEAD gives its id. |
| CheckoutUtils.GetCommitTree | git_scratch/utils/checkout_utils.py:35-40 | A missing object is "not found". Any answer comes from a readable commit. |
| CheckoutUtils.CommitTreeOfBuiltCommit | git_scratch/utils/checkout_utils.py:35-40 | For a commit the commit command built, the tree it names is found. |
| CheckoutUtils.DetectDirtyWorkdir | git_scratch/utils/checkout_utils.py:97-142 | The loop over the tracked files computes `DirtySpec`: the HEAD commit's recursive file list compared with the working directory. |
| CheckoutUtils.CleanWithoutCommit | git_scratch/utils/checkout_utils.py:103-120 | Without HEAD, with a symbolic HEAD whose ref file is missing, or with an empty id, the working directory is clean. |
| CheckoutUtils.DirtyIff | git_scratch/utils/checkout_utils.py:129-142 | When the tracked blobs can be read, dirty holds exactly when some tracked file is missing or differs from its blob. |
| CheckoutUtils.UntrackedIgnored | git_scratch/utils/checkout_utils.py:97-142 | Two working directories that agree on the tracked paths get the same answer, so untracked files never matter. |
| CheckoutUtils.WriteRefFile | git_scratch/utils/checkout_utils.py:145-150 | The ref file holds the id followed by a newline. No other ref changes. |
| CheckoutUtils.ResolveTarget | git_scratch/utils/checkout_utils.py:153-163 | A target that is not a branch is returned as it is. |
| CheckoutUtils.WrittenBranchResolves | git_scratch/utils/checkout_utils.py:145-163 | A branch written by `write_ref` resolves back to the id written. |
| CheckoutUtils.RestoreWorkingDir | git_scratch/utils/checkout_utils.py:165-181 | Computes `RestoreSpec`. The commit's tree is read first, then every working file is removed, then each top-level entry's blob is written. |
| CheckoutUtils.RestoreComplete | git_scratch/utils/checkout_utils.py:177-181 | The rewrite completes exactly when every entry names a readable blob. |
| CheckoutUtils.RestoreKeeps | git_scratch/utils/checkout_utils.py:177-181 | During the rewrite, a name that no entry has keeps its state. |
| CheckoutUtils.RestoreWrites | git_scratch/utils/checkout_utils.py:177-181 | After a complete rewrite, each entry's name holds its blob's content. |
| CheckoutUtils.RestoreResult | git_scratch/utils/checkout_utils.py:165-181 | After a successful restore, the working directory holds exactly the tree's top-level files, each with its blob's content. Every other file, tracked or not, is gone. |
| CheckoutUtils.ReadTreeDistinct | git_scratch/utils/checkout_utils.py:43-59 | `read_tree`'s dictionary has one item per name. |
| Checkout.ResolveTargetToOid | git_scratch/commands/checkout.py:9-23 | A branch gives its stripped text. Otherwise the target is kept exactly when it is a 40-digit hex id in either case, and anything else has no answer. |
| Checkout.IdTakenAsWritten | git_scratch/commands/checkout.py:19-21 | A valid id that is not a branch name is returned unchanged, upper-case digits included. |
| Checkout.ResolversAgree | git_scratch/commands/checkout.py:9-23 | Where this resolver answers, it agrees with checkout_utils.py's `resolve_target_to_oid`, which passes every other target through. |
| Checkout.UpdateIndexFromCommit | git_scratch/commands/checkout.py:71-77 | The index becomes the commit's flattened tree. On failure it is left as it was. |
| Checkout.IndexOfBuiltCommit | git_scratch/commands/checkout.py:71-77 | For a commit the commit command built, the index is the walk of its tree. |
| Checkout.RestoreAndIndex | git_scratch/commands/checkout.py:112-113 | Restoring, then re-indexing, leaves the state and answer `Finish` gives. |
| Checkout.CheckoutCommand | git_scratch/commands/checkout.py:79-145 | The command leaves the state, and returns the answer, that `CheckoutSpec` gives. |
| Checkout.FinishLeaves | git_scratch/commands/checkout.py:112-113 | The shared tail moves neither refs nor HEAD and restores the working directory. On success the index is the commit's tree; on failure the index is unchanged. |
| Checkout.MissingBaseAborts | git_scratch/commands/checkout.py:88-97 | With -b, a base that cannot be found or read aborts with nothing changed. A missing object is "not found". |
| Checkout.ExistingBranchAborts | git_scratch/commands/checkout.py:100-103 | With -b, an existing branch of that name aborts with nothing changed. |
| Checkout.NewBranchCreated | git_scratch/commands/checkout.py:104-113 | With -b, a new branch is written holding the base. HEAD is attached to the new branch. The working directory is restored from the base commit, and the index is rebuilt from it. |
| Checkout.AttachedHead | git_scratch/utils/checkout_utils.py:26-30 | HEAD attached to a branch reads as that branch's stripped text. |
| Checkout.NewBranchHead | git_scratch/commands/checkout.py:104-108 | After -b, HEAD's commit is the base. |
| Checkout.NoTargetAborts | git_scratch/commands/checkout.py:117-126 | Without -b, a missing or unresolvable target aborts with nothing changed. |
| Checkout.DirtyAborts | git_scratch/commands/checkout.py:129-131 | Without -b, a dirty working directory, or a failure deciding it, aborts with nothing changed. |
| Checkout.SwitchMovesHead | git_scratch/commands/checkout.py:134-145 | A clean switch attaches HEAD to the branch, or detaches it at the id, and changes no ref. The working directory is restored and the index rebuilt from the resolved commit. |
| Checkout.SwitchHeadResolves | git_scratch/commands/checkout.py:134-141 | After a switch, HEAD's commit is the resolved id. |
| Checkout.IndexIsCheckedOutTree | git_scratch/commands/checkout.py:144-145 | After a successful checkout, the index is the commit's tree. The working directory holds exactly the tree's top-level names. |
| CatFile.CatFile | git_scratch/commands/cat_file.py:13-36 | Missing flags are a usage error and a malformed id is refused, both before any read. A missing object is "not found" and any other read failure is reported as such. |
| CatFile.AbsentIsNotFound | git_scratch/commands/cat_file.py:21-25 | A well-formed id that names no object is "not found". |
| CatFile.StoredIdsAreValid | git_scratch/commands/cat_file.py:17 | Every id the database can hold passes the format check. |
| CatFile.CatStoredObject | git_scratch/commands/cat_file.py:30-36 | -t gives the stored kind, also together with -p. -p alone gives a blob's content and refuses every other kind. |
| CatFile.CatAfterWrite | git_scratch/commands/cat_file.py:21-36 | A written object reads back through `cat-file` under the id the write returned. |
| CatFile.UpperCaseIdNotFound | git_scratch/commands/cat_file.py:17-25 | The format check accepts upper-case digits, but no stored id has them, so such an id is never found. |
| FindGitDir.Parent | git_scratch/utils/find_git_dir.py:14-15 | The parent is the path itself exactly at the root. Otherwise it drops the last component. |
| FindGitDir.FindGitDirFrom | git_scratch/utils/find_git_dir.py:8-18 | The climbing loop ends and gives the answer of `FindFrom`. |
| FindGitDir.StartFirst | git_scratch/utils/find_git_dir.py:10-12 | The starting directory is looked at first. |
| FindGitDir.FoundIsAncestor | git_scratch/utils/find_git_dir.py:9-18 | What is found is the `.git` directory of an ancestor of the start, the start included. |
| FindGitDir.NearestWins | git_scratch/utils/find_git_dir.py:9-18 | An ancestor is the answer exactly when it holds `.git` and no deeper ancestor does. |
| FindGitDir.NotFoundIff | git_scratch/utils/find_git_dir.py:14-17 | The search fails, with "not found", exactly when no ancestor, the root included, holds `.git`. |
| Text.HexRoundTrip | git_scratch/utils/tree.py:20 | `bytes.fromhex` then `.hex()` gives back any even-length lower-case hex text, so an id stored in a tree reads back as written. |
| Text.BytesRoundTrip | git_scratch/utils/tree_walker.py:19 | `.hex()` then `bytes.fromhex` gives back any byte string. |
| Text.SortPerm | git_scratch/utils/tree.py:32 | `sorted` keeps exactly the same names. |
| Text.SortSorted | git_scratch/utils/tree.py:32 | `sorted` of distinct names gives them in strictly increasing order. |
| Text.SplitJoin | git_scratch/commands/log.py:7 | Splitting text joined with a separator that no piece holds gives the pieces back. |
| Text.JoinSplit | git_scratch/commands/log.py:7 | Joining the pieces of a split with its separator gives the text back. |
| Text.StripPlainText | git_scratch/utils/checkout_utils.py:30 | `strip` leaves text without outer whitespace as it is, also when a newline follows it. |

## Left out

- SHA-1 and zlib are foreign code. SHA-1 is the parameter `hash`. The database stores decompressed frames. Round trips assume that no other stored frame shares the id (`Objects.NoCollision`).
- Object, ref and index files are not byte files on disk. The object database, the ref files, HEAD, `packed-refs` and `index.json` are fields of `Repository.Repo`. JSON encoding of the index is not modelled.
- Directory walks are parameters, because their order is the operating system's. This covers `os.walk` in `add`, `show-ref` and `list_working_dir_files`, the objects-directory listing of `rev-parse`, and the recursive glob of `list_project_files` in `status`. For `status`, `Status.ProjectFiles` states which listing the source produces; `Status.StatusCommand` itself accepts any listing, and the lemmas that speak of the working directory assume that one.
- Index.ComputeMode takes `st_mode` as a parameter, so it can be given a link's type bits and answer "120000". The source's `os.stat` follows links: a link is staged with its target's mode, a dangling link fails, and "120000" never occurs. The model does not constrain the parameter to rule that out.
- `find_git_dir`'s default argument `Path.cwd()` is evaluated once, when the module loads. `FindGitDir.FindGitDirFrom` always takes its start explicitly, so that moment is not modelled.
- `Path.resolve`, `os.path.relpath` and `os.makedirs` are not modelled. Paths are already relative, `/`-separated and normalised. Parent directories of written files are not tracked.
- Ignore rules come from an external pattern library. In `status` they are a predicate parameter.
- File modes from `os.stat` are a parameter of `Index.ComputeMode`.
- The author identity and the clock are read from the environment and `datetime.now`. They are the `Signature` parameter of the commit builder.
- Colours, help texts, error message wording and exit codes are left out. Every failure is a `Failure` value. Output is modelled only where the command's output is its result: `cat-file`, `ls-tree`, `log`, `rev-parse`, `show-ref`, `status` lists, and commit summaries.
- `status` timing (git_scratch/commands/status.py:72,128) and its debug dump of the index (78-81) are left out, because they are diagnostics.
- `init` is represented only by the state it leaves (`Repository.Repo.Init`). Directory creation is not modelled.
- `commit-tree`, `ls-files`, `hash-object` and the command-line wiring have no logic of their own and are not modelled.
- Text is ASCII and one character stands for one byte. Python's Unicode ordering, decoding errors and `errors="replace"` are not modelled.
- Partial writes and crash atomicity are not modelled. Only the order of the steps is.
- `create_branch`, `checkout_tree`, `write_HEAD_ref` and `is_branch` in git_scratch/commands/checkout.py are never called, so they are not modelled.
- Three names are imported in a way that does not give the function the code calls. The model gives each call its evident meaning:
  - `read_object` in git_scratch/commands/ls_tree.py:3 and git_scratch/commands/cat_file.py:3, which names the module rather than its function;
  - `entries_from_tree` in git_scratch/commands/checkout.py:6, which reset.py does not define (it has `_entries_from_tree`), taken as the tree walker;
  - `create_root_tree_object` in git_scratch/commands/porcelain_commit.py:3, which git_scratch/utils/tree.py does not define, taken as the tree builder followed by a write of the root as a tree.
- TreeWalk.WalkContent, TreeWalk.TreeFilesContent and Index.AddWalked are parts of single source functions. Each was split out so that its loop can carry its own invariant.
- TreeWalk.EntriesFromTree and TreeWalk.ReadTreeFiles take a `fuel` bound on recursion into subtrees, and so do the commands that flatten trees through them: `reset`, `checkout`, `status` and the dirty check. The bound stands for Python's recursion limit. Running out is the `RecursionLimit` failure.
- Commits.Log uses a `fuel` bound on the number of commits walked. A parent cycle, which the source would follow forever, ends when the fuel runs out.
- TreeCodec.NextRecord: a tree record without a space or NUL, or with fewer than 20 id bytes, is `Malformed`. The source computes with the `-1` that `find` returns, or slices a short id, and carries on.
- Commits.LogNext: an object whose header does not split into two words stops the walk with `Malformed`. In the source this is an uncaught `ValueError`.
- RevParse.RevParse does not model the initial check that `.git` is a directory (git_scratch/commands/rev_parse.py:20-23). The repository is taken to exist.
- CheckoutUtils.DetectDirtyWorkdir and CheckoutUtils.RestoreWorkingDir take the working files to be the working directory's keys. The source's test `root.startswith("./.git")` also skips directories such as `.github`, and the model does not.
- Index.AddDirectory: the walk skips files whose path contains ".git". The source's separate skip of walk roots containing ".git" is folded into that path test, because every file below such a root has such a path.
