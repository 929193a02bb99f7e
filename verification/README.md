# rource core in Dafny

rource reads the history of one or many git repositories and writes a
[Gource](https://gource.io) custom log: one `timestamp|username|action|file`
line per file change, in time order. This project models the deterministic
core under its git, threading and sorting glue, and proves properties of it.

- **Records** (`records.dfy`, src/structs.rs): the record and its order. The
  order is lexicographic over (timestamp, file, action, username), with
  actions ordered A < M < D. The module also covers building a record from a
  git delta (status mapping, username sanitising, path join) and the
  merge-sort configuration check.
- **Spool** (`spool.dfy`, src/serde.rs): the on-disk spool that merge-sort
  mode writes. Each record is one frame: a `u16` little-endian length, then
  that many payload bytes. The payload codec (CBOR) is an uninterpreted
  `Codec`. The module covers the writers, the frame iterator, and
  `record_count`.
- **Validation** (`validation.rs` → `validation.dfy`): `--alias` parsing, and
  repository discovery over an abstract directory tree (`Node`).
- **GitLog** (`gitlog.dfy`, src/git_stuff.rs): the changeset-size limit of
  `compute_diff`, and the per-commit routing of `read_git_log`. Each commit's
  changes go either to the spool or to the in-memory vector. The routing is
  modelled as a fold over the commits.
- **Output** (`output.dfy`, src/main.rs): joining the per-repository
  results, the in-memory timestamp sort and its `size_hint`, the sorter's
  memory budget, and alias substitution.
- `machine.dfy` holds the fixed-width integer types, and `wrappers.dfy` holds
  `Option`, `Result` and the error kinds.

The model follows the code where its behaviour is easy to misread:
- `MergeSortConfig::new` rejects chunk sizes below 50, while its error
  message and the CLI help (src/cli.rs) promise a 64 MB minimum.
- The in-memory path sorts by timestamp only, not by the full record order,
  so ties are left in an unspecified order.
- `record_count` counts a final frame whose header is complete even when its
  payload is cut short. The iterator does not yield that frame.

## Model

| member | source | states |
|---|---|---|
| Records.CmpAction | src/structs.rs:10-15 | action order follows declaration order: equal iff same action, and A < M < D |
| Records.CmpStr | src/structs.rs:35-37 | string comparison yields Equal exactly when the strings are equal |
| Records.CmpStrLess | src/structs.rs:35-37 | `CmpStr` says Less exactly when the first string is a proper prefix or is smaller at the first difference |
| Records.CmpStrReverse | src/structs.rs:35-37 | swapping the arguments reverses the string comparison |
| Records.CmpStrTransitive | src/structs.rs:35-37 | string Less is transitive |
| Records.Cmp | src/structs.rs:31-38 | `cmp` is Equal iff all four fields are equal, consistent with the derived `Eq` |
| Records.CmpIsLexicographic | src/structs.rs:31-38 | `cmp` is Less exactly under the lexicographic order of (timestamp, file, action, username) |
| Records.CmpReverse | src/structs.rs:31-38 | `cmp(b, a)` is the reverse of `cmp(a, b)` |
| Records.CmpTransitive | src/structs.rs:31-38 | Less is transitive on records |
| Records.LeAntisymmetric | src/structs.rs:31-38 | two records each `<=` the other are equal |
| Records.LeTransitive | src/structs.rs:31-38 | `<=` on records is transitive |
| Records.LeTotal | src/structs.rs:31-38 | any two records are comparable |
| Records.ActionOf | src/structs.rs:67-81 | Added gives A, Deleted gives D, Modified/Renamed/Copied/Typechange give M; the five other statuses give no record |
| Records.Sanitise | src/structs.rs:61-65 | the username has the author's length, contains no `\|`, each `\|` becomes `#`, and every other character is unchanged |
| Records.SanitiseIdempotent | src/structs.rs:61-65 | sanitising twice is sanitising once |
| Records.JoinPath | src/structs.rs:91-101 | the file is the path itself under an empty prefix, otherwise prefix, `/`, path |
| Records.TryFromDelta | src/structs.rs:42-109 | an unresolvable prefix fails; a missing author fails; a no-op status gives no record; a missing path or non-UTF-8 prefix fails; otherwise the record carries commit time, sanitised author, mapped action and joined path |
| Records.NewMergeSortConfig | src/structs.rs:124-155 | an unusable temporary directory fails first; the chunk size defaults to 4096, is rejected below 50, and is otherwise kept |
| Spool.ToLe | src/serde.rs:37 | the two header bytes read back with `from_le_bytes` give the length |
| Spool.LogToBytes | src/serde.rs:15-21 | fails exactly when the encoding exceeds 65535 bytes; otherwise `size` equals the payload length and the payload is the encoding |
| Spool.Frame | src/serde.rs:33-40 | a frame is `2 + size` bytes: the little-endian size, then the payload unchanged |
| Spool.LogWrite | src/serde.rs:33-40 | appends the frame as far as the writer has room; success iff all of it fits |
| Spool.BatchLogWrite | src/serde.rs:23-31 | appends the frames of the batch in batch order, as far as the writer has room; success iff all fit |
| Spool.BatchStopsAtFailingFrame | src/serde.rs:27-29 | a failed batch has written every frame before the failing one whole and the failing one only in part |
| Spool.SerializeLogs | src/serde.rs:101-107 | all-or-nothing: succeeds iff every record fits a frame; then one frame per record, same order, each payload the record's encoding |
| Spool.NextOverFrame | src/serde.rs:90-98 | on a whole frame `next` reads the declared length, then exactly that payload, decodes it, and leaves the reader just past the frame |
| Spool.ReadAllOverFrame | src/serde.rs:90-98 | a whole frame whose payload decodes yields its record, and reading resumes right after it |
| Spool.UndecodableEndsRead | src/serde.rs:97 | a whole frame whose payload does not decode ends the iteration without an error item |
| Spool.PartialFrameReadsNothing | src/serde.rs:91-95 | unread bytes that stop inside a frame, in its header or its payload, yield no record |
| Spool.RecordCount | src/serde.rs:62-78 | counts one frame per complete header after the cursor, skipping each declared payload length even past the end of the file, and rewinds to offset 0 |
| Spool.ReadBackFrames | src/serde.rs:90-98 | frames carrying records, read from where they start, yield those records in order and then whatever follows |
| Spool.ReadBackBatch | src/serde.rs:90-98 | with a faithful codec, reading a serialised batch yields exactly its records |
| Spool.SerializedCarries | src/serde.rs:101-107 | with a faithful codec each serialised frame decodes to its own record |
| Spool.TruncatedSpoolYieldsPrefix | src/serde.rs:91-95 | a spool cut short anywhere yields a prefix of its records; a partial frame is never read as a record |
| Spool.CountFramesOfBatch | src/serde.rs:62-78 | the count over a batch is the batch size plus the count of what follows |
| Spool.CountMatchesRead | src/serde.rs:62-78 | on whole frames the count equals the number of records the iterator yields |
| Spool.TrailingByteIgnored | src/serde.rs:64-70 | a single trailing byte is neither counted nor read |
| Spool.TruncatedFrameCountedNotRead | src/serde.rs:72-76 | a final header whose payload is missing is counted but not yielded |
| Validation.SplitSound | src/validation.rs:10 | `split("::")` parts rejoin to the input, contain no `::`, and are cut at the leftmost separator |
| Validation.SplitJoin | src/validation.rs:10 | splitting the join of separator-free parts gives those parts back |
| Validation.SplitUnique | src/validation.rs:10 | the split is the only list of parts with those properties |
| Validation.InsertAliases | src/validation.rs:8-17 | the loop succeeds iff every alias splits into exactly two parts, and then holds the map built by inserting every alias in turn |
| Validation.AliasKeysBuilt | src/validation.rs:8-17 | the keys of that map are exactly the aliases' git usernames |
| Validation.AliasLastWins | src/validation.rs:16 | each username maps to the replacement given by its last alias: a later insert replaces an earlier one |
| Validation.ValidateAliases | src/validation.rs:7-19 | fails iff some alias does not split into exactly two parts; otherwise maps exactly the first parts, each to the second part of its last alias |
| Validation.AliasExamples | src/validation.rs:10-16 | `a` and `a::b::c` are rejected; `a::` maps `a` to the empty string; `a:::b` maps `a` to `:b` |
| Validation.DiscoverFinds | src/validation.rs:22-70 | on success the result is exactly the paths whose directory holds a `.git` the filter admits, reached through admitted, non-`.git` directories, recursively only when asked |
| Validation.ScanFinds | src/validation.rs:30-67 | a path comes out of the entry loop iff some entry contributes it |
| Validation.NonRecursiveFindsOnlyRoot | src/validation.rs:62-66 | without recursion every path found is the root |
| Validation.NonRecursiveRootOrNothing | src/validation.rs:54-66 | without recursion the result is `[root]` iff the root holds an admitted `.git`, else empty |
| Validation.FilteredGitFindsNothing | src/validation.rs:43-50 | when the filter skips `.git` itself, nothing is found |
| Validation.GitContentsIgnored | src/validation.rs:54-60 | a `.git` directory is never entered: its contents, or whether it can be listed, do not matter |
| Validation.ScanAppend | src/validation.rs:62-69 | entries are visited in listing order and their results concatenated; the first failure wins |
| GitLog.SurvivorsMembers | src/git_stuff.rs:150-155 | a record survives iff some delta produced it; skipped and failed deltas are dropped |
| GitLog.SurvivorsAppend | src/git_stuff.rs:150-155 | dropping keeps diff order |
| GitLog.FailedDeltaDropped | src/git_stuff.rs:150-155 | a failing delta does not abort the diff |
| GitLog.WrappingIncrement | src/git_stuff.rs:158 | `limit + 1` on a `usize` in a release build is addition modulo 2^64 |
| GitLog.ComputeDiffAsWritten | src/git_stuff.rs:157-162 | the code as written returns all survivors or none |
| GitLog.ComputeDiff | src/git_stuff.rs:157-165 | with a limit, all survivors in order if at most `limit`, else none; without one, all survivors |
| GitLog.AsWrittenAgreesBelowMax | src/git_stuff.rs:157-162 | the code as written follows the rule for every limit below `usize::MAX` |
| GitLog.AsWrittenDropsEverythingAtMax | src/git_stuff.rs:158 | at `usize::MAX` the code as written drops every change the rule keeps |
| GitLog.AsWrittenCounterexample | src/git_stuff.rs:158 | a one-change diff under `usize::MAX` comes out empty as written |
| GitLog.DiffBase | src/git_stuff.rs:141-146 | the diff base is the parent tree iff the commit has exactly one parent |
| GitLog.ChangesAsWrittenBelowMax | src/git_stuff.rs:83-90 | for every limit but `usize::MAX`, the changes the closure routes are exactly what `compute_diff` as written returns |
| GitLog.HandleCommit | src/git_stuff.rs:83-110 | an empty change list changes nothing; in spool mode a serialisation failure changes nothing, else the batch is appended as one contiguous run; in buffered mode the changes are appended in order |
| GitLog.ReadCommitsAppend | src/git_stuff.rs:65-111 | handling two runs of commits is handling the first, then the second |
| GitLog.BufferedCollectsAll | src/git_stuff.rs:104-110 | buffered mode gathers every commit's changes in commit order and leaves the spool alone |
| GitLog.SpoolHoldsBatches | src/git_stuff.rs:92-103 | spool mode leaves the vector alone and appends each serialisable commit's frames, commit by commit, as far as the writer has room |
| GitLog.BatchesCarryRecords | src/git_stuff.rs:92-103 | the spooled frames decode, one for one, to the records of the commits that reached the spool |
| GitLog.SpoolReadsBack | src/git_stuff.rs:92-103 | reading the spool back yields those records in commit order, a prefix of them if the writer ran out of room, and the count agrees when nothing was cut |
| GitLog.ReadGitLog | src/git_stuff.rs:104-122 | the returned vector is empty in spool mode and every commit's changes in buffered mode |
| Output.CollectLogs | src/main.rs:109-120 | the run fails iff some repository failed, with one of their errors |
| Output.CollectLogsConcatenates | src/main.rs:109-126 | on success the records are the repositories' vectors concatenated in repository order |
| Output.BufferedRunCollects | src/main.rs:109-126 | in buffered mode the sort receives every commit's changes, repository by repository |
| Output.InsertKeepsSorted | src/main.rs:204 | inserting into a timestamp-sorted list keeps it sorted |
| Output.SortByTime | src/main.rs:204 | the in-memory result is a permutation of the input, non-decreasing by timestamp |
| Output.TimestampOrderNotUnique | src/main.rs:204 | two records equal in time are timestamp-sorted both ways round, while the full order admits one |
| Output.OrdSortedIsTimeSorted | src/structs.rs:31-38 | a list sorted by the full order is also sorted by timestamp |
| Output.OrdSortedUnique | src/main.rs:190-200 | two `Ord`-sorted permutations of the same records are equal, so the external sort's result is determined |
| Output.ExternalSortScenario | src/main.rs:190-200 | three sample records have exactly one `Ord`-sorted arrangement |
| Output.InMemorySource | src/main.rs:202-208 | `size_hint` equals the number of records, which are the input sorted by timestamp |
| Output.ChunkBudget | src/main.rs:193-195 | the budget is a whole number of MiB equal to the chunk size, when that fits a `u64` |
| Output.ChunkBudgetExamples | src/main.rs:194 | the default chunk size gives 4 GiB and the minimum gives 50 MiB |
| Output.ApplyAlias | src/main.rs:247-249 | the username is replaced iff it is an alias key; timestamp, action and file are kept |
| Output.ApplyAliases | src/main.rs:244-251 | every record is aliased in place, order kept |
| Output.AliasesKeepOrder | src/main.rs:244-251 | aliasing keeps the list timestamp-sorted exactly when it was before |
| Output.AliasesRespectPermutation | src/main.rs:244-251 | aliasing two permutations of the same records gives permutations of each other |
| Output.InMemoryOutput | src/main.rs:203-212 | the in-memory path writes a timestamp-sorted permutation of the aliased input, as many records as its `size_hint` |

## Left out

- git2: opening repositories, revwalks, commit counts, diffs, and `validate_repositories`. These are a foreign library. A commit reaches the model as the outcome `try_from_delta` had for each of its deltas, or as `Unavailable`.
- The repository prefix, the author name and the commit time are inputs to `Records.TryFromDelta`. `strip_prefix` and `parent()` are folded into `RepoPrefix`.
- CBOR (`serde_cbor`) is a foreign codec, modelled as the uninterpreted `Spool.Codec`. Round trips assume `Faithful`: decoding an encoding gives the record back.
- The external merge sort (`ext_sort`) is a foreign crate. Only its order is modelled: `Output.OrdSortedUnique` shows that any `Ord`-sorted permutation is the same list.
- rayon, `Mutex` and `BufWriter`: concurrency and buffering.
  - Commits and repositories are handled in one sequential order. The proved properties hold for whatever order the fold is given.
  - Holding the lock across a whole batch is what keeps a batch contiguous, and the model simply writes it in one step.
  - `flush` is not modelled.
- GitLog.HandleCommit: routes each commit's changes under the corrected limit rule `GitLog.ComputeDiff`, not the code as written. The two differ only at `--max-changeset-size` equal to `usize::MAX` (see Findings). There the code as written routes nothing, and the model routes every change. `GitLog.ChangesAsWrittenBelowMax` proves they agree for every other limit.
- GitLog.ReadGitLog: "every commit's changes" is meant under the corrected rule, for the same reason as `GitLog.HandleCommit`.
- Spool.WriteAll: an I/O failure is modelled as the writer running out of room. A failed `write_all` keeps the bytes that fitted. Other failure patterns of a real file are not modelled.
- Spool.Next: after a short `read_exact` the reader is taken to the end of the spool. What a real short read consumes does not change the sequence, which has ended.
- Spool.RecordCount: the `u64` counter is unbounded; the spool cannot hold 2^64 frames.
- Spool.SerializeLogs: the parallel map is modelled sequentially. If several records are too large, which error is reported does not matter, since all carry `RecordTooLarge`.
- Output.CollectLogs: returns the first failing repository's error. The parallel `collect` may report any of them, and the contract promises only that the error is one of them.
- Output.SortByTime: equal timestamps come out in one fixed arrangement. The contract promises only what `sort_unstable_by_key` does: a permutation, non-decreasing by timestamp.
- Output.ChunkBudget: requires `chunk_size * 1024 * 1024` to fit a `u64`. Chunk sizes of 2^44 MB or more, which the CLI accepts, overflow there and are not modelled.
- Validation: `file_type()` and directory-entry errors are not modelled. A directory that cannot be listed is a `Locked` node, and `read_dir` failing on it fails the walk.
- Filesystem work is not modelled: temporary-directory creation and random names (`tmpUsable` stands for their outcome), removal of old spool files, cleanup, and opening the output file.
- Progress bars, logging, sigpipe handling and the CSV writer, including its quoting, are output only.
- src/cli.rs is argument declarations only, and src/consts.rs is string constants only.

## Findings

| source | as written | input that shows it | evidently intended | confidence | as-written member | corrected member |
|---|---|---|---|---|---|---|
| src/git_stuff.rs:158 | `iter.take(limit + 1)` with `limit: usize` | `--max-changeset-size 18446744073709551615` on a commit with one change. A release build wraps `limit + 1` to 0, so `take(0)` yields nothing and every commit contributes nothing. A debug build panics instead. | the largest limit keeps every commit whole, as no limit would | not executed; high that release builds wrap, since the overflow-check setting of the build profile is not part of this model | GitLog.ComputeDiffAsWritten, GitLog.AsWrittenCounterexample, GitLog.AsWrittenDropsEverythingAtMax | GitLog.ComputeDiff |
