# Verified model of the tamper-evident storage layer

A Dafny model, with proofs, of the parts of the repository that other code trusts not to lose, alter or
miscount anything: the hash-chained event log, the content-addressed blob store with its deduplication, streamed
hashing and the Merkle root, the buffered decision stream, the settings store, and the smaller state machines
built beside them (replay comparison, GUI event log, leak checker, course auto-naming).

`dafny verify dfyconfig.toml` checks the project.

## What is modelled, and how

| file | models |
|---|---|
| LockWait.dfy | the lock loop of `lib/hash_chain.py` |
| HashChain.dfy | `lib/hash_chain.py` as one process sees it: the log object over its file, the readers, the index, and what the head hash binds |
| ChainProtocol.dfy | `append` as interleaved steps of any number of threads and processes, with stale and shared caches, timeouts, failures, crashes and closed log objects |
| FileTree.dfy | regular files and symbolic links, read through links |
| ContentStore.dfy | effects and laws of the operations of `lib/content_store.py` |
| ContentStoreOps.dfy | the operations themselves, one file-system call at a time |
| ContentSteps.dfy | what a deduplication or a restore may have done when it stops after any call |
| ContentRuns.dfy | whole runs of those operations, each possibly stopped |
| StoreRace.dfy | processes storing the same content at the same moment through one temporary path |
| Provenance.dfy | chunked hashing and the Merkle root of `lib/provenance.py` |
| DecisionStream.dfy | the capture object of `lib/decision_capture.py` |
| DecisionThreads.dfy | threads sharing one capture, crashes, and a close beside them |
| Settings.dfy, SettingsLaws.dfy, SettingsStore.dfy | the document, the laws and the two files of `gui/settings_store.py` |
| ReplayEngine.dfy | run comparison and the short-hash chain of `lib/replay_engine.py` |
| EventLog.dfy | the event log of `gui/shared_state.py` and its writers |
| EventPoll.dfy | the consumer that polls it with `since`, as `gui/static/app.js` line 1780 does |
| LogTail.dfy | tailing a run's log, size and read apart |
| LeakChecker.dfy | the answer registry and the checks of `lib/leak_checker.py` |
| LeakScope.dfy | what a scoped check looks for after any run of registrations |
| Autoname.dfy | slug truncation in `lib/course_autoname.py` |
| Hashing.dfy, JsonValue.dfy, Substring.dfy | what the others share |

Code that changes fields, files or arrays step by step is a class with methods and loops, each proved against a
specification function; the laws are lemmas about those functions. Concurrency is modelled as steps of a state
machine, and the results hold for every run.

Assumptions, all of them visible as parameters or `requires`:

- Hash functions are uninterpreted. A fixed-width hash cannot be injective, so no result assumes that: where one
  rests on collision resistance it asks it of the finitely many inputs the operation actually hashed
  (`NoCollision`). Digests are lower-case hexadecimal and, where stated, of fixed width.
- JSON text is a pair of functions. An object's text starts with `{` (section 4 of RFC 8259), and printing and
  parsing a parsed event changes nothing (`Codec.Lawful`).
- Lines and renames are atomic, and so is each write to an open file, but not with the opening before it; a directory
  walk is a snapshot of the names.
- `freshName` stands for `mkstemp`: some name not in use.
- JSON objects are maps: the text `str` makes of one is taken not to depend on the order of its keys, which
  Python keeps.
- The default settings document has an empty `env`, version 1 and no time stamp, as `gui/env_catalog.py`
  lines 1146-1149 give it; `str` of a value that is not a string is not blank (`Catalog.Valid`).

## Where the code and its documentation differ

The model follows the code.

- `HashChainedLog.append` is there to extend a chain that verifies. It leaves one that `verify` rejects when the event
  prints differently after a write and a read, for instance with the integer keys 2 and 10. `AppendVerifiesIffStable`
  gives the exact condition, `UnstableEventBreaksChain` the input, `EveryReachableLogIsAChain` the same over runs.
- Deduplication is described as replacing duplicates. A real run replaces every scanned file, as the first pass
  has stored each of them (`DedupeEffect`); a dry run does look for duplicates, and for contents already stored
  (`DryListedMembers`).
- `space_saved_bytes` is the size of everything replaced, not the space freed. `ReportedSavingIsGross` says what
  is freed, `ReportedSavingIsExactIff` when the two agree: if and only if every file replaced was empty or stored
  before the run.
- Restoring is called atomic. Between the unlink and the rename the path does not exist (`RestoreOne`). A restore
  that stops there, or whose rename raises, is the one way to lose an artifact from its path; in the second case the
  temporary copy is removed too and only the blob has the bytes (`ArtifactSurvivesRun`, `BytesSurviveRun`).
- A blob is to hold the content it is named by. Stores of one content share a temporary path, so that one can rename
  the file another has just truncated; if that one dies, the blob is empty for good (`SharedTemporaryLeavesShortBlob`,
  `BlobIsFinal`). `BlobWholeOrBeingWritten` says how far it can come, `ExclusiveRunIsWhole` when it cannot.
- `close` verifies and closes without the lock. An append that has passed its test still goes through
  (`AppendAfterClose`), so that the verified log need not be the final one (`VerifiedLogIsFinalIff`); from
  `Settled` on it is (`SettledLogIsFinal`).
- Blob names must be hexadecimal; the pattern lets a final line end through (`LineEndSlipsThrough`), to no effect
  (`LineEndNamesNothing`).
- `hash_file` accepts a chunk size of 0 and then returns the digest of no bytes (`HashFile`).
- Different lists can have the same Merkle root, by padding and by height, and the empty list shares its root with
  the list of the digest of no bytes; `RootsEqualExactlyWhen` and `EmptyRootExactlyWhen` list all ways.
- Applying a settings patch twice can store a different document: a version that converts to 0 is written as 0
  and then as 1 (`ZeroVersionDrifts`), and an object patched over an object in a secret slot prints differently once
  merged (`ObjectSecretDrifts`). `PatchTwiceStoresSame` gives the exact condition.
- The migration on load is to leave no plaintext secret in settings.json. Its test sees text only, while a number, a
  list or an object counts as a secret when the document is split: `LoadClearsSecretsIff`, `NumberStaysOnDisk`.
- An update is to keep what the patch does not mention. Over a missing or unreadable settings.json it wipes the secrets
  of the sidecar (`SecretSurvivesUpdateIff`).
- `_validate` says that unknown `env` keys are dropped; they are kept (`UnknownKeysStay`).
- `append_event` documents the sources `gui` and `claude`; the code accepts `assistant` too.
- A check scoped to an assessment is to look for that assessment's answers. Question names are shared by all
  assessments, and an unnamed question is called after the number of answers registered before it in its call, so that
  the first one is always `q_0`: a later registration takes earlier questions over. `ScopeKeepsAnswerIff` and
  `ScopeKeepsAnswersIffNamesKept` say exactly when answers stay in scope; `TwoUnnamedQuestionsLeak` shows a leak that
  is let through when they do not.
- Closing a capture is to lose no telemetry. It does if a row is buffered, in flight or logged while the handles are
  being closed: `CloseLosesNothingIff` says exactly when, stream by stream, and `CloseLosesNothingIffQuiet` for a
  caller. A write that meets a closed handle makes `log_decision` raise and skip the streams after it
  (`EmitMoves`, `RaiseLeavesHole`); a stream skipped once never catches up (`StreamCompleteIff`).
- A poller of `tail_log` is to receive each byte once. The size is taken before the bytes are read, and what is
  appended in between arrives again with the next poll: `PollsDeliverOnceIffUndisturbed`, `DisturbedPollDeliversTwice`.
- A consumer that polls events with `since` is to miss none. It misses one for good as soon as two writers have
  counted the same lines: `PollerReceivesAllIffUndisturbed`, `LateLowNumberNeverSeen`.

## Model

| member | source | states |
|---|---|---|
| LockWait.AcquireLock | lib/hash_chain.py:180-227 | Polling ends with the first attempt that finds the lock free or fails past the deadline; it is taken exactly if that attempt finds it free. Sleep j is the delay listed at j, or the last one listed, but no more than the time remaining, and nothing if that is not positive; the clock advances by the sleeps and by what the attempts take. The sleeps total at most the timeout; with every delay at least b there are at most ceil(timeout/b)+1 attempts. Asked of the surroundings: that there is such an attempt. |
| LockWait.Poll | lib/hash_chain.py:200-227 | The loop by itself, as `append` uses it. |
| LockWait.WaitsAre | lib/hash_chain.py:211-227 | The clock and the total of the sleeps of such a wait are those the bounds below speak of. |
| LockWait.PositiveDelaysStop | lib/hash_chain.py:202-227 | With every delay at least b > 0 there is such an attempt, at the latest the one after number ceil(timeout/b). |
| LockWait.SleptBounds | lib/hash_chain.py:218-227 | The requested sleeps never add up to more than the timeout, whatever the delays. |
| LockWait.WaitBounds | lib/hash_chain.py:218-227 | While attempts fail before the deadline the clock advances by at least b per attempt or reaches the deadline. |
| LockWait.TriesBound | lib/hash_chain.py:202-227 | An attempt follows only if the one before has a number of at most ceil(timeout/b). |
| LockWait.SleepBounds | lib/hash_chain.py:218-227 | Each sleep is positive, at most the remaining time, and at least b or all of the remaining time. |
| HashChain.UniqueDecoding | lib/hash_chain.py:175-178 | The hashed text, a bare concatenation, decodes in one way only, because a JSON object starts with a brace and neither `genesis` nor a digest contains one. |
| HashChain.HeadIsBraceless | lib/hash_chain.py:360-424 | The head of a valid chain has no brace in it, and it is `genesis` exactly for the empty log. |
| HashChain.HeadBindsLog | lib/hash_chain.py:175-178 | The head binds the whole log: two logs that verify and have the same head hold the same events in the same order, timestamps aside, unless two of the texts hashed for them collide. |
| HashChain.HeadBindsPrefix | lib/hash_chain.py:360-424 | An intermediate hash binds the prefix that leads to it, and its length. |
| HashChain.TimestampsAreFree | lib/hash_chain.py:262-272 | The stored timestamp is not covered: rewriting timestamps changes neither the verdict nor the head. |
| HashChain.PrefixWellFormed | lib/hash_chain.py:360-424 | Every prefix of a valid chain is a valid chain. |
| HashChain.AppendVerifiesIffStable | lib/hash_chain.py:229-286 | Appending to a log that verifies gives one that verifies if and only if the event prints the same after a write and a read. |
| HashChain.UnstableEventBreaksChain | lib/hash_chain.py:262-272 | A concrete event, with the integer keys 2 and 10, that is appended without complaint and then makes the log fail verification, under any hash that tells its two texts apart. |
| HashChain.AppendKeepsVerdict | lib/hash_chain.py:229-286 | Appending never repairs a broken log. |
| HashChain.HashChainedLog.constructor | lib/hash_chain.py:119-160 | A fresh object stands at the tail of the file, an empty backoff list means the default one, and nothing is closed. |
| HashChain.HashChainedLog.LoadChainState | lib/hash_chain.py:162-173 | The cached state becomes that of the last event; an empty file leaves it alone. |
| HashChain.HashChainedLog.Append | lib/hash_chain.py:175-286 | The event written is made from the tail of the file as it is under the lock, whatever was cached: its number is one more than the last one, its `prev_hash` the last hash, and its own hash that of `prev_hash` followed at once by the text of the event; what is stored is the event as its text reads back (on an empty file it starts from the cache, which every run leaves at the start of a chain). A closed log or a lock timeout changes nothing, and which of them it is, is fixed. |
| HashChain.HashChainedLog.ReadAll | lib/hash_chain.py:296-313 | All events, blank lines skipped. |
| HashChain.HashChainedLog.ReadRange | lib/hash_chain.py:315-341 | On a log numbered 0, 1, 2, .. stopping early loses nothing: the result is the slice of the full read. |
| HashChain.SliceSnoc | lib/hash_chain.py:330-338 | One more event extends a slice exactly if its number lies in the range. |
| HashChain.SliceStops | lib/hash_chain.py:337-338 | Past the end of the range nothing more is to be found. |
| HashChain.HashChainedLog.FindEvent | lib/hash_chain.py:473-497 | On a numbered log the event of that number or none; on any log an event returned is stored and has the number asked for. |
| HashChain.HashChainedLog.Verify | lib/hash_chain.py:360-424 | Accepts exactly the logs in which event i has number i, names the hash of event i-1, `genesis` for the first, and has the hash of that name followed at once by its text; otherwise `verified_events` is the length of the longest prefix that verifies and `first_invalid_seq` the stored number of the event after it. |
| HashChain.LinkedMeans | lib/hash_chain.py:175-178 | What a valid link is, written out for one event. |
| HashChain.InvalidMeans | lib/hash_chain.py:383-414 | A log that does not verify has an event with a wrong number, a wrong link or a wrong hash. |
| HashChain.BrokenLinkBreaksLonger | lib/hash_chain.py:383-414 | No prefix that includes a broken link verifies. |
| HashChain.HashChainedLog.Close | lib/hash_chain.py:426-457 | Closing with verification refuses exactly the logs that do not verify, and a refusal leaves the log open. |
| HashChain.ChainIndex.Rebuild | lib/hash_chain.py:541-563 | Each number that occurs is mapped to the byte offset of the last line that carries it, and no other number is. |
| HashChain.ReadLineAtOffset | lib/hash_chain.py:541-563 | Reading one line at the sum of the lengths before it yields that line. |
| HashChain.IndexLeadsToEvent | lib/hash_chain.py:541-575 | On a numbered log, reading one line at the indexed offset of s yields event s. |
| ChainProtocol.ReloadFindsTail | lib/hash_chain.py:162-173 | In every state a thread that reloads obtains the length and the head of the log, however stale its cache was. |
| ChainProtocol.WriteExtendsChain | lib/hash_chain.py:261-282 | The record made from a fresh tail extends the chain. |
| ChainProtocol.StepKeepsInv | lib/hash_chain.py:229-286 | Opening and closing log objects, spawning, trying the lock, timing out, reloading, writing, updating, unlocking, failing and crashing all keep the invariant: the log is a chain, the lock holder is the one thread inside, and what was acknowledged is in the log. |
| ChainProtocol.ReloadKeepsThreads | lib/hash_chain.py:162-173 | A reload leaves each thread in a consistent place. |
| ChainProtocol.SectionStepKeepsThreads | lib/hash_chain.py:261-286 | So do write, update and unlock, even for threads that share one log object and its cache. |
| ChainProtocol.WaitingStepKeepsThreads | lib/hash_chain.py:180-227 | So do starting, trying the lock and timing out. |
| ChainProtocol.LeavingStepKeepsThreads | lib/hash_chain.py:285-286 | So do failing and crashing at any point, which free the lock. |
| ChainProtocol.StepAppendsAtMostOne | lib/hash_chain.py:274-282 | Only a write changes the log, by one line at its end. |
| ChainProtocol.TimeOutChangesNothing | lib/hash_chain.py:209-216 | A writer that times out does not hold the lock and has changed nothing: not the log, not a cache, not another thread. |
| ChainProtocol.TimedOutWroteNothing | lib/hash_chain.py:202-216 | Over a run: a thread whose append times out has been waiting for the lock ever since that append started, and no write between the two is its own. |
| ChainProtocol.RunKeepsInv | lib/hash_chain.py:162-286 | The invariant holds in every state of every run of any number of writers. |
| ChainProtocol.RunOnlyAppends | lib/hash_chain.py:229-286 | Over any stretch of a run the log only grows at its end. |
| ChainProtocol.AcknowledgedIsPermanent | lib/hash_chain.py:229-286 | Every record `append` has returned is in every later log, at the number returned, and no two returned records share a number. |
| ChainProtocol.AppendIsTheseSteps | lib/hash_chain.py:229-286 | Trying a free lock, reloading, writing, updating and unlocking without disturbance do to log and cache exactly what `HashChainedLog.Append` promises, and acknowledge the same record. |
| ChainProtocol.AppendStepsPossible | lib/hash_chain.py:229-286 | These five steps are always possible when the lock is free. |
| ChainProtocol.EveryReachableLogIsAChain | lib/hash_chain.py:162-286 | In every state of every run the log is numbered 0..n-1 and linked, and it verifies if and only if every event written prints the same after a write and a read. |
| ChainProtocol.VerifiedFileCanStart | lib/hash_chain.py:119-160 | A run may start from any file that verifies. |
| ChainProtocol.OneWriterAtATime | lib/hash_chain.py:253-286 | No two threads are ever inside the critical section. |
| ChainProtocol.VerifiedLogIsFinalIff | lib/hash_chain.py:426-457 | The log as `close` verified it is the log at any later moment of the run if and only if nobody has written in between. |
| ChainProtocol.SettledLogIsFinal | lib/hash_chain.py:250-283 | It is final, until another log object is opened on the file, once every log object is closed and no append is between its test for that and its write. |
| ChainProtocol.StepKeepsSettled | lib/hash_chain.py:250-283 | From such a state no step but an opening leads out, and no write is possible. |
| ChainProtocol.AppendAfterClose | lib/hash_chain.py:250-283 | Otherwise not: from any state in which the lock is free, an append that has passed the test can still add its record to a log object closed meanwhile. |
| FileTree.ResolveIsChain | lib/content_store.py:718-722 | A path leads to the file at the end of the chain of links that starts there, and nowhere exactly if there is no such chain. |
| FileTree.LinkingPreservesReads | lib/content_store.py:602-609 | Replacing a file by a link to a file with the same bytes changes what no path reads, links to it included. |
| FileTree.ResolveAfterLinking | lib/content_store.py:602-609 | Every path that led to the replaced file leads to the blob, every other path where it led before. |
| FileTree.CopyingPreservesReads | lib/content_store.py:735-745 | Replacing a link by a copy of what it leads to changes what no path reads. |
| FileTree.AddingPreservesReads | lib/content_store.py:191-203 | Adding files, and adding, changing or removing temporary files, is noticed by no reader. |
| ContentStore.StoreKeepsSound | lib/content_store.py:168-209 | After a store each blob still hashes to its name. |
| ContentStore.StoredIs | lib/content_store.py:168-209 | A content not stored before gets its blob and leaves no temporary file; one that was stored changes nothing. |
| ContentStore.RetrieveAfterStore | lib/content_store.py:168-209 | What was stored is what is retrieved, unless it collides with a content already in the tree. |
| ContentStore.StoreIsIdempotentAndLocal | lib/content_store.py:168-251 | Storing twice is storing once, and no other blob, artifact or link is touched. |
| ContentStore.StorePreservesReads | lib/content_store.py:168-251 | A store is noticed by no reader. |
| ContentStore.ScanMembers | lib/content_store.py:530-550 | The files scanned are the regular files selected by the patterns, each once. |
| ContentStore.ScannedAre | lib/content_store.py:530-550 | Written out: the regular files of the walk that match some include pattern, if there are any, and no exclude pattern. |
| ContentStore.ScanConcat | lib/content_store.py:530-550 | They come in the order of the walk. |
| ContentStore.LinkCountIs | lib/content_store.py:547-549 | `already_symlinks` in a dry run is the number of selected links that lead to a file; in a real run it is at least the number of those that can be read and at most the number of selected links. |
| ContentStore.StoresLeaveBlobs | lib/content_store.py:530-576 | The first pass leaves a blob for each scanned content, creates no other, alters none, and touches nothing outside the store. |
| ContentStore.RepeatedStoreIsIdle | lib/content_store.py:561-565 | Skipping a digest met before in the pass loses nothing. |
| ContentStore.LinksAt | lib/content_store.py:579-609 | The second pass turns exactly the listed files into links to the blobs of their digests. |
| ContentStore.LinksPreserveReads | lib/content_store.py:579-609 | After each single replacement every path reads the same bytes. |
| ContentStore.DedupeEffect | lib/content_store.py:482-630 | Path by path: each selected regular file, not only duplicates, becomes a link to a blob with its bytes; nothing else among the artifacts changes; no blob changes; every path reads as before. |
| ContentStore.SecondDedupeIsIdle | lib/content_store.py:482-630 | A second run with the same patterns scans nothing and changes nothing. |
| ContentStore.RestoreAt | lib/content_store.py:694-755 | Restoring leaves the blobs alone and turns a link to a blob into a file with its bytes when the walk comes to it. |
| ContentStore.RestoreReportSnoc | lib/content_store.py:713-755 | Count and errors of a restore add up what is said of each path in the tree as it is when its turn comes. |
| ContentStore.RestoreUndoesDedupe | lib/content_store.py:694-755 | In any later tree that still has the link and the blob, restoring makes each replaced path the regular file it was. |
| ContentStore.RestorePreservesReads | lib/content_store.py:694-755 | A restore changes what no path reads. |
| ContentStore.DryListedMembers | lib/content_store.py:598-620 | A dry run lists a scanned file exactly if its digest was counted more than once or is in the store. |
| ContentStore.DryRunAnnouncesAllIff | lib/content_store.py:598-620 | A dry run lists what the real run replaces if and only if every file has a second copy or is in the store already; otherwise it lists less. |
| ContentStore.CountedTwice | lib/content_store.py:556-559 | A count above one means two different paths with that digest. |
| ContentStore.DistinctHashesAreContents | lib/content_store.py:575-576 | `unique_blobs` is the number of distinct scanned contents, short of a collision. |
| ContentStore.StoresCost | lib/content_store.py:561-565 | The first pass costs the bytes of the blobs it creates. |
| ContentStore.LinksSave | lib/content_store.py:602-612 | The second pass frees the sizes of the files it replaces. |
| ContentStore.ReportedSavingIsGross | lib/content_store.py:611-612 | Conservation of disk space: space in use afterwards plus `space_saved_bytes` is space in use before plus the bytes of new blobs. |
| ContentStore.NoNewBytesIff | lib/content_store.py:561-565 | The first pass creates no bytes exactly if each file is empty or in the store already. |
| ContentStore.ReportedSavingIsExactIff | lib/content_store.py:611-612 | So `space_saved_bytes` is the space freed if and only if every file replaced was empty or in the store before the run. |
| ContentStore.DistinctFilesSaveNothing | lib/content_store.py:598-612 | A run over files with pairwise different new contents frees nothing, whatever the order of the two walks. |
| ContentStore.NewContentsCostTheirSize | lib/content_store.py:561-565 | For such files the new blobs take exactly the space reported as saved. |
| ContentStore.AcceptedNameIsSafe | lib/content_store.py:117-130 | No accepted blob name is empty or holds a slash, a backslash or a dot. |
| ContentStore.LineEndSlipsThrough | lib/content_store.py:117-128 | Besides hexadecimal names the pattern accepts exactly those followed by one line end; a witness. |
| ContentStore.LineEndNamesNothing | lib/content_store.py:119-130 | Such a name reaches no blob: every blob of a sound store has a hexadecimal name. |
| ContentSteps.StoreCallsAreDeduping | lib/content_store.py:191-203 | Each call of a store keeps every blob and every artifact. |
| ContentSteps.LinkCallsAreDeduping | lib/content_store.py:602-609 | After each call of a replacement every artifact is as it was or a link to the blob of its bytes, and besides them there is at most one temporary file. |
| ContentSteps.DedupingTransitive | lib/content_store.py:482-630 | So it is seen from the start of the run. |
| ContentSteps.RestoreCallsAreRestoring | lib/content_store.py:735-745 | After each call of a restored link every artifact is as it was or the copy of what it led to, except that between unlink and rename one is missing and its copy is under the temporary name. |
| ContentSteps.RestoringTransitive | lib/content_store.py:716-753 | So it is seen from the start of the restore, as a link still to be restored leads where it did. |
| ContentSteps.UnlinkOpensGap | lib/content_store.py:744-745 | Between unlink and rename every path would read as before if the temporary file were moved into place. |
| ContentSteps.GapReads | lib/content_store.py:744-745 | Until then only the paths that lead to the missing one are affected, and their bytes are under the temporary name. |
| ContentStoreOps.Store.StoreContent | lib/content_store.py:168-209 | Effect of a store; after each file-system call, also between the write of the temporary file and the rename, each blob hashes to its name and every path reads as before; a present blob means no call at all. |
| ContentStoreOps.Store.StoreFile | lib/content_store.py:211-251 | The same for the bytes a path leads to; a path that leads to no file is an error and changes nothing. |
| ContentStoreOps.Store.HasContent | lib/content_store.py:253-268 | True exactly if there is a blob under the digest of the content. |
| ContentStoreOps.Store.RetrieveContent | lib/content_store.py:285-298 | The bytes of the blob of that name, which hash to it; none for an unknown name; an error for a name that is not hexadecimal. |
| ContentStoreOps.Store.VerifyBlob | lib/content_store.py:313-328 | True exactly for a blob that is there and hashes to its name, in any tree. |
| ContentStoreOps.Store.Delete | lib/content_store.py:334-364 | Removes that blob and nothing else, and says whether it was there. |
| ContentStoreOps.Store.ReplaceByLink | lib/content_store.py:602-609 | The four calls of one replacement; if the blob has the file's bytes, every path reads as before after each of them. |
| ContentStoreOps.Store.FirstPass | lib/content_store.py:530-576 | Counts, blob table, `artifacts_scanned` and `already_symlinks` are exactly those of the walk; a dry run makes no call. |
| ContentStoreOps.Store.ScanOne | lib/content_store.py:530-576 | One turn of the first pass. |
| ContentStoreOps.Store.LinkPass | lib/content_store.py:579-620 | The second pass of a real run replaces and lists every file it meets, sound and unnoticed after every call. |
| ContentStoreOps.Store.LinkRegular | lib/content_store.py:595-620 | The test for duplicates never fails in a real run. |
| ContentStoreOps.Store.ListPass | lib/content_store.py:579-620 | The second pass of a dry run. |
| ContentStoreOps.Store.Deduplicate | lib/content_store.py:482-630 | The whole operation: every counter and every listed record as computed from the tree at the start; a dry run changes nothing; after every file-system call the store is sound, every artifact is as it was or linked and, short of a collision, every path reads as before. |
| ContentStoreOps.ListedAre | lib/content_store.py:614-620 | Each record names the path, the digest and the size of its bytes, the blob of that digest, and whether the file was replaced. |
| ContentStoreOps.Store.WalksAgree | lib/content_store.py:579-593 | The second pass meets the files the first one met, with the same bytes. |
| ContentStoreOps.Store.RestoreOne | lib/content_store.py:716-753 | One path: nothing for what is not a link; a broken link and a link that leads out of the store are each reported as such and change nothing; any other is restored. The one moment, between unlink and rename, at which the path does not exist although the comment calls the restore atomic. |
| ContentStoreOps.Store.Restore | lib/content_store.py:694-755 | The whole restore: its count, its errors and its effect; it makes four calls for each link restored and none otherwise; after every call the blobs are sound and every path reads as at the start or leads to the one link being replaced, whose bytes are under the temporary name. |
| ContentRuns.After | lib/content_store.py:168-755 | After any sequence of stores, deletions, deduplications and restores, each of them possibly stopped after any call, each blob hashes to its name. |
| ContentRuns.BlobSurvivesRun | lib/content_store.py:168-755 | No run alters a blob it does not delete. |
| ContentRuns.StoredIsRetrievedLater | lib/content_store.py:168-298 | What was stored is what is retrieved under its hash in every later state, until it is deleted. |
| ContentRuns.ApplyKeepsHeld | lib/content_store.py:482-755 | An artifact that was its bytes or the link to their blob is so after every operation but two, after which its path is gone: a restore stopped between its unlink and its rename, which leaves the bytes in the blob and under the temporary name, and a restore whose rename raises, which leaves them in the blob. |
| ContentRuns.RestoreCanStopInGap | lib/content_store.py:744-745 | Any link a restore would replace can go missing in this way. |
| ContentRuns.RunKeepsHeld | lib/content_store.py:482-755 | Through any run that does not delete its blob an artifact stays its bytes or its link if and only if neither of these happened to it; otherwise the path is gone. |
| ContentRuns.BytesSurviveRun | lib/content_store.py:482-755 | In every run the blob keeps the bytes, and an artifact that can be followed through the run, the original or the temporary one a stopped restore left in its place, still holds them; only a rename that raised leaves none, as the temporary copy is then removed too. |
| ContentRuns.ArtifactSurvivesRun | lib/content_store.py:482-755 | After a deduplication and any such run a replaced file reads its original bytes if and only if no restore of it stopped in the gap or failed to rename, and a restore that walks it makes it that file again; the store has the bytes in every case, and unless a rename raised some artifact reads them. |
| StoreRace.StepKeepsInv | lib/content_store.py:181-200 | Checking, opening, writing and renaming by any number of processes that store the same content through one temporary path: each file holds the content, or is empty with a store that has it open and unwritten, or died so. |
| StoreRace.BlobWholeOrBeingWritten | lib/content_store.py:181-200 | So in every state of every run the blob is whole, or it is empty and some store has yet to write it, or died before. |
| StoreRace.ExclusiveRunIsWhole | lib/content_store.py:227-242 | If no store opens a temporary file that another has open or written and not renamed, the blob is whole in every state, crashes included. |
| StoreRace.ExclusiveStepKeepsWhole | lib/content_store.py:181-200 | One step of such a run. |
| StoreRace.BlobIsFinal | lib/content_store.py:181-182 | A blob that is there when all stores are over is taken for stored by every later one, whole or not, and never written again. |
| StoreRace.SharedTemporaryLeavesShortBlob | lib/content_store.py:191-200 | The run that leaves it short: a second store truncates the written temporary file before the first renames it, and dies; the first has reported success. |
| Provenance.HashContent | lib/provenance.py:172-191 | The digest of the bytes, of a text that of its encoding. |
| Provenance.HashFile | lib/provenance.py:194-222 | The chunked read gives the one-shot digest for every chunk size but zero, which gives the digest of no bytes; a missing file is an error. |
| Provenance.ZeroChunkIsWrongUnlessEmpty | lib/provenance.py:194-222 | That digest is right exactly for empty files, short of a collision. |
| Provenance.HashFileRange | lib/provenance.py:225-258 | The digest of the bytes from start to end as far as the file goes; nothing for an empty or reversed range; an error for a negative start. |
| Provenance.RangesJoin | lib/provenance.py:225-258 | Adjacent ranges join up, and the full range is the file. |
| Provenance.ComputeMerkleRoot | lib/provenance.py:474-501 | Terminates on every list, with the root of the padded pairing: the digest of the two, or of the digests of the first two and of the third twice. |
| Provenance.CombineLevel | lib/provenance.py:491-499 | The pairing loop yields the next level: the digest of each pair of neighbours, concatenated in order. |
| Provenance.RootBindsList | lib/provenance.py:474-501 | For lists of equal length of digests of fixed width, equal roots if and only if equal lists, unless two of the texts hashed collide. |
| Provenance.RootBindsLeaves | lib/provenance.py:474-501 | For trees of equal height, equal roots if and only if the leaves with their padding spell the same text. |
| Provenance.RootsInStep | lib/provenance.py:474-501 | The two compared trees agree node by node with the two trees that concatenate instead of hashing. |
| Provenance.SpelledStarts | lib/provenance.py:491-499 | The leaves stand in that text one after the other. |
| Provenance.PaddingIsInvisible | lib/provenance.py:492-494 | An odd list and the same list with its last element repeated share a root. |
| Provenance.InnerNodesPassAsLeaves | lib/provenance.py:495-501 | The list of the nodes of any level has the root of the leaves. |
| Provenance.EmptyRootExactlyWhen | lib/provenance.py:485-489 | The empty list shares its root with exactly one other list, that of just the digest of no bytes. |
| Provenance.RootIsDigestOfPair | lib/provenance.py:495-501 | The root of a longer list is the digest of a text of two digests. |
| Provenance.RootsEqualExactlyWhen | lib/provenance.py:474-501 | Exactly when two non-empty lists of any lengths share a root: the taller tree, at the height of the other, spells the other's leaves. |
| DecisionStream.JoinConcat | lib/decision_capture.py:919-931 | A batch of rows has the bytes of its rows written one at a time. |
| DecisionStream.RowsCompleteIff | lib/decision_capture.py:947-952 | Every decision has its row exactly if every decision can be serialised. |
| DecisionStream.RowsAre | lib/decision_capture.py:947-952 | A record that can be serialised adds one row, its text and a line end, and any other none. |
| DecisionStream.DecisionCapture.constructor | lib/decision_capture.py:448-485 | Streaming needs the primary handle; the row limit falls back to 50; every stream starts in step with the decisions. |
| DecisionStream.DecisionCapture.Emit | lib/decision_capture.py:866-917 | Each open handle gets the data, a missing one nothing. |
| DecisionStream.DecisionCapture.FlushBuffer | lib/decision_capture.py:919-931 | The buffered rows go to the open streams in order and leave the buffer. |
| DecisionStream.DecisionCapture.LogDecision | lib/decision_capture.py:975-1019 | Disk bytes followed by buffered rows stay the rows of the decisions on each open stream; when and what is written; a decision that cannot be serialised is remembered all the same and its row is missing. |
| DecisionStream.DecisionCapture.WriteLine | lib/decision_capture.py:947-973 | One more row keeps each open stream in step, and the buffer stays below its limit. |
| DecisionStream.DecisionCapture.Flush | lib/decision_capture.py:933-945 | Afterwards each open stream holds the rows of all decisions. |
| DecisionStream.DecisionCapture.Close | lib/decision_capture.py:580-606 | Likewise, and every handle is closed. |
| DecisionStream.CloseEitherWay | lib/decision_capture.py:866-973 | A buffered and an unbuffered capture given the same records leave the same bytes on all three streams. |
| DecisionThreads.StepKeepsFrame | lib/decision_capture.py:919-973 | Each single effect of any thread, under the lock or of a close outside it, keeps the buffer below its limit and the rows on their way within it. |
| DecisionThreads.LogIsTheseSteps | lib/decision_capture.py:975-1019 | Undisturbed, taking the lock, remembering, serialising, draining, writing to the three streams and leaving do to decisions, buffer and streams what `DecisionCapture.LogDecision` promises. |
| DecisionThreads.StepKeepsStream | lib/decision_capture.py:866-1019 | It keeps a stream behind the decisions by exactly the rows in flight and in the buffer, or, once rows have been skipped on it, shorter than that for good. |
| DecisionThreads.SerialiseKeepsStream | lib/decision_capture.py:947-966 | Serialising, the step where a record may raise and the buffer may fill up. |
| DecisionThreads.EmitMoves | lib/decision_capture.py:866-917 | What one write does to a stream: nothing, or the rows go to disk, or they are skipped, which is so exactly if its handle had been dropped when the write began, or the write meets a closed handle, this one or an earlier one, and raises. |
| DecisionThreads.EmitKeepsStream | lib/decision_capture.py:866-917 | Written rows bring a stream up to date and skipped ones leave it short. |
| DecisionThreads.RunKeepsStream | lib/decision_capture.py:866-1019 | So in every state of every run, raised or not. |
| DecisionThreads.OpenIsNotSkipped | lib/decision_capture.py:866-917 | No stream is skipped before the first handle is closed, and none with an open handle unless a write has raised. |
| DecisionThreads.AtRestStreamsMatch | lib/decision_capture.py:1012-1019 | Whenever the lock is free, disk bytes followed by buffered rows are the rows of the decisions in order on each stream that was not skipped, for any interleaving of threads. |
| DecisionThreads.CrashLosesBoundedSuffix | lib/decision_capture.py:919-973 | A crash after any step loses of such a stream a suffix of at most `_buffer_rows` rows, of at most one in the unbuffered mode. |
| DecisionThreads.StreamCompleteIff | lib/decision_capture.py:866-1019 | In any state of any run a stream holds the rows of all decisions if and only if it was never skipped, nothing for it is in flight or buffered, and every row has been handed on. |
| DecisionThreads.CloseKeepsPrefix | lib/decision_capture.py:580-606 | A stream that was not skipped when its handle is closed keeps for good the rows of all decisions up to then but exactly those in the buffer or in flight, and loses every later one. |
| DecisionThreads.CloseLosesNothingIff | lib/decision_capture.py:580-606 | Closing loses nothing on a stream if and only if, when its handle is closed, it was not skipped, nothing is buffered or in flight for it, and no row is added that had not been handed on by then. |
| DecisionThreads.CloseLosesNothingIffQuiet | lib/decision_capture.py:580-606 | For a caller: if the lock is free and the buffer empty when the first handle is closed, all streams end complete if and only if nothing that can be serialised is logged from then on. |
| DecisionThreads.QuietStaysComplete | lib/decision_capture.py:580-606 | The direction from right to left, for any stream. |
| DecisionThreads.RaiseLeavesHole | lib/decision_capture.py:598-604 | A concrete run in which a write meets a closed handle, `log_decision` raises, and another stream misses that row but has the next. |
| Settings.MergeSelf | gui/settings_store.py:355-371 | Merging a document over itself changes nothing. |
| Settings.MergeAt | gui/settings_store.py:355-371 | A merge at any path of keys: what the patch holds there wins, two blocks are merged, and what it does not mention is as in the base, unless it puts a value that is not a block on the way. |
| Settings.MergeOverBaseTwice | gui/settings_store.py:355-371 | Merging over the same base twice is merging once. |
| Settings.PatchTwice | gui/settings_store.py:355-371 | Applying a patch twice is applying it once, on trees of any depth. |
| Settings.PatchUnderBase | gui/settings_store.py:355-371 | A patch that changes nothing still changes nothing once the defaults are merged in underneath. |
| Settings.MergeAbsorbed | gui/settings_store.py:355-371 | A base adds nothing to a document exactly if the document has each of its keys, at every depth at which both have a block. |
| Settings.ValidateKeepsEnv | gui/settings_store.py:305-348 | Validation keeps the environment block as it is. |
| Settings.AcceptableMeans | gui/settings_store.py:316-346 | Which documents are accepted, by what they hold at the paths looked at: routing and global blocks that are blocks or false, a mode that is `local` or `api` or none, and provider slots that are empty or name a provider. |
| Settings.UnknownKeysStay | gui/settings_store.py:305-313 | Unknown `env` keys are gone after validation exactly if there were none. |
| Settings.ValidateTwice | gui/settings_store.py:305-348 | Validation accepts what it returned and changes nothing in it. |
| Settings.SecretKeysAre | gui/settings_store.py:35-38 | Secret keys are those whose last four characters spell `_KEY`, each letter in either case. |
| Settings.SlotIs | gui/settings_store.py:123-143 | Such a slot is null in public, has its text among the secrets unless it is unset, and shows as `set` or null; any other is public, shown as it is, and no secret. |
| Settings.PublicHasNoSecrets | gui/settings_store.py:123-143 | The public file never has a non-null secret slot. |
| Settings.MaskHidesSecrets | gui/settings_store.py:282-298 | The masked view depends on a secret only through whether it is set. |
| SettingsLaws.SecretsSurvive | gui/settings_store.py:123-179 | The secrets read back are the secrets written. |
| SettingsLaws.SidecarEntry | gui/settings_store.py:158-179 | The entries of the sidecar that count are text that is not blank under a secret key; anything else in it is ignored. |
| SettingsLaws.LoadedSlot | gui/settings_store.py:64-78 | A loaded slot has the text of such an entry, if there is one, and otherwise what settings.json has. |
| SettingsLaws.SavedStamps | gui/settings_store.py:94-102 | The stamps of a saved document: the time given, and the version as a number, 1 for a missing or false one. |
| SettingsLaws.SavedEnv | gui/settings_store.py:88-103 | The environment block of a saved document as the two files hold it. |
| SettingsLaws.SplitReassembles | gui/settings_store.py:123-143 | Public part and secrets put together are the document with each secret slot normalised. |
| SettingsLaws.LoadWritten | gui/settings_store.py:44-85 | A written document that has the defaults loads as itself, secret slots normalised, and loading leaves the files alone. |
| SettingsLaws.SaveThenLoad | gui/settings_store.py:44-103 | Saving and loading back yields the document merged over the defaults, stamped, with blank secrets null and the others as text. |
| SettingsLaws.NormalWritesSame | gui/settings_store.py:123-155 | Normalising is idempotent and does not show in the files. |
| SettingsLaws.MigrationSettles | gui/settings_store.py:44-85 | From any files: after one load the test for plaintext secrets, which sees text only, finds none, and every later load gives the same document, secret slots normalised, and changes no file. |
| SettingsLaws.MigratesIff | gui/settings_store.py:182-194 | A load migrates exactly if settings.json has text that is not blank under a secret key, and leaves each such slot null. |
| SettingsLaws.LoadClearsSecretsIff | gui/settings_store.py:182-194 | A load leaves settings.json without a secret if and only if that test had found one or there was none; a secret that is a number, a list or an object is not found by it. |
| SettingsLaws.NumberStaysOnDisk | gui/settings_store.py:135-143 | The input: with 42 for a key the load changes no file, though 42 is a secret of the document it returns. |
| SettingsLaws.InterruptedMigrationKeepsSecretIff | gui/settings_store.py:68-85 | A migration that stops between its two writes keeps a secret if and only if the sidecar had it, with the value of the sidecar. |
| SettingsLaws.InterruptedSaveKeepsOldSecrets | gui/settings_store.py:146-155 | A crash between the two file writes leaves the new public part with the old secrets, slot by slot. |
| SettingsLaws.SecretSurvivesUpdateIff | gui/settings_store.py:106-112 | A secret of the sidecar that an accepted patch leaves alone is there afterwards, unchanged, if and only if settings.json held a readable object. |
| SettingsLaws.MaskedSaveStoresMask | gui/settings_store.py:88-103 | Saving a masked document stores the mask `set` for each secret that was set, and nothing else. |
| SettingsLaws.PatchTwiceStoresSame | gui/settings_store.py:106-112 | A patch accepted once is accepted again, and stores the same two files, `updated_at` aside, if and only if the version settles and the secrets settle; the text of an object is taken not to depend on the order of its keys. |
| SettingsLaws.VersionAgain | gui/settings_store.py:88-103 | The version settles unless it converts to 0 and is not patched. |
| SettingsLaws.SecretsAgain | gui/settings_store.py:106-155 | The secrets settle unless, in a secret slot, an object was patched over an object and the merged one prints differently from the patch; printing is taken not to depend on the order of keys. |
| SettingsLaws.SecondPatch | gui/settings_store.py:88-112 | What the document saved the second time has in common with the first. |
| SettingsLaws.ZeroVersionDrifts | gui/settings_store.py:100-100 | A concrete input: with version "0" on disk the empty patch stores version 0 the first time and 1 the second. |
| SettingsLaws.ObjectSecretDrifts | gui/settings_store.py:106-143 | A concrete input on which the secrets do not settle: an object patched over another object in a secret slot. |
| SettingsStore.SplitEnv | gui/settings_store.py:123-143 | The loop over the environment block yields the public block and the secrets. |
| SettingsStore.MaskSecrets | gui/settings_store.py:282-298 | Each key whose last four characters spell `_KEY` in either case shows `set` if it is set and null otherwise; every other key shows its value. |
| SettingsStore.Store.Write | gui/settings_store.py:146-155 | Both files as they end up, and as they are between the two writes; which slots go where is `SlotIs`. |
| SettingsStore.Store.Load | gui/settings_store.py:44-85 | The document returned and the files left, in every case of missing, unreadable and old-format files; loading again is a no-op. |
| SettingsStore.Store.Save | gui/settings_store.py:88-103 | A refused document leaves both files alone; an accepted one is what the next load returns. Each key whose last four characters spell `_KEY` in either case is null in settings.json and has its text in the sidecar unless it is unset; every other key has its value in settings.json and is not in the sidecar. |
| SettingsStore.Store.Update | gui/settings_store.py:106-112 | A patch that is not an object changes nothing; one that is refused leaves at most the migration of the load; one that is accepted is stored. |
| ReplayEngine.VerifyHashChain | lib/replay_engine.py:658-702 | Accepts exactly the files of objects whose first `prev_hash`, if any, is false and whose every later one is the short hash of the text of the entry before less its `entry_hash`; raises exactly if the first line that is wrong is one that is not an object. |
| ReplayEngine.ChainedMeans | lib/replay_engine.py:667-694 | The links of a file, written out. |
| ReplayEngine.EntriesConcat | lib/replay_engine.py:662-667 | Each object is one entry, in order, and blank lines are none. |
| ReplayEngine.NextLine | lib/replay_engine.py:662-700 | A broken link at one line is a broken file. |
| ReplayEngine.LastEntryBindsFile | lib/replay_engine.py:658-702 | Two accepted files whose last entries agree are equally long and agree on every entry, key by key but for `entry_hash`, short of a collision. |
| ReplayEngine.LastEntryIsUnprotected | lib/replay_engine.py:658-702 | The last entry itself can be replaced or dropped without the check noticing. |
| ReplayEngine.EntryHashIsIgnored | lib/replay_engine.py:690-694 | Changing every `entry_hash` changes no verdict. |
| ReplayEngine.CollectChanged | lib/replay_engine.py:441-451 | The loop over the common files reports exactly the files whose hashes differ, each once, with both hashes. |
| ReplayEngine.CollectOneSided | lib/replay_engine.py:453-467 | The loops over the files of one side. |
| ReplayEngine.CompareOutputs | lib/replay_engine.py:397-494 | All counts, `identical`, and one difference for each differing, missing and extra path, with its kind and both hashes, from the two filtered file maps; a missing replay compares as nothing. |
| ReplayEngine.CollectedAre | lib/replay_engine.py:496-522 | A file is left out exactly if one of the ignored patterns is a part of its path. |
| ReplayEngine.DiffersIff | lib/replay_engine.py:424-467 | A path of either run has a difference if and only if the other run lacks it or the hashes differ. |
| ReplayEngine.DifferenceIs | lib/replay_engine.py:441-467 | Its kind says which, and it has the hashes of both sides. |
| ReplayEngine.CountsAre | lib/replay_engine.py:469-479 | The counts are the numbers of such paths. |
| ReplayEngine.CountsPartition | lib/replay_engine.py:469-479 | Total is matching plus differing plus missing plus extra. |
| ReplayEngine.IdenticalMeansEqual | lib/replay_engine.py:469-479 | `identical` exactly if both maps are equal, unless two contents of one path collide. |
| ReplayEngine.SwappingSwaps | lib/replay_engine.py:397-494 | Swapping the runs swaps missing with extra and keeps the rest. |
| EventLog.Log.CountLines | gui/shared_state.py:232-241 | The number of positions whose line is not blank, malformed ones included. |
| EventLog.Log.Append | gui/shared_state.py:151-185 | The record gets that number and goes to the end; an unknown source or an empty kind changes nothing. |
| EventLog.Log.Read | gui/shared_state.py:188-229 | Of each number from `since` on the last record, in the order in which the numbers first appear; of these the last `limit`, if a limit of at least 0 is given. |
| EventLog.FilteredAre | gui/shared_state.py:199-212 | The records considered, in order: those whose number, or whose line index in its place, is at least `since`. |
| EventLog.OrderIsOfAppearance | gui/shared_state.py:214-225 | A number that comes before another in the result has appeared first in the log. |
| EventLog.LatestAre | gui/shared_state.py:214-225 | Each number once, and with it the last record of that number. |
| EventLog.Log.Dedupe | gui/shared_state.py:214-225 | The dictionary and the order list yield exactly those records. |
| EventLog.LatestIsLastOfItsNumber | gui/shared_state.py:214-225 | A record is returned or a later one has its number. |
| EventLog.ReadsAllIffDistinct | gui/shared_state.py:188-229 | A read drops nothing if and only if the numbers are distinct. |
| EventLog.AppendKeepsOrder | gui/shared_state.py:151-185 | An append that counts and writes without interruption gives event k the number k. |
| EventLog.NumberIsIndexIffUndisturbed | gui/shared_state.py:151-185 | In any run an append gets its own line index for a number if and only if nobody appended since its writer counted. |
| EventLog.InOrderIffUndisturbed | gui/shared_state.py:151-185 | Over any run each event has its line index for a number if and only if each had at the start and no append fell between a writer's count and its own append. |
| EventLog.FullReadIffUndisturbed | gui/shared_state.py:151-229 | Exactly then a full read returns every event. |
| EventLog.ReadIsSuffix | gui/shared_state.py:188-229 | On a log in which each event has its line index `read_events(since)` is the suffix from `since` on. |
| EventLog.RunKeepsInv | gui/shared_state.py:151-185 | However counting and writing interleave among writers, no record's number exceeds its line index. |
| EventLog.DistinctBoundedIsInOrder | gui/shared_state.py:151-185 | Numbers that are distinct and so bounded are the line indices. |
| EventLog.FullReadIffInOrder | gui/shared_state.py:151-229 | In every state of every run a full read returns every event if and only if each carries its own line index; otherwise it has lost some. |
| EventPoll.ReadMembers | gui/shared_state.py:188-229 | A read from `since` gives records of the log with distinct numbers from `since` on. |
| EventPoll.PollsInOrder | gui/shared_state.py:188-229 | On a log in which each event has its line index a consumer that polls with one more than the highest number seen receives every event once, in order. |
| EventPoll.PollerReceivesAllIffInOrder | gui/shared_state.py:188-229 | However its polls fall it has received every event of the log last read if and only if each has its line index, and otherwise fewer. |
| EventPoll.PollerReceivesAllIffUndisturbed | gui/shared_state.py:151-229 | Over any run of writers: it has all if and only if the log was in order at the start and no append fell between a writer's count and its own append. |
| EventPoll.LateLowNumberNeverSeen | gui/shared_state.py:188-229 | An event appended with a number below `since` is in no later poll. |
| LogTail.NothingMissed | gui/shared_state.py:317-340 | Appends, and polls that take the size first and read to the end later, in any interleaving: the poller misses nothing up to its offset, and has received the bytes up to its offset and those that came beyond a size it had taken. |
| LogTail.ExtraIffDisturbed | gui/shared_state.py:334-340 | A read goes beyond the size taken exactly if something was appended between the two. |
| LogTail.PollsDeliverOnceIffUndisturbed | gui/shared_state.py:317-340 | The poller has received every byte up to its offset once, in order, if and only if that happened in none of its polls. |
| LogTail.UndisturbedPollCatchesUp | gui/shared_state.py:317-340 | An undisturbed poll brings the offset to the end of the file, after any run. |
| LogTail.UndisturbedPollsDeliverEveryByteOnce | gui/shared_state.py:317-340 | If no poll is disturbed the poller has received the whole of the content last polled. |
| LogTail.DisturbedPollDeliversTwice | gui/shared_state.py:334-340 | A concrete run: one append between size and read, and the next poll delivers its byte again. |
| LeakChecker.ReachedIsConsistent | lib/leak_checker.py:153-248 | After any run of registrations and clears every listed hash is in the registry, whose entries are exactly the answers registered since the last clear, up to collisions. |
| LeakChecker.RegisteredAnswerIsCaught | lib/leak_checker.py:281-363 | Any such answer of 15 characters or more that occurs in the normalised prompt makes the unscoped check fail, in both modes. |
| LeakChecker.GivenAnswerIsCaught | lib/leak_checker.py:177-363 | Whatever a question of a registration gives makes that check fail from then on, until a clear, if 15 characters or more are left of it normalised and they are a part of the prompt. |
| LeakScope.CallLists | lib/leak_checker.py:170-219 | After a registration each name it gave lists the texts of the last question that got it, every other name what it did. |
| LeakScope.HashesAre | lib/leak_checker.py:177-219 | The hashes a question lists are those of the texts it gives. |
| LeakScope.OtherQuestionsKeepAnswers | lib/leak_checker.py:170-219 | Registering an assessment leaves questions of other names alone. |
| LeakScope.ReusedNameDropsAnswers | lib/leak_checker.py:170-175 | A question name that a registration gives, in use or not, lists afterwards exactly the texts of the last question given it. |
| LeakScope.RunLists | lib/leak_checker.py:153-219 | After any run a name lists exactly what the last question of that name since the last clear wants registered. |
| LeakScope.ScopeOfRun | lib/leak_checker.py:270-278 | What a check scoped to a question or an assessment looks for after any run. |
| LeakScope.ScopeKeepsAnswerIff | lib/leak_checker.py:270-278 | After any run a check scoped to an assessment looks for an answer of it if and only if one of its names is in the end that of a question that lists the answer. |
| LeakScope.ExchangedNamesKeepScope | lib/leak_checker.py:270-278 | That each name is taken over by a question with other answers is not enough to lose an answer: a later assessment with the names exchanged keeps them all in scope. |
| LeakScope.QuestionKeepsAnswersIff | lib/leak_checker.py:270-278 | A check scoped to a question looks for all its answers if and only if the last question of its name lists them. |
| LeakScope.ScopeKeepsAnswersIffNamesKept | lib/leak_checker.py:170-175 | If later questions have other answers, a check scoped to an assessment looks for all of its answers if and only if none of its names was given again, in the same call or later. |
| LeakScope.DistinctNamesScopeExactly | lib/leak_checker.py:170-175 | With names of its own the scope of an assessment is exactly its answers. |
| LeakScope.ScopedCheckMissesLeak | lib/leak_checker.py:170-175 | Of two assessments of one unnamed question each, a check scoped to the first passes a prompt that gives away the first and nothing of the second. |
| LeakScope.TwoUnnamedQuestionsLeak | lib/leak_checker.py:170-175 | For every text layer and any two answers short of a collision: a prompt that gives away the first and not the second is rejected after the first registration and accepted after the second. |
| LeakScope.TextsListed | lib/leak_checker.py:221-248 | What a question lists after registration is what it listed before and the hashes of its texts. |
| LeakChecker.Checker.RegisterAssessment | lib/leak_checker.py:153-219 | Afterwards the registry has the hash of each text the questions give: the correct answer or else each of the correct answers, the explanation, and why each distractor is wrong, if three characters are left of it once stripped; every other entry is as before. The tables and the count in full are those of `Registered`. |
| LeakChecker.RegistrationMeans | lib/leak_checker.py:177-219 | The same as a law about every state of the tables. |
| LeakChecker.WantsAre | lib/leak_checker.py:177-219 | Which texts a question gives, and as which kind of answer. |
| LeakChecker.RegisteredAre | lib/leak_checker.py:177-248 | Under a hash that is given is the last answer given with it, with its kind and the name of its question, after the number of answers counted before if it has none. |
| LeakChecker.OthersStay | lib/leak_checker.py:221-248 | Under any other hash is what was there before. |
| LeakChecker.RegistersAll | lib/leak_checker.py:177-248 | Every answer given is registered, and as its kind unless another with its hash is given as another kind. |
| LeakChecker.RegistersOnly | lib/leak_checker.py:177-248 | Every entry that was not there before is that of an answer given. |
| LeakChecker.CountIs | lib/leak_checker.py:168-219 | The count is the number of texts given that are long enough, as often as they are given. |
| LeakChecker.Checker.RegisterTexts | lib/leak_checker.py:177-248 | Texts of three characters or more are registered and counted, shorter ones skipped. |
| LeakChecker.Checker.ClearRegistry | lib/leak_checker.py:544-548 | All three tables are emptied. |
| LeakChecker.Checker.CheckPrompt | lib/leak_checker.py:250-370 | Passes exactly if no segment has the hash of an answer looked for, no answer looked for of 15 characters or more is a part of the prompt and, when strict, no pattern matches; looked for are the answers of the question if it is known, else those of the questions of the assessment if it is, else all. The leaks are one for each matching segment in order, one for each long answer found whose question has no exact match, one for each pattern; no look-up fails. |
| LeakChecker.PassesMeans | lib/leak_checker.py:270-370 | The verdict, written out, for any tables. |
| LeakChecker.PatternsAre | lib/leak_checker.py:335-350 | The leak of a pattern has the names given, or `unknown`. |
| LeakChecker.ExactListEmptyIff | lib/leak_checker.py:286-306 | Exact leaks are reported exactly if some segment hashes to an answer in scope. |
| LeakChecker.NearOrExact | lib/leak_checker.py:308-333 | Suppressing a substring leak never lets a prompt pass. |
| LeakChecker.Checker.ExactLeaks | lib/leak_checker.py:286-306 | The loop over the segments. |
| LeakChecker.Checker.SubstringLeaks | lib/leak_checker.py:308-333 | The loop over the answers. |
| LeakChecker.Checker.CheckExample | lib/leak_checker.py:452-505 | Leaks in the response are all reported and count for nothing. |
| LeakChecker.Checker.ScanBatch | lib/leak_checker.py:507-542 | Exactly the failing indices in order, and the total of the checks made. |
| LeakChecker.FailingIndicesMembers | lib/leak_checker.py:529-536 | Which indices those are, ascending. |
| Autoname.JoinSplit | lib/course_autoname.py:162-173 | Joining the tokens of a slug gives the slug. |
| Autoname.NonEmptyFirst | lib/course_autoname.py:163-163 | The filter drops the empty tokens and keeps the others in order. |
| Autoname.SplitJoin | lib/course_autoname.py:162-173 | Splitting joined tokens gives the tokens. |
| Autoname.LongestFitUnique | lib/course_autoname.py:162-173 | There is one longest prefix of whole tokens that fits. |
| Autoname.Truncate | lib/course_autoname.py:153-173 | A slug that fits is returned unchanged; otherwise the longest prefix of its non-empty tokens that fits, the first always kept; a slug of hyphens only is cut and stripped. |
| Autoname.TruncatedIsPrefix | lib/course_autoname.py:153-173 | For slugs without empty tokens: a prefix of whole tokens, never empty, and within the limit whenever the first token is. |
| Autoname.TruncatedTwice | lib/course_autoname.py:153-173 | Truncating again changes nothing, for every slug and every limit. |
| Autoname.Compose | lib/course_autoname.py:176-187 | The composed slug is the base truncated to 60 characters and 14 more for a year of four digits. |

## Left out

- Real hashing, JSON printing and parsing, Unicode and regular expressions: given functions with the laws listed above; upper-casing in `_is_secret_key` is ASCII only; text normalisation, segments and reveal patterns of the leak checker are given functions; NaN and infinities do not occur.
- I/O errors, except a restore whose rename raises and a store whose temporary file is gone; torn lines, `fsync`, file modes and the details of `flock`; files edited while they are hashed or walked.
- The removal of empty shard directories. Stores of one content at the same moment are modelled by themselves (StoreRace.dfy), apart from the other operations, and with a write in one piece.
- Malformed lines in the hash-chained log, and lines in the event log that are valid JSON but not objects: reading them raises.
- The texts of error messages and log records, durations, and the `diff_lines` of a changed artifact.
- In `lib/decision_capture.py`: the write facade, the run manager, record building and validation, quality assessment and `save`; the direct path to the three streams is what is modelled, with writes that succeed.
- A migration write that fails with `OSError` while settings are loaded, which the code ignores.
- `render_env` and `apply_env`, `link_to_run`, `has_file`, `retrieve_path`, `iter_blobs`, `get_stats`, `verify_all`, `find_duplicate_artifacts`, `deduplicate_multiple_runs`, `check_response`, `check_corpus_boilerplate`, `replay_decisions`, `verify_run_integrity`, the run registry, `title_rejection_reason`, `resolve_run_init_timestamp`, `extract_h1_title`, the saved form of the chain index: they would only add easy members.
- The web application, authentication, launcher, MCP server, command line, schemas, GPU lifecycle and quality scoring.
- HashChain.HashChainedLog.ReadRange: on a log whose numbers are not 0, 1, 2, .. nothing is said, because stopping early then loses events.
- ReplayEngine.CompareOutputs: the order of the reported differences within one kind is left open, because it is that of a set.
- LeakChecker.Checker.SubstringLeaks: the order of the leaks is left open, because it is that of a set.
- LeakChecker.Checker.ScanBatch: of the collected leaks only whether there are any is stated.
- Autoname.Compose: takes `canonical_slug(title)` as given; `canonical_slug` is not part of this model.
- SettingsStore.Store.Save: `ValueError`, `TypeError` and `AttributeError` are one refusal, because callers see the same two files after each.
- SettingsLaws.PatchTwiceStoresSame: an object in a secret slot whose keys a patch repeats in another order counts as unchanged, because JSON objects are modelled as maps; Python's `str` prints the keys in their order.
- SettingsLaws.SecretsAgain: likewise.
- LockWait.AcquireLock: a loop that never stops, with delays of zero, a clock that stands still and a lock that is never free, is not modelled, because it has no result.
