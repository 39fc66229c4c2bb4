# QuantaStream write path: a verified model

QuantaStream ingests rows through sessions, logs them before it applies them, and keeps
them in bitmap storage that is persisted at commits. This project models that write path
in Dafny and proves what it promises.

| module | what it models |
|---|---|
| `WalFormat` | the write-ahead log file: framing, the reader with its torn-tail rule, the recovery planner |
| `LocalWal` | the open log: append, commit boundary, checkpoint, reopening |
| `WalRecovery` | the whole protocol as a step machine: append byte by byte, apply, flush, commit, checkpoint, crash anywhere, reopen, replay |
| `WalSchedules`, `WalBoundary` | schedules of that machine that can always be run, and what happens outside the conditions of the recovery theorem |
| `WalReplay` | the replay of a plan into sessions, as the code runs it |
| `SessionPool`, `PoolProtocol` | the session pool, and its users interleaved section by section |
| `RouterWorker`, `RouterProtocol`, `SessionRouter` | a router worker, all workers and callers interleaved, and the calls that users make |
| `PrimaryKeys`, `PrimaryKeyRuns`, `PrimaryKeyResolver` | the primary-key resolver with its caches on values, whole runs of it, and the resolver object |
| `IdentityEncoding`, `CanonicalPayload`, `IngestRouting`, `LexicalEncoding`, `AuthorityValue` | the encodings that keys and payloads rest on |
| `Paths`, `StorageBackup`, `Quiescence` | backup, validation and restore of a data directory |
| `StringEnum`, `LikePatterns` | enum dictionaries, and the LIKE patterns a dictionary scan may answer |
| `Prelude`, `Decimal`, `Sorting`, `Positional` | shared definitions |

Objects that the source changes in place are classes whose methods are proved against
functions on values; concurrent protocols are step machines over those same functions, so
that a theorem about every run is a theorem about the code's own steps. JSON with its
checksum, SHA-256, rendezvous hashing, case folding, white-space trimming, what directory
permissions allow and payload path lookup are function-valued parameters; where a proof
needs a law of them it is a named predicate (`WalFormat.Lawful`,
`WalRecovery.LawfulConfig`, `StorageBackup.LawfulTrim`).

`dafny verify dfyconfig.toml` checks the project.

## What the recovery theorem assumes

`WalRecovery.Possible` says which steps the code can take, `Guarded` what the recovery
theorem asks of them on top. Every guard has its boundary in `WalBoundary`: what the code
does from the states of every guarded run when it is not met, and exactly when that ends
well.

- A commit begins only when every session has been flushed. The code does not flush in
  `Commit`; `CommitSafeIffFlushed` shows that this is exactly the condition, and
  `UnflushedRowIsLost` is the smallest loss.
- While a session holds a cell, buffered or logged and not yet applied, no other session
  logs it. Before and after, any session may: a row may pass from one session to the next.
  The code does not check this; `FlushOrderSafeIff` shows for any rows, sessions and flush
  order that a cell recovers exactly if the flush order agrees with the log order on it,
  and `LateFlushWins` is the smallest disagreement.
- No flush fails. A failed one drops what it did not deliver, although it is logged;
  `FailedFlushSafeIff` gives the exact condition, whatever other sessions hold.
- A pending tail is cleared before new commits. The code never drops it;
  `PendingTailSafeIff` gives the exact condition for leaving it, for any rows, sessions and
  flush order behind it, and `PendingRowIsLost` the smallest loss. What clearing takes away is in `WalRecovery.DiscardTakesPending`.
- An append that fails has written nothing. The code returns the error and goes on, and a
  failure does not move the next LSN. `FailedAppendSafeIff` shows that after one more append
  the log reopens exactly if the failed one left no byte, and that otherwise no later steps
  bring it back. That two JSON objects run together on a line do not parse is the law
  `WalFormat.LinesDoNotMerge`. A process that is restarted at once loses nothing
  (`LocalWal.FailedWriteReopens`).
- What a logged row writes is a function of the record (puts verify existing rows, and the
  column IDs of updates are stable), and it writes cells of the record's own table only:
  replay has one session a table (`WalRecovery.LawfulConfig`).
- Decoding a record undoes encoding it (`WalFormat.Lawful`). Marshalling compacts a raw
  JSON payload and escapes HTML characters in it, so the law is about payloads that are in
  that form already. Those that sessions log are, since they come from marshalling; another
  payload would be read back in that form.

## Promises the code keeps only under a condition

- Router: `Flush` returning nil means delivery, except for rows that an earlier flush
  command dropped: a session replaces its buffer before sending it, so a failed flush
  leaves nothing to send again, and the worker goes on (`RouterProtocol.FlushBarrier`,
  `FailedFlushForgets`, `DroppedForGood`).
- Pool: a session that cannot be opened costs a token for good (`PoolProtocol.DrainedIff`),
  and 2^64 invalidations look like none (`StaleTest`).
- Primary keys: a flush into a domain that the session has cached as empty gives its keys a
  second column ID (`PrimaryKeyRuns.FlushKeepsColumnIff`, `SecondColumn`); a lookup-only
  request allocates when the lookup is skipped (`LookupOnlyAllocatesIff`).
- Lexical encoding: restoring a string needs its encoded part to be free of zero bytes
  (`LexicalEncoding.RestoresIff`), and whole-value mode orders by length first
  (`WholeOrder`, `LengthBeatsBytes`).
- Shard keys: keys of different tables differ only if table names have no colon
  (`CanonicalPayload.ShardKeyTables`, `ColonCollides`).
- LIKE: no matcher of the repository treats a backslash as an escape, and against LIKE
  without escapes every supported pattern is answered by its scan
  (`LikePatterns.ScanAnswersPlain`). The comment on the classifier says that escapes stay
  unsupported, but the code does not look for them; against a LIKE with backslash escapes
  the scan is right exactly for patterns without one (`LikePatterns.SoundIff`).
- Backup: a path that trimming white space changes is copied under another name, and then
  the manifest never describes the tree; a directory whose permissions keep its contents
  out makes the copy fail (`StorageBackup.CreateBackup`).
- Enum store: the row-ID counter must not come round (`StringEnum.PutKeepsIff`).

## Model

| member | source | states |
|---|---|---|
| `WalFormat.ReadLocalWal` | core/local_wal.go:576-618 | The reader succeeds exactly on a readable file: every complete line is blank or a valid record with an LSN above the one before. It returns those records, and valid plus torn bytes make up the file. |
| `WalFormat.ReadableIff` | core/local_wal.go:576-618 | A file is readable exactly if every complete line is blank or a frame of version 1 with an LSN, a kind, an operation and a JSON payload, and the LSNs increase; what is read are the records of its lines in order, and the rest of the file is the torn tail. |
| `WalFormat.LinesAre` | core/local_wal.go:576-618 | A line ends at its only newline, and the torn tail has none. |
| `WalFormat.TruncateThenRead` | core/local_wal.go:149-157 | Cutting the torn tail off any readable file leaves a file with the same records and no torn tail. |
| `WalFormat.ReadLog` | core/local_wal.go:576-618 | A log written frame by frame is read back record by record. |
| `WalFormat.ReadPrefix` | core/local_wal.go:576-638 | Every byte prefix of a well-formed log is readable and yields exactly the records whose line, newline included, lies inside it; the rest is the torn tail. |
| `WalFormat.ReadAppend` | core/local_wal.go:257-289 | Appending the frame of a record with a larger LSN appends that record to what is read. |
| `WalFormat.ReadStale` | core/local_wal.go:576-618 | A complete frame whose LSN is not above the last one makes the file unreadable. |
| `WalFormat.ReadPartialAppend` | core/local_wal.go:576-618 | Any proper part of one more frame is read as a torn tail and changes no record. |
| `WalFormat.ReadMerged` | core/local_wal.go:576-618 | A frame behind part of another one makes the file unreadable. |
| `WalFormat.BrokenStays` | core/local_wal.go:576-618 | Once some whole lines at the beginning of a file are unreadable, nothing that is appended makes it readable. |
| `WalFormat.PlanRecovery` | core/local_wal.go:397-461 | A plan exists exactly for a readable log that the checkpoint is not ahead of. Its three parts make up the log in order, the checkpoint separates the first from the rest, the replay part is empty or ends in a commit, the pending part holds none. |
| `WalFormat.PlanFromRead` | core/local_wal.go:410-460 | The plan of a log that was read fits it. |
| `WalFormat.SplitAtCheckpoint` | core/local_wal.go:435-442 | The loop separates the records at or below the checkpoint from the others. |
| `WalFormat.LastCommitIndex` | core/local_wal.go:443-448 | The loop finds the last commit, or that there is none. |
| `WalFormat.PlanUnique` | core/local_wal.go:397-461 | What a plan promises leaves no choice: two plans that fit the same log are equal. |
| `WalFormat.CleanPlan` | core/local_wal.go:107-113 | A plan with nothing to replay and nothing pending has its checkpoint at the last LSN. |
| `LocalWal.LocalWal.constructor` | core/local_wal.go:167-185 | An opened log continues after its last record. |
| `LocalWal.LocalWal.AppendLocked` | core/local_wal.go:257-290 | Succeeds exactly if the caller's record has a kind, an operation and a JSON payload or none, the LSN counter has not wrapped, and the write is reported as done. The logged record has the caller's kind, table, operation and payload (`{}` for none). A refused one leaves exactly the bytes of its frame that were written, and never moves the next LSN. |
| `LocalWal.LocalWal.AdvanceCheckpointLocked` | core/local_wal.go:292-309 | The checkpoint only moves forward, and only if the rename succeeded. |
| `LocalWal.LocalWal.Append` | core/local_wal.go:201-211 | Succeeds exactly on an open log, without cancellation, under the same condition; the file then reads as before followed by the caller's record, with the next LSN. |
| `LocalWal.LocalWal.CommitBoundary` | core/local_wal.go:213-237 | Succeeds exactly if the append does, the storage commit does and the checkpoint is written; the commit record is in the log exactly if the append succeeded, with the caller's fields. The checkpoint moves only then, and to the end of the log. |
| `LocalWal.LocalWal.CheckpointCommittedRecord` | core/local_wal.go:239-255 | Accepts exactly a commit record with an LSN on an open log, and keeps the log openable exactly if that LSN is in it. |
| `LocalWal.OpenLocalWal` | core/local_wal.go:134-185 | Opens exactly a readable file that the checkpoint is not ahead of, without its torn tail. |
| `LocalWal.FailedWriteReopens` | core/local_wal.go:274-289 | A write that stopped inside a frame is undone by reopening, and its LSN is given out again. |
| `LocalWal.AppendAfterFailure` | core/local_wal.go:274-290 | After an append that was refused with any number of bytes written, one more append in the same process leaves a readable log exactly if that number is zero; otherwise whole lines at the beginning of the file are unreadable. |
| `WalRecovery.StepInv` | core/session_wal.go:52-184 | Every step of append, apply, flush, persist, checkpoint, crash, reopen and replay that meets the guards keeps the invariant that replaying the log after the checkpoint repairs storage. A row may be written by different sessions, one after the other. |
| `WalRecovery.RunInv` | core/local_wal.go:134-309 | So does every run. |
| `WalRecovery.RecoveryRestoresCommitted` | core/session_wal.go:52-184 | In every run from an empty store, a finished recovery leaves durable storage equal to the fold of exactly the records up to the last surviving commit, the checkpoint at that commit, and every acknowledged commit included. |
| `WalRecovery.RecoveryOutcome` | core/session_wal.go:52-184 | The same for every state that keeps the invariant, with what is then pending. |
| `WalRecovery.InterruptedRecovery` | core/session_wal.go:64-183 | Recovery cut short by crashes at any steps and started again any number of times ends in the same file, checkpoint and storage, all fixed by the file it began with. |
| `WalRecovery.RecoveryStep` | core/session_wal.go:64-67 | Recovery appends nothing and changes the file only by cutting off the torn tail. |
| `WalRecovery.CheckpointMovesOneCommit` | core/local_wal.go:239-255 | During recovery the checkpoint stays or moves to the first commit record after it. |
| `WalRecovery.AlwaysReopens` | core/local_wal.go:134-185 | From every crashed state that keeps the invariant the log opens again. |
| `WalRecovery.EveryCrashReopens` | core/local_wal.go:134-185 | Every run that ends in a crash can be taken up again, and LSNs go on after the last record that survived. |
| `WalRecovery.AcknowledgedStays` | core/local_wal.go:257-309 | One step: none but clearing a pending tail takes a record out of the log, and a record that joins it has an LSN above all others. |
| `WalRecovery.LogOnlyGrows` | core/local_wal.go:257-290 | Over every run without such a clearing, through crashes and reopenings, the earlier log is a prefix of the later one. |
| `WalRecovery.NoLsnReused` | core/local_wal.go:257-290 | In every run from an empty store, as long as no pending tail is cleared, an acknowledged record keeps its place and no later record gets its LSN. |
| `WalRecovery.DiscardTakesPending` | core/local_wal.go:443-460 | Clearing a pending tail takes away exactly the records after the last commit, none of which a commit acknowledged, and their LSNs are given out again. |
| `WalRecovery.PlanIsReplayed` | core/local_wal.go:410-460 | The machine replays exactly what the planner plans. |
| `WalSchedules.RecoveryCanFinish` | core/session_wal.go:52-184 | From every crashed state that keeps the invariant there are recovery steps that finish the recovery. |
| `WalBoundary.CommitSafeIffFlushed` | core/session.go:1555-1563 | In every serving state of every guarded run a commit can be made at once; after a crash and a recovery storage is what the committed log describes exactly if flushing every session first would have changed nothing. |
| `WalBoundary.UnflushedRowIsLost` | core/session_wal.go:288-304 | A run from an empty store: log a row, commit while it is in its session's buffer, crash, recover. The commit was acknowledged, and storage lacks every cell of the row. |
| `WalBoundary.FlushOrderSafeIff` | core/session.go:1459-1488 | From every idle state of every guarded run: any rows are logged by any sessions, which then flush in any order, and a commit, a crash and a recovery follow. A cell is what the committed log says exactly if the last session that flushed it is the last that logged it, or wrote the same value. |
| `WalBoundary.LateFlushWins` | core/session.go:1459-1488 | A run from an empty store: A logs a cell, B logs it, B flushes, A flushes, a commit is acknowledged, and the recovered cell has A's value where the log has B's. |
| `WalBoundary.FailedFlushSafeIff` | core/session.go:1459-1474 | In every serving state of every guarded run, a flush may fail half way and a commit still succeeds; after a crash and a recovery storage is what the committed log describes exactly if every cell that was not delivered had its value before and no session holds anything else that the commit would miss. |
| `WalBoundary.FailedAppendSafeIff` | core/local_wal.go:274-290 | In every serving state of every guarded run, an append of a row or a commit may be refused after any number of bytes; once one more append is acknowledged, the log reopens after a crash exactly if that number is zero, and otherwise no steps of the code lead to a process that could reopen it. |
| `WalBoundary.LostForGood` | core/local_wal.go:134-185 | From every state with such a log, no steps of the code at all lead to one in which it can be reopened. |
| `WalBoundary.PendingTailSafeIff` | core/local_wal.go:443-460 | In every state where recovery has found a pending tail: any rows are logged behind it by any sessions, which then flush in any order, and a commit, a crash and a recovery follow. A cell that the rows write is what the committed log says exactly if their flush order agrees with their log order on it; one that only the tail writes, exactly if storage had the tail's value already. |
| `WalBoundary.PendingRowIsLost` | core/local_wal.go:443-460 | A run from an empty store: log a row, crash, recover, commit, crash, recover. The row stands before an acknowledged commit in the log, and storage lacks it. |
| `WalReplay.FlushAll` | core/session_wal.go:96-100 | Flushing the sessions in any order gives the cache that the replayed records describe. |
| `WalReplay.PersistSessions` | core/session_wal.go:96-105 | After the flushes and commits storage is the cache; after a failed commit the remaining replay still reaches the same storage. |
| `WalReplay.CommitSessions` | core/session_wal.go:95-118 | The checkpoint moves to the commit record only once everything before it is durable. |
| `WalReplay.ReplayToSessions` | core/session_wal.go:52-184 | However a replay ends, the checkpoint is at a commit record of the plan and replaying what follows it reaches the same storage. It succeeds unless it is interrupted or meets an unknown kind, and writes nothing to the log. |
| `WalReplay.ReplayEnds` | core/session_wal.go:120-183 | A finished replay of a plan that ends in a commit has made the whole plan durable. |
| `WalReplay.MachineBeginsReplay` | core/session_wal.go:52-66 | The states in which the machine begins a replay meet what the replay asks of its plan, and the plan leads to what the committed log describes. |
| `SessionPool.SessionPool.constructor` | core/session_pool.go:42-56 | A new pool has all its tokens and no entries. |
| `SessionPool.SessionPool.EntryByName` | core/session_pool.go:58-71 | Finds or makes the entry of a name, with the table's generation. |
| `SessionPool.SessionPool.Borrow` | core/session_pool.go:74-103 | With a token free, hands out the oldest idle session of the name, otherwise the one that is made, and fails exactly if there is neither, taking the token all the same; without a token it is refused. Nothing else changes. |
| `SessionPool.SessionPool.BeginReturn` | core/session_pool.go:118-126 | Finds the session current exactly if the pool is open and the table's generation is the session's. |
| `SessionPool.SessionPool.ReturnSemaphore` | core/session_pool.go:238-252 | Gives one token back unless the pool is closed or full. |
| `SessionPool.SessionPool.FinishReturn` | core/session_pool.go:142-165 | A current session goes behind those that wait under its name and gives its token back, if the pool is open and there is room for both; a stale one gives its token back only; a closed pool takes nothing. |
| `SessionPool.SessionPool.InvalidateTable` | core/session_pool.go:175-211 | Moves the table's generation by one and no other, removes exactly the entries of that table whatever the case of their names, and closes exactly their idle sessions. |
| `PoolProtocol.StepInv` | core/session_pool.go:74-252 | Every section keeps tokens conserved, generations in step with entries and sessions, every session in one place, and room for every session that is out. |
| `PoolProtocol.RunInv` | core/session_pool.go:74-252 | So does every interleaving. |
| `PoolProtocol.BorrowedOnce` | core/session_pool.go:86-99 | A session handed out is not held by anyone else. |
| `PoolProtocol.HandedOutFresh` | core/session_pool.go:58-103 | After every interleaving, a session handed out was opened for its table and the table was not invalidated since, as long as it was invalidated fewer than 2^64 times; in general a multiple of 2^64 times. |
| `PoolProtocol.ClosedForGood` | core/session_pool.go:118-165 | In every interleaving, a session that was closed on its return never gets back into the pool and is never handed out again. |
| `PoolProtocol.FailedFlushCloses` | core/session_pool.go:133-139 | A session whose flush fails on its return is closed so. |
| `PoolProtocol.StaleCloses` | core/session_pool.go:124-132 | So is one whose table was invalidated. |
| `PoolProtocol.StaleTest` | core/session_pool.go:227-236 | The staleness test says stale exactly when the number of invalidations since the session was opened is not a multiple of 2^64. |
| `PoolProtocol.DrainedIff` | core/session_pool.go:74-103 | Free tokens, sessions that are out and failed openings always add up to the pool size, so a borrow is refused exactly when the last two use it up. |
| `PoolProtocol.ReturnFindsRoom` | core/session_pool.go:142-165 | The last section of a return always gives the token back, and pools the session exactly when its generation is current: the fallbacks for full channels are never taken. |
| `RouterWorker.SplitKey` | core/session_router.go:586-593 | Splitting a shard-table key gives back the shard and the table, so a key belongs to one shard. |
| `RouterWorker.SplitShardTableKey` | core/session_router.go:586-593 | The loop splits at the first plus sign. |
| `RouterWorker.Worker.CloseSession` | core/session_router.go:460-470 | A session that closes is forgotten in both maps, one that does not stays. |
| `RouterWorker.Worker.PutRecord` | core/session_router.go:343-383 | Puts the row exactly if the table has a session or one can be opened and it takes the row; the row then waits in the buffer, or with a due flush everything in the buffer is delivered or dropped; it succeeds exactly if the row was taken and no due flush failed. |
| `RouterWorker.Worker.FlushWorkerSessions` | core/session_router.go:486-511 | Without an error every session was flushed; the round stops at the first that fails. |
| `RouterWorker.Worker.CloseWorkerSessions` | core/session_router.go:529-554 | Without an error every session was flushed and forgotten and the cache is empty. |
| `RouterWorker.Worker.FlushIdleSessions` | core/session_router.go:451-484 | Without an error exactly the unused sessions are closed and the waiting ones flushed. |
| `RouterWorker.RoundMeans` | core/session_router.go:451-554 | What a round of flushes does to every session, and which rows it delivers and drops. |
| `RouterProtocol.StepInv` | core/session_router.go:285-327 | Every step of a worker keeps: each record received is in one buffer, delivered or dropped; a successful reply has settled everything before it; records are put in order. |
| `RouterProtocol.RunInv` | core/session_router.go:186-327 | So does every interleaving of producers, flush callers, tickers and workers; queues only grow and dropped rows stay dropped. |
| `RouterProtocol.FlushBarrier` | core/session_router.go:205-245 | If Flush returns nil, a record whose Enqueue had returned before the call is with the backend exactly unless it was dropped, and then by a flush command between its arrival and this one that answered with an error. |
| `RouterProtocol.FlushDelivers` | core/session_router.go:205-245 | Hence, if the worker answered no flush command between the record and this one with an error, the record is with the backend. |
| `RouterProtocol.FailedFlushForgets` | core/session_router.go:329-341 | In every state, a flush command that fails on a session drops its undelivered rows, and the next flush command succeeds without them. |
| `RouterProtocol.FlushLosesRecord` | core/session_router.go:205-245 | A run of a new router with one worker: a record is accepted and put, its flush fails, and the next Flush returns nil although the record is not with the backend. |
| `RouterProtocol.DroppedForGood` | core/session.go:1459-1474 | A dropped row is never delivered later in any run. |
| `RouterProtocol.CloseDrains` | core/session_router.go:267-309 | In every run, every worker that ended without an error, whatever it accepted, has received all of it, has put every record in order, has no session left, and has delivered every row that was not dropped by a flush command that answered with an error. Close returns nil when all workers ended so. |
| `RouterProtocol.SameRouteInOrder` | core/session_router.go:186-201 | Records with equal route keys are in one worker, and a record that was put has all earlier ones put before it. |
| `RouterProtocol.SameBuildKeyInOrder` | core/session_router.go:419-427 | So are records with equal build keys, whatever their shard keys. |
| `RouterProtocol.WorkerOf` | core/session_router.go:186-201 | In every run a record is with the worker that its build key hashes to or, without one, its shard key. |
| `RouterProtocol.AcceptsIff` | core/session_router.go:186-201 | A record is accepted exactly if it has a table and a build key or else a shard key whose shard has a channel. |
| `SessionRouter.SessionRouter.constructor` | core/session_router.go:139-155 | A new router has an empty channel for every shard. |
| `SessionRouter.SessionRouter.Enqueue` | core/session_router.go:186-201 | Refuses exactly a record without table, without build key and shard key, or without channel; any other goes to the end of the channel that its build key hashes to or, without one, its shard key, and nowhere else. |
| `SessionRouter.SessionRouter.SendMarkers` | core/session_router.go:212-225 | One marker behind everything queued in every channel, unless the context ends first. |
| `SessionRouter.CollectReplies` | core/session_router.go:226-244 | Flush returns nil exactly when every worker answered without an error; the session, flush and error counts are the sums over all answers received. |
| `PrimaryKeyResolver.Resolver.ProbeDomain` | core/primary_key_domain_state.go:25-27 | Says empty exactly of a domain without committed keys. |
| `PrimaryKeyResolver.Resolver.ShouldSkip` | core/primary_key_bsi.go:201-271 | While no cached mark hides a committed key, none does afterwards, and the lookup is skipped only for a key that the backend does not have. |
| `PrimaryKeyResolver.Resolver.Resolve` | core/primary_key_bsi.go:90-199 | A valid session stays valid: the answer is the column ID the identity has, or one that no identity of its shard has; every other identity keeps its own; and the answer is the one a resolver without caches would give. |
| `PrimaryKeyResolver.Resolver.Flush` | core/session.go:1459-1474 | If all staged keys are sent, and none into a domain that the session takes for empty, the session stays valid and every identity keeps its column ID. |
| `PrimaryKeyRuns.AgreesIff` | core/primary_key_bsi.go:90-199 | The resolver with its caches answers as the plain lookup exactly unless it skips the lookup of a key that the backend has or of a lookup-only request. |
| `PrimaryKeyRuns.OnlyCachesHide` | core/primary_key_bsi.go:232-237 | In verify-existing mode only a cached empty mark can hide a committed key. |
| `PrimaryKeyRuns.ResolveAnswers` | core/primary_key_bsi.go:90-199 | Exactly when a request is answered with an error (a provided column ID that conflicts with the session's own, a failing probe or lookup, more than one match of the authority, no column ID to be had, a failing stage), and otherwise with which column ID, found or new. |
| `PrimaryKeyRuns.ResolveLeaves` | core/primary_key_bsi.go:90-271 | What a request leaves behind: the marks of domain and authority, and the key staged and cached with its column ID. |
| `PrimaryKeyRuns.NextColumnUnused` | core/session.go:265-281 | What the sequencer gives is unused in its shard, and so is the rest of the block. |
| `PrimaryKeyRuns.ResolveInv` | core/primary_key_bsi.go:90-199 | Every request keeps one column ID an identity and no shared column IDs, and answers with the identity's column ID or a new one. |
| `PrimaryKeyRuns.FlushInv` | core/session.go:1459-1474 | A safe flush changes no identity's column ID. |
| `PrimaryKeyRuns.OpeningInv` | core/session.go:238-262 | A session opened over any backend with one column ID an identity and none shared in a shard starts in the invariant. |
| `PrimaryKeyRuns.ColumnForever` | core/primary_key_bsi.go:90-199 | In every run whose flushes are safe, an identity that has a column ID keeps it. |
| `PrimaryKeyRuns.OneColumnEach` | core/primary_key_bsi.go:90-199 | After every such run of a session opened over any such backend no two identities of a shard share a column ID, and the next answer is the identity's own or an unused one. |
| `PrimaryKeyRuns.AnswersAsPlain` | core/primary_key_bsi.go:201-271 | After every such run over any such backend the resolver answers what the plain backend lookup would. |
| `PrimaryKeyRuns.FlushKeepsColumnIff` | core/primary_key_bsi.go:232-237 | A flush keeps the column ID of a staged identity exactly when it sends it and the session does not take its domain for empty; otherwise the next request gives it a different one. |
| `PrimaryKeyRuns.SecondColumn` | core/primary_key_bsi.go:251-257 | In every new session, whatever the backend holds in other domains: the first key of an empty domain, a flush, and the same key again gets a second column ID. |
| `PrimaryKeyRuns.LookupOnlyAllocatesIff` | core/primary_key_bsi.go:176-178 | A lookup-only request allocates exactly when the lookup is skipped. |
| `IdentityEncoding.UvarintRoundTrip` | core/primary_key_identity_encoding.go:176-180 | A varint is read back whatever bytes follow it. |
| `IdentityEncoding.PutUvarint` | core/primary_key_identity_encoding.go:176-180 | The loop writes the varint of its argument. |
| `IdentityEncoding.ZigzagRoundTrip` | core/primary_key_identity_encoding.go:171-174 | Zigzag is a bijection between signed and unsigned 64-bit integers. |
| `IdentityEncoding.LengthedRoundTrip` | core/primary_key_identity_encoding.go:162-169 | Length-prefixed bytes are read back whatever follows. |
| `IdentityEncoding.TaggedRoundTrip` | core/primary_key_identity_encoding.go:108-160 | A tagged value is read back whatever follows. |
| `IdentityEncoding.IdentityRoundTrip` | core/primary_key_identity_encoding.go:65-94 | A decoder inverts the encoding on any identity followed by any rest. |
| `IdentityEncoding.EncodePrimaryKeyIdentity` | core/primary_key_identity_encoding.go:65-94 | Succeeds exactly on a request with a table, a key, values, an attribute for each, and only supported types, and writes the identity's bytes. |
| `IdentityEncoding.SameBytesIff` | core/primary_key_identity_encoding.go:65-160 | Two requests encode equally exactly when table, key, shard time and number of values agree, and column by column the written names and the values: equal signed or equal unsigned numbers at any width, or the same flag, text, bytes or instant. |
| `CanonicalPayload.ValueRead` | core/ingest_payload_hash.go:29-75 | A decoder inverts the writer on any nested value followed by any rest. |
| `CanonicalPayload.TokenRead` | core/ingest_payload_hash.go:157-160 | A counted token is read back whatever follows. |
| `CanonicalPayload.CanonSameIff` | core/ingest_payload_hash.go:123-155 | Sorting the maps of two values at every level makes them equal exactly when they were equal as values, however their maps were enumerated. |
| `CanonicalPayload.SameBytesIff` | core/ingest_payload_hash.go:18-27 | Canonical bytes are equal exactly for equal payloads: independent of enumeration order, and telling any two different ones apart. |
| `CanonicalPayload.WriteMap` | core/ingest_payload_hash.go:123-142 | Collecting the keys in any order of iteration, sorting them and writing each with the value found under it gives the canonical bytes of the map. |
| `CanonicalPayload.ResolveShardKey` | core/ingest_shard_key.go:105-139 | Fails exactly when no key field has a name, or the value of a named one is missing or has no canonical form; otherwise the key is made of all of them. |
| `CanonicalPayload.ShardKeyIff` | core/ingest_shard_key.go:105-139 | For one table two primary-key shard keys are equal exactly when the key values are. |
| `CanonicalPayload.ShardKeyTables` | core/ingest_shard_key.go:134-138 | Keys of different tables differ, if table names have no colon. |
| `CanonicalPayload.ColonCollides` | core/ingest_shard_key.go:134-138 | With a colon they need not. |
| `IngestRouting.EqualKeysInOrder` | core/session_router.go:422-427 | Records of one table with equal key values and no build key meet in one worker and are put in the order they were accepted. |
| `LexicalEncoding.PackUint64` | core/builtins.go:151-157 | The or-and-shift loop computes the big-endian number of the padded prefix, without overflow. |
| `LexicalEncoding.Encode` | core/builtins.go:136-161 | For every prefix length above zero both paths give the number of the padded prefix; otherwise that of the whole value. |
| `LexicalEncoding.RestoresIff` | core/builtins.go:163-172 | Decoding and appending the remainder restores a string exactly when its encoded part has no zero byte. |
| `LexicalEncoding.PrefixOrder` | core/builtins.go:136-161 | For every prefix length above zero the numbers are monotone in byte order, and equal exactly for equal padded prefixes. |
| `LexicalEncoding.WholeOrder` | core/builtins.go:140-142 | Whole-value mode ignores leading zero bytes, orders by the length of the rest, and byte by byte only among equal lengths; values are equal exactly if the rests are. |
| `LexicalEncoding.LengthBeatsBytes` | core/builtins.go:140-142 | So it can contradict the byte order. |
| `AuthorityValue.Encode` | core/primary_key_authority_value.go:29-51 | Fails exactly on an incomplete request or a component that does not fit into a 64-bit word; otherwise the value is, in base 2^64, the words that stand for the components. |
| `AuthorityValue.ImageIff` | core/primary_key_authority_value.go:74-120 | A component has a word exactly if it fits: every integer and instant, a big integer from zero below 2^64, a string that parses to one of these; the word is its two's complement or the number itself. |
| `AuthorityValue.TupleOrder` | core/primary_key_authority_value.go:74-120 | Values of n components are below 2^(64n), equal exactly for equal tuples and ordered as the tuples are. |
| `AuthorityValue.WordOrder` | core/primary_key_authority_value.go:74-120 | Words of unsigned and big components compare as the numbers; those of signed components and instants put negative numbers last and keep the order among equal signs; a signed and an unsigned component share a word exactly if they agree modulo 2^64. |
| `Paths.CleanProper` | core/storage_backup.go:967-980 | An accepted manifest path consists of proper names only. |
| `Paths.CleanIff` | core/storage_backup.go:967-980 | A path is accepted exactly if, trimmed, it is relative and following its segments from the root never leaves the root and ends below it; it is then the path to that place. |
| `Paths.CleanJoin` | core/storage_backup.go:959-980 | The path of a file below the root is accepted unchanged, unless trimming changes it. |
| `Paths.CleanShorter` | core/storage_backup.go:967-980 | Cleaning never makes a path longer than trimming left it. |
| `Paths.SafeJoinStays` | core/storage_backup.go:982-994 | A joined path is the root followed by proper names, strictly below it, and the second check never refuses what the first accepted. |
| `Paths.ParentSortsFirst` | core/storage_backup.go:315-320 | In the order of the manifest a directory comes before everything in it. |
| `StorageBackup.CreateBackup` | core/storage_backup.go:245-320 | When trimming leaves every path alone, it fails exactly on special files and on directories whose permissions keep their contents out; otherwise the snapshot is the tree without the lease file and the manifest describes it node by node, in order and with its totals. When trimming changes a path, the manifest never describes the tree. |
| `StorageBackup.CollectPaths` | core/storage_backup.go:767-777 | The clean paths of all entries, unless one is refused or repeated. |
| `StorageBackup.NothingUnlisted` | core/storage_backup.go:778-795 | The walk succeeds exactly if every path of the tree is listed. |
| `StorageBackup.CheckNode` | core/storage_backup.go:799-830 | One entry passes exactly if its node is there, has its type and, for a file, its size and checksum. |
| `StorageBackup.CheckEntries` | core/storage_backup.go:796-840 | The loop succeeds exactly if every entry matches its node and the totals are right. |
| `StorageBackup.CheckShape` | core/storage_backup.go:706-715 | The shape check passes exactly if every entry has an accepted path and is a directory or a file. |
| `StorageBackup.ValidateTree` | core/storage_backup.go:756-845 | The validator accepts exactly what its three passes say together. |
| `StorageBackup.AcceptedIff` | core/storage_backup.go:756-845 | For trees whose paths trimming leaves alone it accepts exactly the manifests that match one to one in paths, types, sizes, checksums and totals; with the shape check the tree then holds directories and regular files only. |
| `StorageBackup.AcceptedMeans` | core/storage_backup.go:796-830 | In an accepted backup every directory entry names a directory, and every file entry a file of the listed size and checksum. |
| `StorageBackup.TamperedAcceptedIff` | core/storage_backup.go:756-845 | Against a backup's manifest the validator accepts a tree exactly if it has the same paths and types and files of the same sizes and checksums, so it refuses one in which a file was lost, added or visibly changed. |
| `StorageBackup.BackupIsValid` | core/storage_backup.go:573-582 | A backup is valid. |
| `StorageBackup.ParentEarlier` | core/storage_backup.go:315-320 | In a backup's manifest every directory above an entry has an earlier entry, so restoring never makes a parent with the wrong permissions. |
| `StorageBackup.Restore` | core/storage_backup.go:584-658 | Refuses what the shape check or the validator refuses, and brings back exactly the snapshot that a backup described, with contents, permissions and file times; it then fails exactly if a directory's permissions keep its contents out. What is restored from any accepted backup, whatever wrote its manifest, passes the same validator. |
| `StorageBackup.WithoutLease` | core/storage_backup.go:722-732 | The tree without the lease file is a valid snapshot, so backup and restore give the tree minus that file. |
| `Quiescence.BeginQuiescence` | core/storage_backup.go:396-456 | With a log, a lease is granted exactly when no other lease exists, both files are inside and the log's checkpoint is at its last record. |
| `Quiescence.LeasedStorageIsComplete` | core/storage_backup.go:425-449 | In every state of every run, even with an append under way, a checkpoint at the end of the log file means that every record in the file is durable. |
| `StringEnum.PutKeepsIff` | server/kvstore.go:540-577 | A put succeeds exactly on a value that is not blank with a store that opens and, for a new value, writes; it only adds, gives a new value the next row ID, changes nothing when it fails, and keeps the store one-to-one exactly as long as the counter does not come round. |
| `StringEnum.MergeAll` | core/table.go:478-488 | Whatever the order of the iteration, overwriting the reverse map item by item keeps the two maps inverse and loses no pair, because the store is one-to-one. |
| `StringEnum.EnumStore.Put` | server/kvstore.go:540-577 | The put on the store object, with stores that fail to open or to write: one-to-one is kept exactly as above. |
| `StringEnum.Attribute.GetValue` | core/table.go:385-444 | A lookup answers the cached or the stored row ID and its reverse is the trimmed value; it fails exactly on a blank value or a failing store, and then changes nothing. |
| `StringEnum.Attribute.Merge` | core/table.go:468-490 | A refresh sets both maps item by item in the order of the iteration; the forward map gains exactly the items, the two maps stay inverse and the list free of repeats, even if the store has grown since. |
| `StringEnum.Attribute.GetValueForID` | core/table.go:494-520 | A reverse lookup gives the value with this row ID, and succeeds exactly if the row ID was cached or the refresh could read it. |
| `StringEnum.NextInv` | core/table.go:385-520 | Every lookup and every half of a refresh by any process keeps all processes' maps inverse and contained in the store, and no process forgets a pair. |
| `StringEnum.LookupThenReverse` | core/table.go:385-520 | In every interleaving of any number of processes: once a lookup has answered, its process keeps the row ID and its reverse for good, and every process that knows the row ID or the value, then or later, knows this pair. |
| `LikePatterns.MatchAt` | qsfixture/runtime.go:1546-1577 | The loop with its recursion at every candidate decides LIKE without escapes. |
| `LikePatterns.ClassifyIff` | qsbridge/classifier.go:416-429 | Exactly these patterns are supported: a text without wildcards, such a text before one `%`, and such a text between two. |
| `LikePatterns.ScanAnswersPlain` | qsbridge/classifier.go:416-429 | Every supported pattern is answered exactly by its scan, equality, prefix or substring, for every string, against LIKE without escapes. |
| `LikePatterns.ScanAnswersLike` | qsbridge/classifier.go:416-429 | Against LIKE with backslash escapes, a supported pattern without an escape is answered exactly by its scan. |
| `LikePatterns.EscapeMisjudged` | qsbridge/classifier.go:414-429 | For every supported pattern with an escape there is a string that LIKE with escapes matches and the scan does not. |
| `LikePatterns.SoundIff` | qsbridge/classifier.go:416-429 | The scan answers LIKE with escapes on all strings exactly for patterns without one. |

## Left out

- Nested child rows, relations and the mapping of values to bitmaps: a logged row is the set of cells it writes.
- Rows that a session refuses after they were logged: the machine applies every logged row.
- Graceful shutdown of storage, which also persists caches; the machine treats every stop as a crash.
- LocalWal.LocalWal.Append: the file lock, the context's later cancellation inside a call and record timestamps are not modelled.
- Storage commits of several backend nodes: one store stands for all of them.
- WalReplay.ReplayToSessions: a session that cannot be borrowed, a payload that does not parse and a failed flush are one kind of interruption, and the row and update counters of the summary are not modelled.
- SessionPool.SessionPool.Borrow: which write-ahead log a session is given is not modelled.
- Recover and Shutdown of the session pool: neither keeps the pool's invariants.
- Freshness of table metadata after an invalidation: that cache is cleared outside the lock.
- RouterWorker.Worker.FlushWorkerSessions: the count of flushes with activity depends on clock readings and is not modelled.
- SessionRouter.SessionRouter.Enqueue: a full channel makes the caller wait; in the machine the event is then not possible, and here it is not modelled.
- Batches that fill up and are sent before a flush: rows reach the backend earlier than the router model says.
- PrimaryKeyResolver.Resolver.Resolve: tables whose column ID is given directly, value validation and the profile counters are not modelled.
- PrimaryKeyResolver.Resolver.ProbeDomain: the backend's probe is modelled as truthful; an unknown state is the same as a backend that does not probe.
- Replication of enum values to further nodes, and enum values of types other than string.
- Rendering of integers, floats and times in canonical payloads: a scalar is its tag and its text. References, interfaces and typed maps of the reflective path are written as the values they lead to.
- Dedup and explicit shard keys: they are taken as they come.
- AuthorityValue.Encode: how a string is parsed by the type of its attribute is a parameter, one parser a place.
- The search-index section of a backup manifest, its version fields and file synchronisation.
- StorageBackup.CreateBackup: whether a directory's permissions let the process create something in it is a parameter; source files that cannot be read, full disks and the process umask are not modelled. A directory is also opened to be walked and, once made, to be synchronised, so one without read permission fails even if it is empty; that is not modelled either.
- StorageBackup.Restore: of the shape check only the entries are modelled; the process umask and the modification times of directories are not.
- StorageBackup.ValidateTree: the search-index section is not modelled.
- LikePatterns.MatchAt: works byte by byte as the source does; the matcher that goes through regular expressions is not modelled, and its wildcards do not match line ends.
- UUID encodings, date parsing, float scaling, mappers, plugins, Consul, the query bridge apart from its pattern classifier, and the generated protocol code.
