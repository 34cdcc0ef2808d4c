# PowDB, verified models

PowDB is an embedded and networked database with a Rust engine and TypeScript clients. This project
models the parts of it whose correctness spans many steps, and proves what they promise:

- **Replica sync** (`SyncHistory`, `SyncScan`, `SyncPrimary`, `SyncLocal`, `SyncReplica`, `SyncProgress`, `SyncRounds`,
  `SyncFrames`): the primary's cursor, status,
  pull and acknowledgement; the replica's chunk apply with its apply state; and any number of overlapping
  `syncNow` and `write` calls over both, where every call may fail at any point, an acknowledgement may arrive
  after its caller gave up, and the process may crash inside an apply.
- **Chain restore** (`HeapDelta`, `BackupChain`, `ChainChecks`, `ChainRestore`): page deltas by page LSN, incremental backups, and replaying a
  chain of them onto a full copy.
- **PJ1** (`Pj1`, `Pj1Text`, `Pj1Decoder`): the canonical binary JSON format, as an encoder derived from the decoder's checks, and the
  decoder itself.
- **The wire** (`WireSpec`, `WireDecoder`, `WireRoundTrip`, `WireConverse`, `Goldens`): every message of the protocol, its encoder,
  its decoder, the round trip, and its converse.
- **The pipelined client** (`ClientSpec`, `ClientMatching`, `ClientStream`, `ClientEffects`, `Client`): frame
  reassembly from arbitrary chunks, reply matching with aborts, the in-flight window, closing.
- **Scripts** (`ScriptRunner`), **the pool** (`PoolSpec`, `Pool`), **splitting and escaping** (`Splitter`, `Escaping`).
- **Checks** (`IndexVerify`, `RowDigest`, `OracleDiff`) over a common `Sorting`, and **edit distance** (`EditDistance`).

Objects the source updates in place are classes here (`Client.Client`, `Pool.Pool`, `BackupChain.DataDir`,
`WireDecoder.Cursor`), each method tied to a step of a specification over values; the theorems are about all runs of
those steps. Sockets, timers, disks and the network are steps that may happen at any time or not at all.

## Where the code does not meet the promise

Each of these is proved, with the exact condition under which the promise holds.

- After a lost acknowledgement, the next pull is accepted only if it ends exactly where the applied chunk did
  (`SyncLocal.RetryAfterLostAck`), which is when that chunk is still the longest the primary can serve from the old
  cursor (`SyncProgress.RetryMeetsPrimary`). Once the log has outgrown it, no run moves the replica again as long as the
  acknowledgement stays lost and pulls keep that budget (`SyncProgress.LostAckStopsReplica`). After a crash strictly
  inside a chunk no run changes the replica again at all (`SyncProgress.CrashStopsReplica`). Nothing is lost. Both states
  are reached by runs given in full (`SyncProgress.LostAckIsReachable`, `SyncProgress.CrashIsReachable`).
- The `maxUnits` of a pull request is documented as a hint where the chunk should end
  (`crates/server/src/handler/sync.rs:788-792`). It decides nothing: the chunk is read in batches as large as the cap, so
  the longest servable prefix goes out whatever was asked for (`SyncHistory.BuildPullChunk`, `SyncPrimary.AnswerPull`).
- An increment is exact if and only if what it leaves out is already in place (`ChainRestore.IncrementIsExact`). A base
  manifest that keeps the full backup's digests, the way `crates/backup/tests/incremental.rs:213-220` builds one, loses
  a file that changed and changed back (`ChainRestore.RevertedFileIsLost`). A heap created after the base is restored if
  and only if some page is newer than the base and every page that is not is blank (`ChainRestore.NewHeapIsExact`); a
  superblock carries LSN zero and is not blank, so no such heap is (`ChainRestore.NewHeapLosesItsSuperblock`). An old heap
  that stores its first overflow chain after the base has its superblock rewritten without a newer LSN, and comes back
  with the old one (`ChainRestore.RewrittenSuperblockIsLost`).
- A declared payload length over the limit closes the connection at once, except when the header's first byte came in
  an earlier chunk and the declared length is not buffered: then the client waits (`Client.Client.OnData`). The frames
  delivered are the same either way (`ClientSpec.ChunkingDoesNotMatter`).
- When the socket closes, every request settles if and only if the client was not already closed by its own `close`,
  or nothing was waiting (`ClientMatching.SocketEndSettles`). A request in flight at `close` stays unsettled in every later
  state until data, a socket error or its own cancellation reaches it (`ClientMatching.CloseForgetsRequestsInFlight`); a
  run where none does is given in full (`ClientMatching.ForgettingIsReachable`).
- A waiter whose own connect succeeds after the pool closed is lost, and only then (`PoolSpec.WaitersAccountedFor`). It is
  never settled (`PoolSpec.LostForGood`), and every pool has a run that loses one (`PoolSpec.LosingIsReachable`).
- The pool keeps to its `max` in every run if and only if `max` is a whole number (`PoolSpec.CapHoldsExactly`); the
  constructor takes fractions.
- A message comes back from the wire unchanged if and only if it has no empty password or user name, no error class
  outside one byte, no feature past the cap, no byte order mark in front of a strictly decoded text, and only rows as
  wide as the columns (`WireRoundTrip.LosslessWhenPlain`). The encoder writes ragged rows; what arrives is their cells
  regrouped, and the rest of them is dropped or refused (`WireRoundTrip.RoundTrip`).
  Texts here are well-formed strings: the encoder replaces a lone surrogate before anything is written.
- A decoder accepts payloads no encoder writes: a connect without a password field, a bool parameter that is neither 0
  nor 1, and ill-formed UTF-8 in a loosely decoded text (`WireConverse.IllFormedTextIsAccepted`). An encoder can have
  written a payload, with bytes after it only where the format ignores them, if and only if it decodes and is none of
  these (`WireConverse.WrittenUnlessTolerated`, for any set of float patterns the platform writes). A frame with a flags
  byte that is not zero is accepted too (`WireConverse.DecodedFrameWasWritten`).
- A string literal is read back if and only if the string is within the lexer's 16 MiB; over that the lexer refuses what
  the client rendered (`Escaping.LiteralReadsBack`). An SQL literal is read back if and only if no quote follows it
  directly (`Escaping.SqlLiteralReadsBack`).

## Model

| member | source | states |
|---|---|---|
| `SyncHistory.ClosedEndsEveryTransaction` | crates/sync/src/apply.rs:625-720 | in a chunk the boundary scan accepts as closed, every row change is followed by its transaction's commit or rollback |
| `SyncHistory.ClosedConcat` | crates/sync/src/apply.rs:625-720 | closed chunks in sequence make a closed history |
| `SyncScan.ScanMeans` | crates/sync/src/apply.rs:625-720 | the boundary scan fails exactly at a record of an unsupported type, and leaves each transaction open as often as a counter of its own says |
| `SyncScan.ClosedMeans` | crates/sync/src/apply.rs:625-720 | a chunk is closed if and only if every record is supported and every transaction's counter is back at zero |
| `SyncScan.ClosedIfAllEnd` | crates/sync/src/apply.rs:625-720 | while no transaction begins twice, a chunk is closed if and only if every record is supported and every transaction opened in it is ended in it |
| `SyncHistory.BuildPullChunk` | crates/server/src/handler/sync.rs:797-870 | the chunk served is a prefix within both budgets that cuts no transaction, reaches the hint or is the longest such prefix; when one read batch covers the cap it is the longest, and "unservable" exactly when a unit within the budgets cannot be applied or the next transaction does not fit |
| `SyncPrimary.AnswerPull` | crates/server/src/handler/sync.rs:1002-1136 | refusals exactly on bad budgets or a cursor mismatch; when a pull is due the answer is a rebootstrap exactly when the next units cannot be served, and otherwise the longest servable slice of the log from the cursor; an empty one means no transaction is complete yet |
| `SyncPrimary.Acknowledge` | crates/server/src/handler/sync.rs:1158-1206 | an accepted acknowledgement moves the cursor only forward, never past the log or what the replica observed, and reports it back |
| `SyncPrimary.NotStaleMeansCaughtUp` | crates/sync/src/replica.rs:154-297 | a status is not stale if and only if an active cursor stands at the end of the log |
| `SyncPrimary.RepairMeans` | crates/sync/src/replica.rs:154-297 | a status says pull exactly when the next unit is retained, wait exactly when no later one is, and nothing exactly at the end of the log |
| `SyncPrimary.AcceptedAcknowledgements` | crates/server/src/handler/sync.rs:1158-1206 | an acknowledgement is accepted if and only if the cursor is active, it moves forward within what was observed, and all it covers is retained and cuts no transaction |
| `SyncPrimary.ServedChunkIsAcknowledged` | crates/server/src/handler/sync.rs:1158-1206 | a chunk the primary served is acknowledged as long as the cursor and the chunk are still there, however the log grew |
| `SyncLocal.AcceptedChunks` | crates/sync/src/apply.rs:182-271 | exactly which chunks the local database accepts, and what its content is afterwards |
| `SyncLocal.RetryAfterLostAck` | crates/sync/src/apply.rs:325-446 | pulling again after a lost acknowledgement works if and only if the chunk has the same length |
| `SyncLocal.RetryAfterCrash` | crates/sync/src/apply.rs:325-409 | retrying after a crash works if and only if the crash left the catalog at an end of the chunk; in between nothing is accepted |
| `SyncReplica.ValidatePulledChunk` | clients/sync/src/index.ts:728-746 | accepts exactly contiguous units from the cursor with one-byte record types, and returns how far they reach |
| `SyncReplica.AcceptedAckCovers` | clients/sync/src/index.ts:748-789 | an acknowledgement reply is accepted if and only if it takes nothing back: what was applied, what was observed, and that it moved |
| `SyncReplica.PrimaryAcksPassValidation` | clients/sync/src/index.ts:748-789 | the client's checks accept every acknowledgement reply the primary can give |
| `SyncReplica.StepKeepsInv` | clients/sync/src/index.ts:427-575 | every step of every call, failure, crash or late acknowledgement keeps the system invariant and loses no unit |
| `SyncReplica.NoLossNoGap` | clients/sync/src/index.ts:427-520 | in every state of every run the replica is a prefix of the primary's log and the cursor is not past it |
| `SyncReplica.ReadYourWrites` | clients/sync/src/index.ts:522-575 | once `write` reports `localVisible`, by success or by an applied-but-unacknowledged error, the replica holds everything up to that commit, then and ever after |
| `SyncReplica.VisibleExactly` | clients/sync/src/index.ts:551-575 | a sync that returned makes a write visible if and only if its last status has the replica at the end of the log; one that threw does if and only if it threw while acknowledging a chunk that reached that end |
| `SyncReplica.WholeTransactions` | clients/sync/src/index.ts:427-520 | outside an interrupted apply, a local read never sees part of a transaction |
| `SyncReplica.SyncBoundAndConservation` | clients/sync/src/index.ts:427-520 | a finished `syncNow` made at most `maxRounds` pulls and its `units` are exactly how far the LSN moved, with other calls running or not |
| `SyncReplica.EveryRoundAdvances` | clients/sync/src/index.ts:444-519 | each acknowledged round moves the applied LSN strictly forward |
| `SyncRounds.FirstStatusDecides` | clients/sync/src/index.ts:438-464 | after its first status a call throws if and only if it is unusable, pulls from the cursor if and only if there is something to pull, and otherwise returns with nothing done |
| `SyncRounds.ServedChunksAreTaken` | clients/sync/src/index.ts:465-478 | the client's check never refuses a chunk the primary serves; an answered pull throws, ends the call or is applied, each exactly when it should |
| `SyncRounds.SyncGoesOn` | clients/sync/src/index.ts:508-519 | after an acknowledgement a call pulls again if and only if more is reported, there is something to pull, rounds are left and it was not asked for one; it is exhausted if and only if only the rounds stopped it |
| `SyncRounds.VisibleWriteIsReachable` | clients/sync/src/index.ts:522-561 | a run in which a write is synced and reported visible by success |
| `SyncFrames.UnitSize` | crates/server/src/handler/sync.rs:829-840 | what a unit is budgeted at is what the encoder writes for it |
| `SyncFrames.ServedChunkArrives` | crates/server/src/handler/sync.rs:797-870 | a chunk within the pull budgets arrives unchanged in one frame, whatever follows |
| `SyncProgress.EveryCallIsBounded` | clients/sync/src/index.ts:427-520 | in every state of every run no call, finished, running or failed, has sent more than `maxRounds` pulls, and its `units` are how far its LSN moved |
| `SyncProgress.RetryMeetsPrimary` | crates/sync/src/apply.rs:325-446 | the chunk the primary serves after a lost acknowledgement is accepted if and only if the applied chunk is still the longest servable one |
| `SyncProgress.LostAckStopsReplica` | crates/sync/src/apply.rs:325-446 | once the log has outgrown an unacknowledged chunk, no later state of a run that does not deliver the acknowledgement has a different replica |
| `SyncProgress.CrashStopsReplica` | crates/sync/src/apply.rs:325-409 | after a crash strictly inside a chunk no later state of any run has a different replica |
| `SyncProgress.CrashIsReachable` | crates/sync/src/apply.rs:182-271 | a run that crashes inside a chunk |
| `SyncProgress.LostAckIsReachable` | clients/sync/src/index.ts:427-520 | a run that loses an acknowledgement and then outgrows the chunk |
| `HeapDelta.DiffPages` | crates/backup/src/incremental.rs:90-104 | the delta holds exactly the pages past the base LSN, ascending, one record each |
| `HeapDelta.PageLsnIsWritten` | crates/storage/src/page.rs:2-16 | the page LSN read is the one in the page header storage writes |
| `HeapDelta.PatchResult` | crates/backup/src/incremental.rs:267-325 | replaying a delta takes shipped pages from the source and leaves every other page alone |
| `HeapDelta.DeltaIsExact` | crates/backup/src/incremental.rs:267-325 | applying a file's delta always succeeds and gives the file if and only if length and unshipped pages were already there |
| `HeapDelta.UnshippedPageOfNewFile` | crates/backup/src/incremental.rs:267-325 | an unshipped page of a file that did not exist is restored as zeros |
| `BackupChain.IncrementalBackup` | crates/backup/src/incremental.rs:33-138 | succeeds exactly on a legal catalog transition, the same sync history and all required files present; records exactly the changes against the base |
| `BackupChain.DataDir.WriteDelta` | crates/backup/src/incremental.rs:267-325 | the file written in place is the specified patch; a refused record leaves exactly the pages before it written, a wrong length leaves the directory alone, and no other file changes |
| `BackupChain.DataDir.ReplayChanges` | crates/backup/src/incremental.rs:186-224 | replays one increment's changes in order, or refuses exactly when the specification does |
| `BackupChain.DataDir.CopyFull` | crates/backup/src/restore.rs:187-266 | the full copy holds exactly the listed files with matching digests, or is refused |
| `BackupChain.DataDir.RestoreChain` | crates/backup/src/incremental.rs:157-247 | restoring a chain in place is the specified replay of the full copy and each increment |
| `BackupChain.FullCopyIsExact` | crates/backup/src/restore.rs:252-266 | a full backup whose entries match restores to exactly the files listed |
| `ChainChecks.OnlyChangesAreStored` | crates/backup/src/incremental.rs:62-118 | an increment has a record for a file if and only if it changed, and of a heap holds exactly the pages past the base |
| `ChainChecks.CopiedIfSound` | crates/backup/src/restore.rs:187-266 | a full backup is copied if and only if every name is legal and listed once and every file is there with its recorded digest |
| `ChainChecks.ReplayedIfUnbroken` | crates/backup/src/incremental.rs:172-224 | a chain is replayed if and only if every increment starts at the LSN the one before ended at, in the same sync history and a legal version, with every name, digest and delta in order |
| `ChainChecks.RestoredIfIntact` | crates/backup/src/incremental.rs:157-247 | a restore succeeds if and only if the full backup checks out and the chain is unbroken; what the files held has no part in it |
| `ChainChecks.VersionsNeverGoBack` | crates/backup/src/incremental.rs:186-186 | along a chain that restores the catalog version stays supported and never goes back |
| `ChainChecks.NamesStayInside` | crates/backup/src/restore.rs:59-85 | a name a restore takes has no separator and is no dot name; every heap and index with a plain stem is taken |
| `ChainRestore.IncrementIsExact` | crates/backup/src/incremental.rs:33-138 | replaying an increment never fails, and reproduces the snapshot if and only if everything left out is in place |
| `ChainRestore.ChainLink` | crates/backup/src/incremental.rs:157-247 | under the page-LSN rule one link is exact if and only if every whole file taken for unchanged really is |
| `ChainRestore.ChainRestoreIsExact` | crates/backup/src/incremental.rs:157-247 | for any history obeying the page-LSN rule with no heap shrinking, the full backup plus any prefix of increments restores that snapshot byte for byte |
| `ChainRestore.RevertedFileIsLost` | crates/backup/tests/incremental.rs:213-220 | restoring a full backup and two increments, the second taken on a base that keeps the full backup's digests, succeeds and brings back the middle version of a file that changed and changed back |
| `ChainRestore.NewHeapIsExact` | crates/backup/src/incremental.rs:90-118 | a heap created after the base is restored if and only if some page is newer than the base and all others are blank; with no newer page it is left out |
| `ChainRestore.NewHeapLosesItsSuperblock` | crates/storage/src/heap.rs:28-48 | no heap created after the base comes back, because its superblock has LSN zero and is not blank |
| `ChainRestore.StalePageIsLost` | crates/backup/src/incremental.rs:90-104 | a heap with a page that differs from the destination's and is not past the base never comes back |
| `ChainRestore.RewrittenSuperblockIsLost` | crates/storage/src/heap.rs:992-1010 | restoring a full backup and an increment taken after a heap's superblock was rewritten in place succeeds and is not the snapshot |
| `Pj1Decoder.DecodeText` | clients/ts/src/protocol.ts:1480-1489 | returns the one UTF-8 text encoded at the position, or none exactly when there is none |
| `Pj1Decoder.DecodeArray` | clients/ts/src/protocol.ts:1399-1428 | returns the one array encoded there and where it ends, or none exactly when there is none |
| `Pj1Decoder.DecodeObject` | clients/ts/src/protocol.ts:1430-1478 | the same for objects: strictly sorted keys, contiguous offsets, exact end |
| `Pj1Decoder.DecodeNode` | clients/ts/src/protocol.ts:1353-1397 | the same for every node kind, within the depth limit |
| `Pj1Decoder.Decode` | clients/ts/src/protocol.ts:1347-1351 | accepts a byte string if and only if it is the encoding of a well-formed document, and returns that document |
| `Pj1.UniqueAt` | clients/ts/src/protocol.ts:1353-1478 | no two documents can be read from the same place |
| `Pj1Text.Utf8Means` | clients/ts/src/protocol.ts:1327-1335 | a text is well formed if and only if it is the UTF-8 of some code points that are not surrogates |
| `Pj1Text.LessMeans` | clients/ts/src/protocol.ts:1446-1449 | keys are ordered byte by byte, a proper prefix first |
| `Pj1Text.FiniteMeans` | clients/ts/src/protocol.ts:1378-1385 | a double is finite if and only if its exponent is not all ones |
| `Pj1.EncodeInjective` | clients/ts/src/protocol.ts:1347-1506 | different documents have different encodings |
| `Pj1.ArrayOccurs` | clients/ts/src/protocol.ts:1399-1428 | an array's bytes are exactly its tag, count, offset table and items, entry by entry |
| `Pj1.ObjectOccurs` | clients/ts/src/protocol.ts:1430-1478 | an object's bytes are exactly its tag, count, paired offset table, keys and values |
| `WireDecoder.Cursor.DecodeString` | clients/ts/src/protocol.ts:1314-1325 | takes one length-prefixed text off the front, or fails exactly when it is truncated |
| `WireDecoder.Cursor.DecodeStringStrict` | clients/ts/src/protocol.ts:1337-1345 | the same with UTF-8 required and a byte order mark dropped |
| `WireDecoder.Cursor.DecodeParams` | clients/ts/src/protocol.ts:955-994 | takes exactly the declared parameters, within the cap |
| `WireDecoder.Cursor.DecodeWireValue` | clients/ts/src/protocol.ts:996-1044 | takes one typed value with the body length its type demands; JSON bodies must be canonical PJ1 |
| `WireDecoder.Cursor.DecodeSyncStatus` | clients/ts/src/protocol.ts:1075-1120 | takes all fields of a status in order, refusing unknown repair actions and flags |
| `WireDecoder.Cursor.DecodeUnits` | clients/ts/src/protocol.ts:815-832 | takes exactly the declared retained units |
| `WireDecoder.Cursor.DecodeFeatureList` | clients/ts/src/protocol.ts:1216-1241 | takes a feature list within its caps |
| `WireDecoder.Cursor.DecodeHello` | clients/ts/src/protocol.ts:1260-1304 | takes a hello block of either side and leaves later extensions unread |
| `WireDecoder.Cursor.DecodeRowCount` | clients/ts/src/protocol.ts:860-877 | applies the row, shape, size and cell limits in order; only the cell limit is the recoverable failure |
| `WireDecoder.Cursor.DecodeTextRows` | clients/ts/src/protocol.ts:849-886 | takes the rows a checked shape declares |
| `WireDecoder.Cursor.DecodeValueRows` | clients/ts/src/protocol.ts:889-922 | the same for typed rows |
| `WireDecoder.DecodeMessage` | clients/ts/src/protocol.ts:679-953 | decodes every message type as specified and refuses every unknown one |
| `WireDecoder.TryDecodeFrame` | clients/ts/src/protocol.ts:661-677 | waits, fails or decodes the frame at the front exactly as specified |
| `WireRoundTrip.StatusBack` | clients/ts/src/protocol.ts:1056-1120 | decoding an encoded status gives it back, whatever follows |
| `WireRoundTrip.ValueBack` | clients/ts/src/protocol.ts:607-652 | decoding an encoded typed value gives it back, up to a byte order mark |
| `WireRoundTrip.HelloBack` | clients/ts/src/protocol.ts:1243-1304 | an encoded hello comes back with its first 64 features, or is refused exactly when one of those names is too long |
| `WireRoundTrip.RowsBack` | clients/ts/src/protocol.ts:849-922 | encoded rows of any widths come back as their cells regrouped to the column count, or are refused exactly when a cap is exceeded, the bytes are too few or the cells run out; over the cell cap is recoverable |
| `WireRoundTrip.OnlyCapsRefuseRows` | clients/ts/src/protocol.ts:849-922 | rows as wide as the columns meet only the caps: no size guard refuses what the encoder wrote |
| `WireRoundTrip.RoundTrip` | clients/ts/src/protocol.ts:372-568 | every message that can be framed, followed by any bytes, decodes to itself up to what the format drops, consuming exactly its frame, or meets the failure its payload size, names, units or rows call for |
| `WireRoundTrip.PrefixWaits` | clients/ts/src/protocol.ts:661-677 | a proper prefix of a frame waits for more, unless its header is there and already over the payload cap |
| `WireRoundTrip.LosslessWhenPlain` | clients/ts/src/protocol.ts:679-953 | what comes back is the message itself if and only if the message is plain |
| `WireRoundTrip.StripBomMeans` | clients/ts/src/protocol.ts:1327-1335 | strict decoding drops one leading byte order mark and nothing else |
| `WireRoundTrip.EncodedFrameIsDelivered` | clients/ts/src/index.ts:2029-2080 | the client's reader takes an encoded message whole and classes it by its fate alone, unless its length is over the cap |
| `WireConverse.WhatDecodesWasEncoded` | clients/ts/src/protocol.ts:679-953 | every payload the decoder accepts, but for two spellings, has the bytes of an encodable message that arrives as what was read, exactly so where trailing bytes are refused; that message has well-formed texts if and only if what was read has |
| `WireConverse.WrittenUnlessTolerated` | clients/ts/src/protocol.ts:679-953 | an encoder can have written a payload if and only if it decodes to well-formed texts and writable floats and is not one of the two tolerated spellings |
| `WireConverse.IllFormedTextIsAccepted` | clients/ts/src/protocol.ts:1306-1325 | a query of the single byte 0xFF is accepted, and no encoder writes it |
| `WireConverse.DecodedFrameWasWritten` | clients/ts/src/protocol.ts:661-677 | a decoded frame takes exactly its declared bytes, which are the frame of a message that arrives as what was decoded if and only if the flags byte is zero and no ignored bytes follow |
| `Goldens.ConnectHelloFull` | crates/server/tests/wire_vectors/handshake.txt:20 | the encoder writes the handshake vector both implementations hold fixed |
| `Goldens.LegacyRows` | clients/ts/test/protocol.test.ts:555-560 | the encoder writes the rows frame older clients read |
| `Goldens.NativeNumbers` | clients/ts/test/protocol.test.ts:562-592 | the encoder writes the numeric cells of the golden native row |
| `Goldens.NativeOthers` | clients/ts/test/protocol.test.ts:562-592 | and its other cells |
| `Goldens.NestedDocument` | clients/ts/test/protocol.test.ts:678-682 | the document layout is that of the golden nested document |
| `ClientSpec.WorkSplit` | clients/ts/src/index.ts:1992-2101 | decoding in two pieces is decoding in one, unless the first piece already closed the client |
| `ClientSpec.ChunkingDoesNotMatter` | clients/ts/src/index.ts:1992-2101 | for every split of a stream the delivered frames are those of one-piece decoding; with legal lengths everything settles the same and no whole frame is left |
| `ClientSpec.RepliesInOrder` | clients/ts/src/index.ts:2067-2100 | frames are matched in stream order, none skipped and none twice |
| `ClientMatching.StepInv` | clients/ts/src/index.ts:1851-2169 | every send, abort, data event, failure and close keeps the matching and window invariants |
| `ClientStream.RepliesFollowStream` | clients/ts/src/index.ts:1992-2101 | in every run the frames matched to requests are the answers in the bytes received, in order, all of them until an error close |
| `ClientStream.EveryRequestItsOwn` | clients/ts/src/index.ts:1851-2101 | in every run whose received bytes answer the written requests in order, a request settles only with its own reply, its own size error, its abort or the close; it has settled once its answer is in, and unsettled ones are still pending or queued |
| `ClientStream.SettledStays` | clients/ts/src/index.ts:1876-1886 | a request settles once: what it settled with never changes |
| `ClientStream.AbortedWasCancelled` | clients/ts/src/index.ts:1888-1900 | only a request's own cancellation settles it as aborted |
| `ClientEffects.PongsForPings` | clients/ts/src/index.ts:2060-2068 | in every run, until an error closes the client, one pong is written per ping received, no frame was malformed and no more answers came than requests went out |
| `ClientEffects.DisconnectForClose` | clients/ts/src/index.ts:1781-1800 | in every run one disconnect is written if the caller closed an open client, and none otherwise |
| `ClientEffects.WhatSettles` | clients/ts/src/index.ts:1851-1920 | in every run each request settles for one reason and as that reason says; cancelling and a socket error always settle it; a send on an open client takes the next request |
| `ClientMatching.WindowHolds` | clients/ts/src/index.ts:1931-1969 | in every state at most `maxInFlight` frames are pending, under the byte budget unless one frame alone, and a live queue head waits only when all slots are taken or its bytes would reach the budget |
| `ClientMatching.AbortedWhileQueuedNeverWritten` | clients/ts/src/index.ts:1888-1915 | a request aborted while queued is never written, however the run continues |
| `ClientMatching.TearDownSettlesAll` | clients/ts/src/index.ts:2128-2169 | an error close leaves no request waiting |
| `ClientMatching.SocketEndSettles` | clients/ts/src/index.ts:2128-2130 | the socket's own close settles everything if and only if the client was open or nothing waited |
| `ClientMatching.CloseForgetsRequestsInFlight` | clients/ts/src/index.ts:1781-1815 | in every run a request in flight at `close` stays in flight and unsettled until data, a socket error or its cancellation reaches it, and the last two settle it |
| `ClientMatching.ForgettingIsReachable` | clients/ts/src/index.ts:1781-1815 | a run that sends, closes and sees the socket end leaves its request unsettled |
| `Client.Client.Send` | clients/ts/src/index.ts:1851-1920 | a request is queued and pumped exactly when the client is open, its signal has not fired, and its frame is within the parameter and payload caps; a refused one changes nothing and says why |
| `Client.Client.AbortRequest` | clients/ts/src/index.ts:1888-1900 | an abort settles a request that has not settled, and leaves both queues as they are |
| `Client.Client.Pump` | clients/ts/src/index.ts:1931-1969 | writes queued requests in order until the window is full, dropping aborted ones |
| `Client.Client.Coalesce` | clients/ts/src/index.ts:2104-2109 | merges the chunk list without changing the bytes |
| `Client.Client.Consume` | clients/ts/src/index.ts:2112-2126 | drops exactly the first bytes, across chunks |
| `Client.Client.View` | clients/ts/src/index.ts:2001-2036 | picks a buffer whose head decodes as the whole stream's does, or waits exactly when a multi-chunk frame is incomplete |
| `Client.Client.OnData` | clients/ts/src/index.ts:1992-2101 | one data event does what decoding all buffered bytes in one piece does; it holds back exactly at an illegal length that began in an earlier chunk |
| `Client.Client.OnClose` | clients/ts/src/index.ts:2128-2169 | settles every waiting request with the close error and empties both queues, or does nothing on a second socket close |
| `ScriptRunner.Dispatch` | clients/ts/src/index.ts:1584-1640 | dispatches a prefix of the statements, never a whole window past the first failure, and records every reply and the earliest failure |
| `ScriptRunner.ExecScript` | clients/ts/src/index.ts:1552-1713 | results if and only if all statements went out and succeeded and the commit did; a refused commit is reported as such and rolled back; a script error if and only if it did not complete, with exactly the results before the first failure; continue-on-error gives one outcome per statement |
| `PoolSpec.StepInv` | clients/ts/src/pool.ts:206-302 | every event of every interleaving keeps the slot, client and waiter invariants |
| `PoolSpec.PoolSafety` | clients/ts/src/pool.ts:206-302 | slots equal owned clients plus connects in flight and stay under `max + 1`; a client is handed out to one caller at a time and never while idle; nobody queues while a client or slot is free |
| `PoolSpec.WaitersAccountedFor` | clients/ts/src/pool.ts:439-469 | every waiter is queued, served, settled or lost, and is lost exactly when its connect succeeds after the pool closed |
| `PoolSpec.WaitersGetTheirOwn` | clients/ts/src/pool.ts:265-286 | a waiter settles once, for one reason: its timer, its failed connect, the close, or with exactly the client its connect made or that was given back while it was first; it then holds that client alone |
| `PoolSpec.FirstComeFirstServed` | clients/ts/src/pool.ts:237-255 | the queue is in order of arrival, and whoever leaves it but by timeout leaves nobody behind who came before |
| `PoolSpec.AskDecides` | clients/ts/src/pool.ts:206-255 | an acquire hands out the client idle longest, else connects if there is a slot, else queues, and does nothing else |
| `PoolSpec.GiveBackDecides` | clients/ts/src/pool.ts:265-286 | a client given back goes to the first waiter, else to the end of the idle list, and out of a closed pool |
| `PoolSpec.LostForGood` | clients/ts/src/pool.ts:448-460 | a waiter lost in one state is lost and unsettled in every later one |
| `PoolSpec.LosingIsReachable` | clients/ts/src/pool.ts:448-460 | every pool has a run that loses a waiter |
| `PoolSpec.CapHoldsExactly` | clients/ts/src/pool.ts:150-152 | no run exceeds `max` if and only if `max` is a whole number |
| `Pool.Pool.Acquire` | clients/ts/src/pool.ts:206-255 | hands out an idle client, starts a connect, queues or rejects as specified, keeping the pool's invariant |
| `Pool.Pool.Release` | clients/ts/src/pool.ts:265-286 | gives a client to the first waiter, back to the idle list, or out of a closed pool, keeping the invariant for any client its caller holds |
| `Pool.Pool.Evict` | clients/ts/src/pool.ts:428-437 | drops an owned client once, returns its slot and serves waiters |
| `Pool.Pool.Destroy` | clients/ts/src/pool.ts:293-302 | lets go of a held client and returns its slot once, keeping the invariant |
| `Pool.Pool.ClientClosed` | clients/ts/src/pool.ts:408-413 | a connection that goes down by itself is evicted, idle or held, keeping the invariant |
| `Pool.Pool.DrainWaiters` | clients/ts/src/pool.ts:439-469 | serves waiters in order while there is headroom |
| `Pool.Pool.Served` | clients/ts/src/pool.ts:448-460 | adopts and hands over the new client, or closes it on a closed pool, keeping the invariant |
| `Pool.Pool.Close` | clients/ts/src/pool.ts:378-397 | rejects every waiter and lets every idle client and its slot go, keeping the invariant |
| `Splitter.SplitStatements` | clients/ts/src/script.ts:26-65 | the index loop computes what the recursive scanner does, for every input |
| `Splitter.StatementsAreListed` | clients/ts/src/script.ts:26-65 | statements are trimmed, hold no separator, and all but the last end outside strings |
| `Splitter.RawRejoined` | clients/ts/src/script.ts:26-65 | cutting loses nothing but the semicolons cut at |
| `Splitter.OpaqueText` | clients/ts/src/script.ts:26-65 | nothing in a comment up to its line end or in a string up to its unescaped quote separates |
| `Splitter.SplitJoined` | clients/ts/src/script.ts:26-65 | splitting a list joined by newline and semicolon gives the list back |
| `Splitter.SplitIsStable` | clients/ts/src/script.ts:26-65 | re-joining the statements of any script and splitting again changes nothing |
| `Escaping.LiteralReadsBack` | clients/ts/src/escape.ts:128-140 | the lexer reads an escaped literal back as the string and stops right after it if the string is within its limit, and refuses it otherwise |
| `Escaping.EscapeTable` | crates/query/src/lexer.rs:258-315 | each one-letter escape stands for its character in both lexers, and every other is refused |
| `Escaping.HexEscapes` | crates/query/src/lexer.rs:280-307 | four hexadecimal digits name their character, and a surrogate is refused |
| `Escaping.SqlLiteralReadsBack` | clients/ts/src/escape.ts:221-237 | the SQL lexer reads a literal back if and only if no quote follows it |
| `Escaping.LiteralIsClosed` | clients/ts/src/escape.ts:128-140 | a literal starts and ends outside strings and holds no separator |
| `Escaping.InsertionGrowsOneSegment` | clients/ts/src/escape.ts:170-180 | a literal inserted outside strings and comments changes one segment only |
| `Escaping.InsertionKeepsCount` | clients/ts/src/escape.ts:170-180 | the statement count is that without the literal, plus one exactly when it lands in a blank segment |
| `Escaping.CountIgnoresTheString` | clients/ts/src/escape.ts:170-180 | the statement count does not depend on the string |
| `Sorting.SortCompares` | crates/backup/src/verify.rs:1293-1304 | sorted forms are equal if and only if the multisets are |
| `IndexVerify.Group` | crates/backup/src/verify.rs:606-614 | buckets hold exactly the rows' pairs, grouped by key, empty keys left out |
| `IndexVerify.FoundMeansHeld` | crates/backup/src/verify.rs:624-658 | probing only expected keys and comparing one total proves the index equal to the expected pairs |
| `IndexVerify.VerifyColumnIndex` | crates/backup/src/verify.rs:589-660 | passes if and only if the index holds exactly the expected pairs with multiplicity, and a unique one has no key twice |
| `RowDigest.RowBytesInjective` | crates/backup/src/verify.rs:1242-1276 | different rows feed different bytes to the hash |
| `RowDigest.DigestsCompareRows` | crates/backup/src/verify.rs:1233-1249 | with a collision-free hash, digest multisets agree if and only if row multisets do |
| `RowDigest.TableDigest` | crates/backup/src/verify.rs:1233-1240 | the digest is the sorted list of the rows' hashes |
| `RowDigest.SameTables` | crates/backup/src/verify.rs:1233-1249 | two tables compare equal if and only if they hold the same rows, each as often |
| `OracleDiff.RowOrder` | crates/oracle/src/model.rs:392-426 | rows are totally ordered and no two different rows tie |
| `OracleDiff.Only` | crates/oracle/src/compare.rs:97-112 | the swap-remove loop leaves exactly the multiset difference |
| `OracleDiff.SwapRemove` | crates/oracle/src/compare.rs:103-105 | removes one occurrence and nothing else |
| `OracleDiff.CountsDiffer` | crates/oracle/src/compare.rs:113-121 | when row counts differ, one of the two difference lists is not empty |
| `OracleDiff.DiffRows` | crates/oracle/src/compare.rs:36-88 | agreement if and only if columns match and rows are equal, in order or as multisets |
| `OracleDiff.Diff` | crates/oracle/src/compare.rs:15-34 | the same for whole outcomes: two errors agree, an error and rows never do |
| `EditDistance.Compute` | crates/cli/src/args.rs:142-155 | two rolling rows return the least length of any edit script, and some script has it |
| `EditDistance.LeastScript` | crates/cli/src/args.rs:142-155 | the recurrence is attained by a script and undercut by none |
| `EditDistance.Symmetric` | crates/cli/src/args.rs:142-155 | the distance is symmetric |
| `EditDistance.Triangle` | crates/cli/src/args.rs:142-155 | going through a third word is never shorter |

## Left out

- Sync: identity, format-version and file-system refusals are failed calls; lag in bytes and time, the background timer, rebootstrapping and loss of local durability are not modelled.
- Sync: WAL replay and segment files; the log is a sequence and retention is a range of it.
- Backup: removal of stale files (increments carry no deletions), directory locks, file modes, reopening the restored catalog, and the digest of the catalog in sync mode.
- Backup: the payload of a change is kept beside its manifest entry instead of in a file of its own.
- Pj1Decoder.Decode: returns the tagged document; the JavaScript value drops a byte order mark from texts and keys, shows small integers as numbers, and lets a later key overwrite an equal one.
- WireDecoder.Cursor.DecodeString: ill-formed UTF-8 is kept as bytes where the source puts replacement characters.
- WireSpec: floats are their eight bytes, so NaN payloads are not normalised; which of them a platform writes is a parameter of the converse.
- Client: the handshake, event emitters, socket back-pressure, and write-callback errors, which are always followed by a close; reply contents enter only through the decoder's verdict on each frame.
- ScriptRunner.ExecScript: the effect of `commit` and `rollback` on the server, and waiting for the socket to drain, which changes nothing it decides.
- Pool: retry and back-off inside one connect, and the order in which connects started for waiters finish.
- Escaping: numbers, booleans and identifiers, which need no escaping, and the tagged templates, which are repeated insertion.
- IndexVerify: expression indexes, and the B+tree behind a lookup, which enters as what a lookup returns.
- Engine: the query planner, executor, lexer, storage engine and server loop.
