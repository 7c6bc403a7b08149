# Ryu at rest, in rooms and on the wire

A Dafny model of the parts of Ryu that must not lose, leak or mix up data: the
at-rest storage crate (content ciphers, the resumable sealing migration, the
sealed log, the sealed file, master-key custody, the vector cache), the Rooms
store with its generation workers, and two byte-stream decoders. `dafny verify
dfyconfig.toml` checks all of it.

## How it is built

- **Cryptography** is a record of functions (`ContentCiphers.Crypto`): the AEAD
  of section 2.8 of RFC 8439, HKDF, key check values, SHA-256, base64, UTF-8.
  Every theorem holds for all functions that meet the laws it names. Where a
  theorem says that something does not open, it assumes the ideal AEAD of a set
  of sealings that took place (`OnlyOpens`). `IdealAeads` shows that lawful
  functions exist, and that restricting any of them to a set of sealings gives
  such an ideal AEAD.
- **Code that changes state** is a class or a method with the source's branches
  and loops (`ContentDb`, `Disk`, `SealedLogWriter`, `SealedFileWriter`,
  `SealedFileReader`, `KeyFolder`, `Partition`, `VectorBudget`, `TopK`,
  `RoomStore`). Pure code is functions.
- **Crashes.** Whatever a process writes durably is logged in a ghost `history`
  (or `log`) at every write: a transaction, one autocommitted statement, one
  file or keychain write. The class invariant ties consecutive entries to one such
  write each. A crash leaves any of those states. Invariants are
  proved for every one of them, and a rerun or a restart continues from there.
  Writes that may fail are chosen by the environment, not by the model.
- **Concurrency** (key-file publishing, generation workers) is a state machine
  over the steps between awaits or file operations; the theorems are about every
  schedule.
- **Foreign results** (SQLite's free pages, free disk space, clocks, random
  nonces, fresh ids, JSON and UTF-8 decoding, cosine scores) are parameters or
  arbitrary values.

## What the code does not do

These came out of proving what its documentation promises. Each is stated with a
concrete run and, where there is one, the condition under which the promise holds.

- A reseal under a new root that dies half way may move the store's key record
  although a value stayed unreadable: the counter is per run
  (`InterruptedResealMovesRecord`). Every value reads without the retired keys
  exactly when the run met nothing unreadable and skipped no stuck row
  (`MigrateAndTrust`).
- A plan added after the reset has no state row and does not hold the record back:
  the record may move before that column is looked at (`AddedPlanMovesRecord`).
  It moves exactly when a plan is finished after which no item with a state row is
  left, with nothing unreadable met so far (`ContentDb.MigrateColumns`).
- A log writer can be used again after an append that failed. A strict read then
  returns the committed records and the new one exactly when the failed append left
  nothing behind (`RetriedAppendReadsBackIff`).
- A sealed log that holds no whole record, opened with a cipher that has the
  writing key as a retired key, is taken over by the current key
  (`EmptyRetiredLogIsTakenOver`); one with a record is refused for appending
  (`WrittenRetiredLogIsRefused`; in general `RetiredLogOpens`).
- `seek` past 2^64 wraps around (`SeekWraps`); it is exact if and only if the
  target is below (`SeekIsExactIff`).
- Adopting a key while the keychain is locked may succeed and overwrite the only
  copy of the recorded key (`LockedKeychainLosesKey`). After a successful install
  the recorded key is held if and only if, before the call, it was in sight, or the
  keychain item held it and writing the new key there has no effect
  (`KeyFolder.InstallCurrent`).
- A crash inside `close_room` or `revoke_invite` leaves accepted guest sessions
  of a closed room or a revoked invite. The room's sessions are in order exactly
  when every closing and revoking that found one was followed by an event that
  revokes or deletes its guests (`SettledIff`; statement by statement
  `CutClosingSettlesIff`, `CutRevokingSettlesIff`). Another operation can still do
  that exactly while the room is open or the invite stands (`RevokeIfPossible`):
  after the second statement of a closing, never
  (`InterruptedCloseLeavesSession`, `CutClosingOrphansIff`).
- A crash after the first statement of `stop_run`, or between those of the recovery
  at start, leaves a room running without an active run. A room's status agrees
  with its runs exactly when every run ended that way was followed by the statement
  that sets the status, by a new turn or by the closing (`SteadyIff`;
  `CutStoppingSteadyIff`).
- Two workers may stream into one active run of a closed room
  (`TwoWorkersAfterClose`); in a room that is not closed they never do
  (`OneWorkerPerRun`). Over every schedule, two live workers share an active run
  exactly when both were started on it, the later one after a closing took out the
  room's entry while it named a live worker on that run (`TwoWorkersIff`).
- A chunk size within two of 2^64 makes `dechunk` panic instead of answering an
  error (`HugeSizePanics`). It panics exactly when it comes to such a size line,
  every chunk before it being there in full (`PanicsIff`). No build profile in the
  repository sets overflow checks, so they are a parameter: without them the
  largest size with nothing after its line is a truncated body.

## Model

| member | source | states |
|---|---|---|
| ContentContexts.PushPart | crates/core/crypto/src/content.rs:176-179 | a part is appended as its 8-byte big-endian length and its bytes |
| ContentContexts.AssociatedData | crates/core/crypto/src/content.rs:153-174 | the buffer built field by field is the length-prefixed encoding of label, store, purpose and the fields in the order they were added |
| ContentContexts.ParsesAssociatedData | crates/core/crypto/src/content.rs:153-179 | a length-prefix parser reads back store, purpose and fields from every encoding |
| ContentContexts.OnlyEncodingsParse | crates/core/crypto/src/content.rs:153-179 | nothing but encodings parses: bytes that parse are the encoding of what they parse to |
| ContentContexts.AssociatedDataIsInjective | crates/core/crypto/src/content.rs:153-179 | equal associated data means the same store, purpose and labelled fields in the same order, for all contexts |
| ContentCiphers.WithRetiredRoots | crates/core/crypto/src/content.rs:359-386 | the loop keeps, in order, one key per new check value and never the current one |
| ContentCiphers.RetiredRootsCommuteWithNesting | crates/core/crypto/src/content.rs:359-405 | attaching retired roots before or after any path of sub-cipher labels gives the same cipher, so the same candidate keys |
| ContentCiphers.RetiredKeysCoverRoots | crates/core/crypto/src/content.rs:359-386 | every attached root that is not the current one is represented among the retired keys, no check value twice, and every retired key is an attached root's |
| ContentCiphers.OpensSealedBlob | crates/core/crypto/src/content.rs:452-524 | a blob sealed under the current key opens to its plaintext and needs no resealing |
| ContentCiphers.OpensSealedText | crates/core/crypto/src/content.rs:458-511 | sealing then opening a text gives it back, not flagged |
| ContentCiphers.OpensSealedBytes | crates/core/crypto/src/content.rs:526-573 | sealing then opening bytes gives them back, not flagged |
| ContentCiphers.RetiredRootStillOpens | crates/core/crypto/src/content.rs:359-386 | a blob sealed under a retired root opens once the root is attached, flagged for resealing |
| ContentCiphers.MovedBlobDoesNotOpen | crates/core/crypto/src/content.rs:153-174 | a blob moved to another record, column or store does not open |
| ContentCells.ResealValue | crates/core/crypto/src/content_sqlite.rs:404-465 | the outcome is exactly the cell's verdict, and a sealed cell may stand where the old one stood |
| ContentCells.SealedTextReplaces | crates/core/crypto/src/content_sqlite.rs:420-441 | a resealed text reads as the original did, compat escape stripped, and is finished |
| ContentCells.SealedBytesReplace | crates/core/crypto/src/content_sqlite.rs:443-460 | a resealed blob reads as the original did and is finished |
| ContentCells.FinishedNeedsNoRetiredKey | crates/core/crypto/src/content.rs:513-524 | a cell that needs no resealing reads the same with the retired keys removed |
| ContentEnvelopes.TextCellIff | crates/core/crypto/src/content.rs:489-511 | for all text: finished iff empty or an `encb:v1:` envelope that the current key opens; resealed iff plaintext from before sealing or an envelope that only a retired key opens; else left; and what it reads as |
| ContentEnvelopes.BytesCellIff | crates/core/crypto/src/content.rs:548-573 | the same for bytes behind `RYU-CB01`; what looks like a sealed value is never sealed again |
| ContentEnvelopes.VersionedIff | crates/core/crypto/src/content.rs:587-594 | another version is `encb:v`, at least one digit and a colon |
| ContentEnvelopes.FinishedIff | crates/core/crypto/src/content_sqlite.rs:404-465 | the migration leaves a cell as finished exactly if it holds no value, an empty one, or an envelope that the current key opens |
| ContentStates.CursorRoundTrips | crates/core/crypto/src/content_sqlite.rs:186-210 | the cursor text of a row key parses back to the key |
| ContentStates.RowsUpToKey | crates/core/crypto/src/content_sqlite.rs:306-342 | resuming after a row's key skips exactly the rows up to it |
| ContentStates.PendingCursorRoundTrips | crates/core/crypto/src/content_sqlite.rs:838-868 | the store cursor parses back to what it encodes, for every scrub state and time |
| ContentStates.OwesScrub | crates/core/crypto/src/content_sqlite.rs:883-902 | marking the scrub owed leaves `vacuum_pending` and not scrubbed, key record kept |
| ContentStates.RerunContinues | crates/core/crypto/src/content_sqlite.rs:468-479 | a run cut at any commit and the rerun from there form one path of committed steps |
| ContentStates.TxKeeps | crates/core/crypto/src/content_sqlite.rs:480-572 | no committed step changes what any row of any column means |
| ContentStates.PathKeepsMeaning | crates/core/crypto/src/content_sqlite.rs:404-572 | over any crashes and reruns, every row reads as it did, and is only ever replaced by its sealed form |
| ContentStates.BatchProgress | crates/core/crypto/src/content_sqlite.rs:510-565 | after a batch, every row up to the cursor is settled |
| ContentStates.PathProgress | crates/core/crypto/src/content_sqlite.rs:480-572 | over any crashes and reruns, cursors and `sealed` states never overstate what was done |
| ContentStates.SealedItemIsSealed | crates/core/crypto/src/content_sqlite.rs:480-572 | once an item is `sealed`, each cell is empty or an envelope the current key opens, reading as it did without the retired keys, or is the original byte for byte and cannot be sealed |
| ContentStates.TxKeepsDebt | crates/core/crypto/src/content_sqlite.rs:883-902 | every committed step keeps the scrub-debt invariant |
| ContentStates.PathKeepsDebt | crates/core/crypto/src/content_sqlite.rs:1080-1258 | at every committed state `ok` means no plaintext residue, `scrubbed` means clean free pages, and `ok` was reached only from a clean store |
| ContentDbs.UpdatesOne | crates/core/crypto/src/content_sqlite.rs:540-556 | the compare-and-swap update changes exactly the row that was read |
| ContentDbs.SealRows | crates/core/crypto/src/content_sqlite.rs:544-560 | every row of a batch is done or left alone by its verdict, and counted so |
| ContentDbs.ContentDb.CheckStoreKey | crates/core/crypto/src/content_sqlite.rs:751-784 | newer formats are refused; an unnamed store records the current key, unless the write fails; else current, retired or mismatch |
| ContentDbs.ContentDb.SealBatch | crates/core/crypto/src/content_sqlite.rs:515-567 | one transaction seals up to 500 rows after the cursor and moves the cursor past them, or fails and changes nothing |
| ContentDbs.ContentDb.StartItem | crates/core/crypto/src/content_sqlite.rs:505-512 | the item starts with the scrub owed, in one transaction, keeping its cursor |
| ContentDbs.ContentDb.RunBatches | crates/core/crypto/src/content_sqlite.rs:513-568 | the loop terminates at the end of the column, having counted every row after the cursor |
| ContentDbs.ContentDb.FinishItem | crates/core/crypto/src/content_sqlite.rs:569-576 | the item is sealed, and the key record moves exactly when asked and every item is |
| ContentDbs.ContentDb.MigrateItem | crates/core/crypto/src/content_sqlite.rs:497-576 | unless a step fails, succeeds exactly when the table exists and the cursor parses; counts exactly the rows it visits |
| ContentDbs.ContentDb.MigrateColumns | crates/core/crypto/src/content_sqlite.rs:480-588 | unless a step fails, exactly when it succeeds; what it counts, and exactly when a retired record moves to the current root, all from the state it starts in: a plan is finished after which no item with a state row is left, nothing unreadable met so far |
| ContentDbs.ContentDb.CheckpointTruncate | crates/core/crypto/src/content_sqlite.rs:909-935 | success means an empty WAL |
| ContentDbs.ContentDb.DropScrubTable | crates/core/crypto/src/content_sqlite.rs:937-957 | success means secure delete is back on and the WAL empty |
| ContentDbs.ContentDb.FillFreePages | crates/core/crypto/src/content_sqlite.rs:959-998 | the chunk loop, when it completes, leaves no free page with old plaintext |
| ContentDbs.ContentDb.ScrubFreelist | crates/core/crypto/src/content_sqlite.rs:959-998 | success means no free page holds old plaintext, an empty WAL and secure delete on |
| ContentDbs.ContentDb.CompactNow | crates/core/crypto/src/content_sqlite.rs:1118-1148 | `ok` is recorded only after VACUUM and checkpoint left nothing |
| ContentDbs.ContentDb.FinishStore | crates/core/crypto/src/content_sqlite.rs:1063-1148 | `vacuumed` exactly when the store is `ok` and clean, else the cleanup stays owed; refused without secure delete; on a disk that works, with room and a store small enough, it vacuums |
| ContentDbs.ContentDb.RunPendingVacuum | crates/core/crypto/src/content_sqlite.rs:1198-1262 | a store that owes nothing, or was tried less than a day ago, is untouched; refused without secure delete; success means `ok` and clean; it is put off only for want of room, which it records, or for the store's size, its free pages scrubbed |
| ContentDbs.ContentDb.ResetItems | crates/core/crypto/src/content_sqlite.rs:606-615 | every planned item is pending without a cursor, the others untouched, unless a write fails |
| ContentDbs.ContentDb.ResealUnderCurrentRoot | crates/core/crypto/src/content_sqlite.rs:495-601 | from a reset under a retired record, a run that no failing step interrupts: the record moves iff no value was unreadable, iff none is stuck, and then each is empty or an envelope of the current key and reads as before without the retired keys |
| ContentDbs.TallyPlansUnreadable | crates/core/crypto/src/content_sqlite.rs:558-560 | a run meets an unreadable value exactly when a row it visits is stuck |
| ContentDbs.TallyCounts | crates/core/crypto/src/content_sqlite.rs:540-565 | each row is counted once, as sealed, already sealed or unreadable |
| ContentRuns.NeverMigrated | crates/core/crypto/src/content_sqlite.rs:139-153 | a store never migrated starts with both invariants |
| ContentRuns.DebtAlong | crates/core/crypto/src/content_sqlite.rs:883-902 | every state a connection commits has the scrub-debt invariant |
| ContentRuns.OpenStore | backend/src/store.rs:224-260 | opening the Rooms database keeps the scrub debt at every commit; success leaves every item sealed, and is certain for a store that can be migrated on a disk that works |
| ContentRuns.RunVouchesForAllIff | crates/core/crypto/src/content_sqlite.rs:567-576 | no planned value is stuck iff the run met none and none lies among the rows it skips |
| ContentRuns.MigrateAndTrust | crates/core/crypto/src/content_sqlite.rs:495-601 | a run from any state earlier runs may have left, planned items without a state row included: exactly when it moves a retired record; and every value then reads without the retired keys iff it met nothing unreadable and skipped no stuck row |
| ContentRuns.FutureTextIsStuck | crates/core/crypto/src/content.rs:489-511 | text of a newer envelope version opens under no key |
| ContentRuns.InterruptedResealMovesRecord | crates/core/crypto/src/content_sqlite.rs:567-576 | a run in which the record moves although a value does not open |
| ContentRuns.AddedPlanMovesRecord | crates/core/crypto/src/content_sqlite.rs:495-588 | a run in which the record moves before a plan without a state row is looked at, whose value does not open |
| SealedLogFormat.ScanWith | crates/core/crypto/src/sealed_log.rs:110-168 | the loop returns the records, committed end and tail kind of the specified scan |
| SealedLogFormat.EveryCutIsTorn | crates/core/crypto/src/sealed_log.rs:79-88 | every cut at or past the header is a crash after exactly one number of whole records |
| SealedLogFormat.ScanRecovers | crates/core/crypto/src/sealed_log.rs:110-168 | after any crash (cut, or zero padding at a boundary) the scan returns exactly the wholly written records |
| SealedLogFormat.RecordAadIsInjective | crates/core/crypto/src/sealed_log.rs:49-54 | no two record indexes share associated data |
| SealedLogFormat.AcceptedRecordsAreAPrefix | crates/core/crypto/src/sealed_log.rs:110-168 | whatever bytes follow the header, a scan that succeeds returns a prefix of what was appended |
| SealedLogScans.ScanAnswers | crates/core/crypto/src/sealed_log.rs:110-168 | for all bytes, by the frames walked over and what is left behind them: nothing is clean; less than a length, only zeros or less than a frame is torn; one whole last frame that fails is that; a bad length or a failing frame with more behind it is damage |
| SealedLogScans.WalkFrom | crates/core/crypto/src/sealed_log.rs:110-168 | every file has such a walk |
| SealedLogScans.LogRefusedIff | crates/core/crypto/src/sealed_log.rs:170-267 | recovery errs iff the header is bad or under every candidate key the log is damaged or fails at a first and only record; reopening errs also for a retired key, a strict read also for a torn tail |
| SealedLogScans.DamagedRecordIsRefused | crates/core/crypto/src/sealed_log.rs:139-166 | a record that does not open at its place, with anything behind it: recovery, strict read and reopening err |
| SealedLogs.OpenLog | crates/core/crypto/src/sealed_log.rs:170-212 | the loop over candidate keys answers what the specified open does |
| SealedLogs.ReadLogBytes | crates/core/crypto/src/sealed_log.rs:214-226 | a strict read refuses a torn tail |
| SealedLogs.OpenRecovering | crates/core/crypto/src/sealed_log.rs:253-267 | recovery of a file, or file missing |
| SealedLogs.CountRecords | crates/core/crypto/src/sealed_log.rs:418-427 | the loop counts the frames of a committed prefix |
| SealedLogs.CountAgreesWithScan | crates/core/crypto/src/sealed_log.rs:331-427 | the count by lengths is the number of records a verified scan returns |
| SealedLogs.SealedLogWriter.Create | crates/core/crypto/src/sealed_log.rs:296-329 | a new file holds exactly the header; an existing one is refused untouched |
| SealedLogs.SealedLogWriter.OpenAppend | crates/core/crypto/src/sealed_log.rs:331-367 | the file is cut exactly at the last committed boundary and the next index is the record count |
| SealedLogs.SealedLogWriter.Append | crates/core/crypto/src/sealed_log.rs:375-411 | one frame is appended at the next index, or an oversize record refused untouched; an append the disk cuts short leaves the part it took and the index where it was |
| SealedLogs.CrashRecovers | crates/core/crypto/src/sealed_log.rs:253-267 | after any crash recovery returns the whole records in order and says whether the tail was torn; a strict read errs exactly then |
| SealedLogs.CrashReopens | crates/core/crypto/src/sealed_log.rs:331-367 | after any crash reopening continues from the whole records |
| SealedLogs.HistoryReadsBack | crates/core/crypto/src/sealed_log.rs:331-427 | over every history of appends, crashes and reopens, reading gives the committed records followed by the later ones |
| SealedLogs.RetriedAppendReadsBackIff | crates/core/crypto/src/sealed_log.rs:375-411 | an append that fails and one that succeeds after it on the same writer: the log reads back as the committed records and the new one iff the failed one left nothing behind |
| SealedLogs.RetiredLogOpens | crates/core/crypto/src/sealed_log.rs:170-212 | a log under a retired key is recovered and flagged; it reopens for appending iff it holds no whole record |
| SealedContexts.LogForAnotherIsRefused | crates/core/crypto/src/sealed_log.rs:44-47 | a log sealed for another store or context is refused as soon as it holds a whole record |
| SealedFileFormat.ChunkNonceIsInjective | crates/core/crypto/src/sealed_file.rs:92-97 | no two chunks, and no last and inner chunk, share a nonce |
| SealedFileFormat.GeometryOfImage | crates/core/crypto/src/sealed_file.rs:318-375 | chunk count and plaintext length follow from the file size alone |
| SealedFileFormat.GeometrySound | crates/core/crypto/src/sealed_file.rs:318-375 | an accepted file size determines a consistent geometry |
| SealedFileFormat.FileOpensIff | crates/core/crypto/src/sealed_file.rs:318-375 | for all bytes: a file opens, and as what, iff its header and size are a file's and a candidate key opens its last chunk, the first that does |
| SealedFileFormat.OpensWrittenFile | crates/core/crypto/src/sealed_file.rs:195-375 | a written file opens with the writer's chunk count and length, and every chunk loads, for every chunk exponent 10 to 20 |
| SealedFileFormat.OpensRetiredFile | crates/core/crypto/src/sealed_file.rs:318-375 | a file under a retired key opens under it and is flagged |
| SealedFileFormat.LoadsOnlyWhatWasSealed | crates/core/crypto/src/sealed_file.rs:386-417 | a chunk that opens at an index is the writer's chunk of that index, last exactly if that one was |
| SealedFileFormat.AlteredFileIsHonest | crates/core/crypto/src/sealed_file.rs:318-417 | whatever happened after the header, a file that opens has the writer's length and each chunk fails or is the writer's |
| SealedFileFormat.TruncatedFileDoesNotOpen | crates/core/crypto/src/sealed_file.rs:318-375 | no strict prefix of a finished file opens |
| SealedContexts.FileForAnotherDoesNotOpen | crates/core/crypto/src/sealed_file.rs:318-375 | a file sealed for another store or context does not open |
| SealedFiles.SealedFileWriter.WithParams | crates/core/crypto/src/sealed_file.rs:168-193 | a writer exists exactly for chunk exponents 10 to 20 |
| SealedFiles.SealedFileWriter.SealChunk | crates/core/crypto/src/sealed_file.rs:195-214 | the buffer goes out under the next index |
| SealedFiles.SealedFileWriter.WritePlain | crates/core/crypto/src/sealed_file.rs:216-232 | the buffering loop keeps sink and buffer the image of everything written, however it is split |
| SealedFiles.SealedFileWriter.Finish | crates/core/crypto/src/sealed_file.rs:234-242 | the finished sink is the image of the whole plaintext, with its length and digest |
| SealedFiles.SealedFileReader.Open | crates/core/crypto/src/sealed_file.rs:318-375 | opening tries the candidate keys on the last chunk and caches nothing wrong |
| SealedFiles.SealedFileReader.LoadChunk | crates/core/crypto/src/sealed_file.rs:386-417 | the one-chunk cache never answers another chunk's plaintext |
| SealedFiles.SealedFileReader.ReadRange | crates/core/crypto/src/sealed_file.rs:421-438 | the loop returns exactly the plaintext slice, iff every chunk it covers opens |
| SealedFiles.SealedFileReader.Read | crates/core/crypto/src/sealed_file.rs:442-454 | the plaintext at the position, to the chunk's end at most, advancing by what it returns; errs iff that chunk does not open |
| SealedFiles.SealedFileReader.Seek | crates/core/crypto/src/sealed_file.rs:458-473 | the offset, the end or the position plus the delta, modulo 2^64; negative targets refused |
| SealedFiles.RunSession | crates/core/crypto/src/sealed_file.rs:421-473 | any interleaving of reads, seeks and range reads answers as on the plaintext itself |
| SealedFiles.SeekIsExactIff | crates/core/crypto/src/sealed_file.rs:458-473 | seeking is exact iff the target is below 2^64, for every offset and signed 64-bit delta |
| SealedFiles.SeekWraps | crates/core/crypto/src/sealed_file.rs:458-473 | in any file, seeking to the last 64-bit offset and one byte further lands at the start |
| SealedFileStores.SealFileInPlace | crates/core/crypto/src/sealed_file.rs:537-597 | whatever steps fail and whatever the disk makes of the copy, in the directory after every single write, removal and rename the path holds the original or a file that opens in full to a plaintext with its digest; errors leave the original; a disk that works gets the sealed form |
| SealedFileStores.VerifyCopy | crates/core/crypto/src/sealed_file.rs:570-580 | success means the file opens in full to a plaintext with the digest answered |
| SealedFileStores.ReadToEnd | crates/core/crypto/src/sealed_file.rs:442-454 | reading a whole file succeeds exactly when every chunk opens, and gives its plaintext |
| SealedFileStores.SealCopy | crates/core/crypto/src/sealed_file.rs:537-597 | the streamed copy is the sealed form of the whole file |
| SealedFileStores.CompactToSealedFile | crates/core/crypto/src/sealed_log.rs:435-471 | a readable log becomes the sealed form of its concatenated records; an unreadable one changes nothing; in the directory after every single operation the destination is as it was or the whole sealed form |
| SealedFileStores.CompactedLogOpens | crates/core/crypto/src/sealed_log.rs:435-471 | after any history the compacted file opens to the concatenated records |
| IdealAeads.RestrictedIsIdeal | crates/core/crypto/src/content.rs:248-280 | a lawful AEAD restricted to a set of sealings opens nothing else and opens those |
| IdealAeads.PrefixOfFileDoesNotOpen | crates/core/crypto/src/sealed_file.rs:318-375 | for any lawful AEAD under which nothing but the file was sealed, no strict prefix of the file opens |
| IdealAeads.ScanReturnsAPrefix | crates/core/crypto/src/sealed_log.rs:110-168 | for any lawful AEAD under which nothing but the log was sealed, whatever bytes follow the header, a scan returns a prefix of its records |
| IdealAeads.LawsCanBeMet | crates/core/crypto/src/content.rs:204-280 | there are functions that meet every law assumed |
| IdealAeads.CollisionsCanBeAbsent | crates/core/crypto/src/content.rs:204-280 | with a key derivation without collisions among them |
| IdealAeads.EmptyRetiredLogIsTakenOver | crates/core/crypto/src/sealed_log.rs:170-212 | a concrete log created under a retired root and never written to: the current root takes it over |
| IdealAeads.WrittenRetiredLogIsRefused | crates/core/crypto/src/sealed_log.rs:331-367 | the same with one record: recovered and flagged, refused for appending |
| KeySlots.CandidatesShow | crates/core/crypto/src/custody.rs:545-565 | some candidate has a check value exactly when a live slot or a loadable vault entry shows it |
| KeySlots.LiveFinds | crates/core/crypto/src/custody.rs:940-950 | the recorded key is found exactly when a live slot shows it |
| KeySlots.FoundInOrder | crates/core/crypto/src/custody.rs:545-565 | a check value is found in the first place that shows it: environment, keychain, key file, legacy file, vault |
| KeySlots.ConservedStep | crates/core/crypto/src/custody.rs:955-1024 | a write that keeps what was kept extends a conserved history |
| KeySlots.ConservedHeld | crates/core/crypto/src/custody.rs:384-415 | a conserved key is in a live slot, or in a vault entry backed by the key it names |
| KeyFolders.KeyFolder.StoreRetired | crates/core/crypto/src/custody.rs:418-448 | success means the key can be read back from where its entry will say |
| KeyFolders.KeyFolder.Retire | crates/core/crypto/src/custody.rs:418-456 | one entry per check value, at most four, full exactly then and before any write; a key newly retired can be read back; nothing held is lost |
| KeyFolders.KeyFolder.RetireMatchingLegacy | crates/core/crypto/src/lib.rs:1357-1377 | the legacy file goes only while the keychain shows the same key |
| KeyFolders.KeyFolder.PublishMaster | crates/core/crypto/src/lib.rs:1011-1050 | an existing key file is never replaced; the answer is what the file holds |
| KeyFolders.KeyFolder.SeedKey | crates/core/crypto/src/lib.rs:1254-1275 | the key file's key if allowed, else the legacy one, else a new one; with evidence of sealed data it is one already in a slot |
| KeyFolders.KeyFolder.Seed | crates/core/crypto/src/lib.rs:1276-1325 | an empty keychain is seeded and read back, else the key file serves; no slot gains a key no slot held |
| KeyFolders.KeyFolder.LadderFile | crates/core/crypto/src/lib.rs:1327-1349 | the file branch never generates a key when there is evidence |
| KeyFolders.KeyFolder.Ladder | crates/core/crypto/src/lib.rs:1228-1349 | the answer is the first of environment, keychain, key file (if allowed) and legacy file, a new key only when none of them holds one and there is no evidence; it refuses exactly when the slots make it, unless a write fails; the key stands where the source says, and nothing but it moves |
| KeyFolders.KeyFolder.ResolveRecorded | crates/core/crypto/src/custody.rs:594-680 | succeeds exactly when a candidate shows the recorded key and the environment names no stranger; health and source name the ladder or the first place that shows the key; it offers exactly the loadable retired keys and the ladder's mismatched key, which is retired and readable afterwards if there is room |
| KeyFolders.KeyFolder.ResolveUnrecorded | crates/core/crypto/src/custody.rs:681-745 | records the key that passes the probe, refuses exactly when none does; health, source and retired keys exactly; the key that failed the probe is retired and offered |
| KeyFolders.KeyFolder.Resolve | crates/core/crypto/src/custody.rs:568-746 | with a recorded check value: that key or an error, the record kept, no new key in any slot at any write; the exact success condition; health, source and retired keys exactly; a mismatched key of the folder is kept |
| KeyFolders.KeyFolder.CollectRetired | crates/core/crypto/src/custody.rs:964-986 | persistent, recorded and given keys, each once, never the new one |
| KeyFolders.KeyFolder.RetireAll | crates/core/crypto/src/custody.rs:994-997 | a list that fits is retired without the vault overflowing |
| KeyFolders.KeyFolder.StoreCurrent | crates/core/crypto/src/custody.rs:998-1014 | the key ends where its custody says, read back, and is then recorded |
| KeyFolders.KeyFolder.InstallCurrent | crates/core/crypto/src/custody.rs:955-1024 | overflow refused exactly, before any write; recorded keys conserved at every write when in sight; after a success the recorded key is held iff, before the call, it was in sight, or the keychain item held it and the write of the new key has no effect |
| KeyFolders.KeyFolder.AdoptWith | crates/core/crypto/src/custody.rs:1026-1051 | installs the named candidate; no candidate and the probe refusal exactly; conservation; whether the recorded key survives, exactly and from the state before |
| KeyFolders.KeyFolder.ImportWith | crates/core/crypto/src/custody.rs:1156-1201 | a stranded environment key refuses first, exactly; a key already current changes no live slot |
| KeyFolders.KeyFolder.RetireWith | crates/core/crypto/src/custody.rs:1075-1100 | the current key is refused; a key file goes only when the vault can load its key |
| KeyFolders.KeyFolder.AdoptThenResolve | crates/core/crypto/src/custody.rs:1060-1073 | the next resolution answers the adopted key iff the environment names no stranger |
| CustodyRuns.StartsConserved | crates/core/crypto/src/custody.rs:928-950 | a folder is conserved at first iff it holds what it records |
| CustodyRuns.ReadableIsInSight | crates/core/crypto/src/custody.rs:971-979 | while the keychain can be read, every held recorded key is in sight |
| CustodyRuns.RunAll | crates/core/crypto/src/custody.rs:955-1024 | over every run of operations, at every write, every key ever recorded is held, if each install began with it in sight |
| CustodyRuns.LockedKeychainLosesKey | crates/core/crypto/src/custody.rs:998-1003 | a run in which a locked keychain makes adoption succeed and lose the recorded key |
| KeyPublish.AllAgree | crates/core/crypto/src/lib.rs:1011-1050 | over every schedule of N processes, all that finish hold the file's key, which never changes once there and was chosen by one of them |
| KeyPublish.ThreeStepsFinish | crates/core/crypto/src/lib.rs:1327-1349 | without I/O failures or a garbled file, three own steps finish any process, among any others' |
| VectorPartitions.Partition.Upsert | crates/core/crypto/src/vector_index.rs:63-76 | insert or replace, with positions the exact inverse of ids and the size change returned |
| VectorPartitions.Partition.Remove | crates/core/crypto/src/vector_index.rs:78-90 | swap-remove at the id's position, positions and size kept exact |
| VectorPartitions.UpsertKeeps | crates/core/crypto/src/vector_index.rs:63-76 | afterwards the id has the new vector and every other id its own |
| VectorPartitions.UpsertedAllHolds | crates/core/crypto/src/vector_index.rs:291-328 | a hydrated partition holds for each id the last vector given |
| VectorPartitions.SwapRemoveKeeps | crates/core/crypto/src/vector_index.rs:78-90 | afterwards the id is gone and every other id keeps its vector |
| VectorBudgets.LruOneMore | crates/core/crypto/src/vector_index.rs:186-213 | evicting the least recently used survivor keeps evictions least-recent and needed |
| VectorBudgets.VectorBudget.LeastRecentlyUsed | crates/core/crypto/src/vector_index.rs:188-193 | the survivor used longest ago, never the kept one |
| VectorBudgets.VectorBudget.MakeRoom | crates/core/crypto/src/vector_index.rs:186-213 | evicts exactly least-recently-used partitions, no more than needed, and says whether it fits; otherwise only the kept one is left |
| VectorBudgets.VectorBudget.NewIndex | crates/core/crypto/src/vector_index.rs:266-276 | a fresh id, no index's data changed |
| VectorBudgets.VectorBudget.Hydrate | crates/core/crypto/src/vector_index.rs:291-328 | refused exactly when larger than the whole budget; otherwise it always fits and the budget holds; evictions, marks and totals exactly |
| VectorBudgets.VectorBudget.Upsert | crates/core/crypto/src/vector_index.rs:355-375 | a no-op unless hydrated; afterwards within budget or only this partition is left; evictions, marks and totals exactly |
| VectorBudgets.VectorBudget.Remove | crates/core/crypto/src/vector_index.rs:378-394 | one vector swap-removed, account and total follow |
| VectorBudgets.VectorBudget.DropPartition | crates/core/crypto/src/vector_index.rs:397-407 | partition, total and eviction mark gone, the rest untouched |
| VectorBudgets.VectorBudget.SetPartitionTotal | crates/core/crypto/src/vector_index.rs:332-341 | one total set, nothing else |
| VectorBudgets.VectorBudget.Search | crates/core/crypto/src/vector_index.rs:411-436 | the best k of the candidates in scope, the partition made most recently used; none when not hydrated |
| VectorBudgets.RankedIs | crates/core/crypto/src/vector_index.rs:462-490 | the candidates are exactly the vectors of the query's length that the scope accepts, each once with its score |
| VectorBudgets.VectorBudget.Coverage | crates/core/crypto/src/vector_index.rs:439-459 | hydrated is the sum over the index's partitions, total at least that, evictions counted |
| TopKs.DescendingUnique | crates/core/crypto/src/vector_index.rs:492-494 | there is one descending order of scores |
| TopKs.KeptAreBest | crates/core/crypto/src/vector_index.rs:544-576 | if nothing left out beats what is kept, the kept scores in order are the k best |
| TopKs.TopOf | crates/core/crypto/src/vector_index.rs:462-500 | select, truncate and sort gives the best k scores of the list, from the list |
| TopKs.TopK.Accepts | crates/core/crypto/src/vector_index.rs:544-553 | exactly when there is room or the score beats a kept one |
| TopKs.TopK.Push | crates/core/crypto/src/vector_index.rs:556-564 | kept and dropped make up what was offered, and nothing dropped beats anything kept |
| TopKs.TopK.IntoSorted | crates/core/crypto/src/vector_index.rs:567-576 | the best k scores of everything offered, in descending order |
| TopKs.StreamAgreesWithList | crates/core/crypto/src/vector_index.rs:462-576 | the bounded heap and ranking the whole list give the same score sequence |
| Recency.NewestMeans | backend/src/store.rs:1213-1227 | the kept rows are as many as allowed, each later by time and id than each dropped one |
| Recency.NewestAreNewer | backend/src/store.rs:1213-1227 | later means a later time, or the same time and a greater id |
| Recency.NewestIff | backend/src/store.rs:1213-1227 | a row is kept iff fewer rows than allowed are later |
| Recency.KeepNewest | backend/src/store.rs:1213-1227 | the newest rows, computed |
| RoomEvents.EventKeepsRuns | backend/src/store.rs:646-988 | every committed statement keeps: one active run per room, in a running or closed room; bounded text; unique idempotency keys |
| RoomEvents.ActiveRunsStay | backend/src/store.rs:1213-1219 | no statement deletes an active run, trimming included |
| RoomEvents.EventEvolves | backend/src/store.rs:824-948 | closed stays closed; terminal runs never change; deleted runs never return; text only grows |
| RoomGuests.EventKeepsGuests | backend/src/store.rs:443-545 | every committed statement keeps at most eight live participants |
| RoomGuests.EventKeepsSessions | backend/src/store.rs:443-593 | every committed statement keeps unrevoked sessions minted from the present invite |
| RoomGuests.AlwaysOk | backend/src/store.rs:443-988 | all of that at every committed state of every run of operations, crashes and restarts |
| RoomGuests.HistoryEvolves | backend/src/store.rs:824-988 | between any two moments of any run: closed is absorbing, terminal runs immutable, text monotone |
| RoomStores.RoomStore.CreateRoom | backend/src/store.rs:347-387 | one transaction: room, invite for ten minutes, host, nothing else; then a read, whose failure is answered although the room is there; on a disk that works, a database error only for an id in use |
| RoomStores.RoomStore.LiveParticipants | backend/src/store.rs:500-523 | the scan collects exactly the host and the participants with a session neither revoked nor over |
| RoomStores.RoomStore.ExchangeInvite | backend/src/store.rs:443-545 | a guest and a session of twelve hours for the room of an unrevoked, unexpired invite, nothing else, one transaction; refusals change nothing; on a disk that works, a database error only for an id in use |
| RoomStores.RoomStore.IssueInvite | backend/src/store.rs:550-593 | afterwards the room has a new invite for ten minutes, its guests and their sessions are gone, nothing else changed; a database error only on a disk that fails |
| RoomStores.RoomStore.ResolveSession | backend/src/store.rs:595-644 | accepts exactly unrevoked, unexpired sessions whose name opens; each is of the room's present invite; the room is open and that invite unrevoked iff every closing and revoking in its past was made good |
| RoomStores.RoomStore.AppendUserTurn | backend/src/store.rs:646-766 | a new run only in an idle open room, stored with the user's trimmed message and nothing else changed; a repeated key answers its run, same text only, and changes nothing; on a disk that works a turn the checks let through is taken, and answered iff its message is among the newest 40 |
| RoomStores.RoomStore.AppendDelta | backend/src/store.rs:791-821 | extends a running run's text, then a second statement: an error may come with the delta stored; not found and too long exactly |
| RoomStores.RoomStore.FinishRun | backend/src/store.rs:824-881 | ends an active run once, in one transaction: its row, its room, its answer as a message, nothing else but trimmed rows; an ended run stays; an error after the commit leaves it ended; on a disk that works, no database error unless the message id is in use |
| RoomStores.RoomStore.StopRun | backend/src/store.rs:883-902 | two statements, the first of which may be all that happens; done, the run is canceled and the room idle, nothing else changed; a database error only on a disk that fails |
| RoomStores.RoomStore.CloseRoom | backend/src/store.rs:904-926 | four statements, some first part of which may be all that happens; done, the room is closed, its invite and sessions revoked, its participants offline, nothing else changed |
| RoomStores.RoomStore.RevokeInvite | backend/src/store.rs:928-948 | three statements, some first part of which may be all that happens; done, the invite is revoked and the guests and their sessions are gone, nothing else changed; a revoked invite answers not found |
| RoomStores.RoomStore.RecoverRunning | backend/src/store.rs:950-988 | interrupted runs fail, and are counted, running rooms fail, nothing else changes; done, a non-closed room is running iff it has an active run; it is done on a disk that works |
| RoomHistories.TextIsStreamed | backend/src/store.rs:791-821 | over every history a run's text is its accepted deltas joined, at most 32000 characters |
| RoomHistories.AnswersAreCompletions | backend/src/store.rs:846-860 | an assistant message appears only when a run completes with text: one, with that text |
| RoomHistories.FinishRetainsNewestRuns | backend/src/store.rs:1213-1219 | after a finish exactly the newest 100 runs of the room are left |
| RoomHistories.FinishRetainsNewestMessages | backend/src/store.rs:1221-1227 | after a finish exactly the newest 40 messages, the answer included iff the run completed with text |
| RoomHistories.FinishSparesOthers | backend/src/store.rs:1213-1227 | no active run and no other room's row is deleted |
| RoomSessions.OrphanStaysAlong | backend/src/store.rs:904-948 | a live session of a closed room with a revoked invite survives every event that does not name its room's guests |
| RoomHistories.InterruptedCloseLeavesSession | backend/src/store.rs:904-926 | after a crash in a closing, past its second statement, no sequence of operations revokes the session |
| RoomHistories.RevokeIfPossible | backend/src/store.rs:904-948 | an operation can still revoke a session iff its room is open or its invite unrevoked |
| RoomSessions.SettledIff | backend/src/store.rs:904-948 | after any run, crashes and restarts included, no session contradicts its room or invite iff every closing and revoking that found a session was followed by an event that revokes or deletes the room's guests |
| RoomSessions.SettledFromNothingIff | backend/src/store.rs:904-948 | in particular from an empty database |
| RoomSessions.CutClosingSettlesIff | backend/src/store.rs:904-926 | a closing cut after some of its statements leaves the room settled iff none or three were committed or there was no session |
| RoomSessions.CutRevokingSettlesIff | backend/src/store.rs:928-948 | a revoking cut after some of its statements leaves the room settled iff it was not cut after the first or there was no session |
| RoomSessions.CutClosingOrphansIff | backend/src/store.rs:904-926 | a cut closing leaves a session nothing revokes any more iff it was cut after its second statement, or after its first with the invite revoked before |
| RoomSteadiness.SteadyIff | backend/src/store.rs:883-988 | after any run, crashes and restarts included, a room's status agrees with its runs iff every run that a stopping or a recovery ended was followed by the statement that sets the status, a new turn or the closing |
| RoomSteadiness.CutStoppingSteadyIff | backend/src/store.rs:883-902 | a stopping in an open room leaves it steady iff it is not cut after its first statement |
| RoomRuntimes.StepKeepsOwned | backend/src/inference.rs:120-143 | every step keeps each worker on an active run of an open room the owner of its room's entry |
| RoomRuntimes.OneWorkerPerRun | backend/src/inference.rs:120-143 | over every interleaving at most one worker works on an open room's active run |
| RoomRuntimes.StaleWorkerIsHarmless | backend/src/inference.rs:196-336 | a worker of an ended run changes nothing in the store |
| RoomRuntimes.TwoWorkersAfterClose | backend/src/inference.rs:105-118 | a schedule with two workers on one active run, its room closed |
| RoomRuntimes.TwoWorkersIff | backend/src/inference.rs:105-143 | over every schedule, two live workers share an active run iff both were started on it, the later one after a closing took out the entry of a live worker on it |
| RoomRuntimes.SharedMeansTakenOut | backend/src/inference.rs:105-118 | whenever two live workers share an active run, a closing has taken out the entry of a live worker on it |
| Generations.FailGeneration | backend/src/inference.rs:307-335 | ends the run as failed, with this code, at most once, never a run already ended; certainly, if nothing hinders it |
| Generations.RunGeneration | backend/src/inference.rs:145-305 | the worker commits the stream's deltas in order and ends its run at most once, whatever the store answers and at whichever check a cancellation is seen; it completes only a stream of its own deltas up to its own completion, all stored; if nothing hinders it and nobody cancels, it stores the deltas and completes or fails the run as the stream's fate asks |
| Generations.OneFate | backend/src/inference.rs:178-305 | a stream has one fate: the item at which it completes or fails, and why |
| Generations.SomeFate | backend/src/inference.rs:178-305 | every stream has one |
| SseStreams.StreamItems | crates/core/app-events/src/lib.rs:349-386 | the items depend only on the bytes received and a transport error, not on how they were chunked |
| SseStreams.DrainFrames | crates/core/app-events/src/lib.rs:362-379 | the drained buffer and items so far mean, with any later bytes, what all bytes mean |
| SseStreams.OneTerminalLast | crates/core/app-events/src/lib.rs:349-386 | exactly one item is terminal, the last |
| SseStreams.SentFramesDecode | crates/core/app-events/src/lib.rs:566-602 | frames sent with blank lines between are the frames decoded |
| SseStreams.FrameSays | crates/core/app-events/src/lib.rs:569-602 | a frame says what the first line that starts with `data:` says, trimmed, however lines end: nothing, completed for `[DONE]`, else by its JSON |
| SseStreams.FrameSaysNothing | crates/core/app-events/src/lib.rs:569-580 | a frame without such a line says nothing, one that is not UTF-8 is an error |
| ChunkedBodies.Dechunk | crates/core/sidecar-runtime/src/handoff.rs:336-356 | the loop computes the specified reading, error for error, a panic included, with overflow checks or without |
| ChunkedBodies.DechunkInverts | crates/core/sidecar-runtime/src/handoff.rs:336-356 | reading inverts the encoding of section 7.1 of RFC 9112 for every list of non-empty chunks, any data, size spelling, extensions and trailer |
| ChunkedBodies.UsualChunksReadBack | crates/core/sidecar-runtime/src/handoff.rs:336-356 | any non-empty parts, sent with sizes spelled as usual, read back joined |
| ChunkedBodies.TruncationIsAnError | crates/core/sidecar-runtime/src/handoff.rs:336-356 | every truncation before the end of the last size line is an error |
| ChunkedBodies.HugeSizePanics | crates/core/sidecar-runtime/src/handoff.rs:336-356 | a size within two of the largest makes the source panic, whatever follows; without overflow checks the largest with nothing after it is a truncated body |
| ChunkedBodies.PanicsIff | crates/core/sidecar-runtime/src/handoff.rs:336-356 | for all bytes: the reading panics iff it comes to a size line that overflows, every earlier chunk being whole |

## Left out

- ContentDbs.ContentDb.SealBatch: each batch is one step under the write lock, so the raced count stays zero; other connections' writes between batches are not modelled.
- ContentDbs.ContentDb.MigrateColumns: a failing step is one that fails before its transaction changes anything durable (a sealing, a statement, a commit); the busy timeout, SQL text and identifier checks of `select_sql` are not modelled; a table is its rows in key order.
- ContentDbs.ContentDb.RunPendingVacuum: free space and file sizes are given by oracles, the writes of its own state row do not fail, and the background compaction thread is not modelled.
- SealedLogs.SealedLogWriter.Append: a write takes a first part of the frame; fsync and its failure are not modelled.
- SealedFileStores.SealFileInPlace: permissions and fsync are not modelled; a read of the original gives its bytes; a failing write leaves arbitrary bytes in the copy, as one entry of the history.
- SealedFiles.SealedFileReader.Open: the inner reader is a byte string below 2^64 bytes and does not fail.
- KeyFolders.KeyFolder.Resolve: the custody name in the record, `retired_at` times and log messages are not modelled; an operation sees one process, and a keychain write leaves the old item or the new key, never another process's.
- KeyFolders.KeyFolder.PublishMaster: single process; the race is the subject of KeyPublish.
- KeyFolders.KeyFolder.InstallCurrent: a stray key in `master.key` that is neither recorded nor persistent may be overwritten; conservation is about recorded keys.
- CustodyRuns.RunAll: the environment key is the same through the run, and nobody else deletes or edits key files or keychain items.
- VectorBudgets.VectorBudget.Hydrate: operations are atomic; the tick taken before the lock and byte counts near the machine word's limit are not modelled.
- TopKs.TopOf: scores are integers under their order; f16 rounding and cosine arithmetic are not modelled. Equal scores may come in any order.
- RoomStores.RoomStore.FinishRun: callers pass a terminal status, as the worker does; sealed texts are kept as plaintext, and a text or prompt that does not open is not modelled.
- RoomStores.RoomStore.ExchangeInvite: ids and tokens are given; the clock does not run backwards, and run ids are never reused.
- RoomStores.RoomStore.CreateRoom: which share origins are valid is a given predicate, and the syntax of room ids is not modelled.
- RoomStores.RoomStore.StopRun: as in every operation of the store, a SELECT that fails before the first write, which changes nothing, is not modelled; what fails after a write is.
- RoomRuntimes.OneWorkerPerRun: liveness is not claimed; a running run may have no worker.
- Generations.RunGeneration: one worker alone with the store; interference is the subject of RoomRuntimes. A model that refuses the request, which fails the run before any look at the cancel channel, is not modelled.
- ChunkedBodies.Dechunk: `usize` has 64 bits; whether a build checks overflow is a parameter.
- SseStreams.StreamItems: reading a frame's JSON is a given function.
- HTTP routes, cookies, event broadcast, the user interface, network clients and field validation elsewhere in app-events.
- Blind indexes, notification rendering, app and process keys, secret files: smaller variants of what is here, or dependent on Unicode libraries.
- File permissions, fsync, logging and wall-clock accuracy.
