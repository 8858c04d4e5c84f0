# Verified models of the log, the request pipeline and the connection pool

Three parts of the server are modelled here, each down to the branch structure of the code, and each is proved against a
plain description of what it is for.

**The crash-recoverable log.** `Segment` writes a 32-byte header and then frames of 20 + len bytes; `Segment_recovery`
walks a file of arbitrary bytes, judges its end and builds a sparse index; `Commitlog` keeps 36-byte records and replays
them on open. Files are byte strings behind an object whose reads may fail, whose writes may be short or fail and whose
truncations may be refused (`FileIo`). CRC-32 is defined bit by bit, as section 8 of RFC 1952 has it; that this is the
remainder modulo the generator of the standard, and what it detects, is proved (`CrcRemainder`, `Crc32`). The read buffer of the scanner is modelled as the code reuses it: a tail of fewer than 12
bytes leaves bytes of an earlier read in the length field, and those bytes are a parameter (`stale`) of the model.

**The request pipeline.** `messagedecode`, `net::Connection`, `Epoll`, `Donequeue` and `ThreadPool` are objects whose
methods loop and update fields as the code does; the kernel behind them may split, shorten, refuse and interrupt at will.
Around them stands a step machine (`Pipeline`) with one loop thread, any number of workers and descriptors that are
reused; its invariant is proved for every interleaving (`PipelineProofs`), and every method of the loop object is proved
to be a run of it (`Epoll.AcceptRefines`, `DoneRefines`, `WriteRefines`, `ReadRefines`, `EventRefines`). It is never
stuck: from every reachable state it can go on to answer every request (`PipelineProgress`). The handler is an arbitrary
total function `h`. Whether responses come in the order of the requests depends on the number of workers, exactly as
`ResponseOrder` says.

**The connection pool.** Every locked region of `ConnectionPool` and the unlocked work between two of them is one step
of a machine (`PoolMachine`) in which any number of threads acquire, expand, ping, release and scan while guards are
moved and destroyed. The pool object and the guard object are proved to do what the steps do, the retry loop of `expand`
included (`PoolProofs.CreateRefines`), and acquire is proved to lend a connection whenever there is one or room for one
(`AcquireProofs`).

Where the code and its own words differ, the model follows the code: `check_frame` is documented to judge
length, offset, epoch, checksum and then size; the code looks at length, epoch, size, checksum and then offset
(`src/Segment.cpp:164` against `src/Segment.cpp:168-177`).

## What the proofs found

Six places where the code does not do what one would expect. Each is proved with the exact condition under which the
code is right.

- A crash that leaves 10 or 11 bytes of a frame with a payload of exactly 1 MiB can be judged `corrupt` instead of
  `torn_tail`, because the length field is completed from an older read (`RecoveryProofs.CrashCut`, with the condition
  `SegmentScan.Misjudged`; a concrete log in `RecoveryProofs.CrashCutMisjudged`). Payloads below 1 MiB are safe.
- `Segment::creat` writes base offset 0, and recovery takes a base offset of 0 for a bad header; a written header is
  judged bad exactly when its base offset is 0 (`RecoveryProofs.WrittenHeaderVerdict`, `CreatedSegmentIsHeadBad`).
- A writer that reopens a segment starts with epoch 0; a session that is in order by itself, but whose first epoch is
  below the last one on disk, makes the next scan report corruption, and only then (`SegmentWriter.ReopenedEpoch`; for
  any offsets and epochs `SegmentWriter.SessionVerdict`).
- `find_idx` keeps its candidate in an `int`; it is the linear search exactly when the entry it finds is the one looked
  for or survives that conversion (`AnchorIndex.FindIdxExact`, `FindIdxLosesLargeAnchors`).
- An append that returned false may still be recovered: with an empty payload the frame is all head, and if the second
  write fails and the truncation is refused, the head stays (`SegmentWriter.FailedAppendFound`). What the beginning of a
  frame leaves at the end of a file is found exactly if it is the whole frame, in its place
  (`SegmentWriter.LeftoverFound`), and without a refused truncation nothing is left.
- The server runs four workers (`src/Epoll.cpp:237`), so two requests of one client may be answered in the wrong order.
  Order is guaranteed exactly for at most one worker, unless the handler answers all requests alike
  (`ResponseOrder.OrderGuaranteed`), and for every client that waits for each answer (`ResponseOrder.OneAtATimeInOrder`).

## Files

| file | contents |
|---|---|
| `Bytes.dfy`, `Crc32.dfy`, `CrcRemainder.dfy` | big-endian fields; the checksum, its detection theorem, and what it is |
| `SegmentFormat.dfy`, `SegmentScan.dfy` | header and frames; the scan as a function, its soundness, maximality and crash cuts |
| `AnchorIndex.dfy` | the sparse index and its lookup |
| `FileIo.dfy`, `SegmentRecovery.dfy`, `RecoveryProofs.dfy`, `SegmentDamage.dfy` | the file; the scanner object; theorems about whole files; detection of damage |
| `SegmentWriter.dfy`, `CommitLog.dfy` | the two writers, their sessions, and replay |
| `Message.dfy`, `NetConnection.dfy`, `ThreadPool.dfy`, `Donequeue.dfy`, `Epoll.dfy` | the decoder, the connection, the two queues, the loop object |
| `Pipeline.dfy`, `PipelineProofs.dfy`, `PipelineProgress.dfy`, `ResponseOrder.dfy` | the server as a step machine, its invariant, its progress, and the order of responses |
| `ConnectionPool.dfy`, `PoolMachine.dfy`, `PoolProofs.dfy`, `AcquireProofs.dfy`, `ConnectionGuard.dfy` | the pool, the machine, its invariant, what acquire achieves, the guard |

## Model

| member | source | states |
|---|---|---|
| `Bytes.U32RoundTrip` | src/Segment.cpp:51-73 | a 32-bit field reads back as the value written, wherever it lies |
| `Bytes.U64RoundTrip` | src/Segment.cpp:58-83 | the same for 64-bit fields |
| `Bytes.U64Injective` | src/Segment.cpp:58-67 | the eight bytes of a field are determined by the value read |
| `Bytes.BigEndian` | src/Segment.cpp:68-83 | the bytes of a written number are its digits to base 256, the most significant first |
| `Crc32.CrcChain` | src/Segment.cpp:173-175 | computing the checksum in two calls is computing it over the concatenation |
| `Crc32.UpdateInjective` | src/Segment.cpp:103-105 | different registers stay different over the same data |
| `Crc32.UpdateQuadInjective` | src/Segment.cpp:103-105 | from one register, four different bytes lead to different registers |
| `Crc32.BurstDetected` | src/Segment.cpp:173-176 | strings that differ only within four consecutive bytes have different checksums |
| `Crc32.SealBroken` | src/Segment.cpp:113-115 | one changed byte, in data or in the checksum stored behind it, makes the two disagree |
| `CrcRemainder.ChecksumIsRemainder` | src/Segment.cpp:103-105 | the checksum, complemented and read with its low bit as the highest power, is the one remainder that the message, moved up by 32 places and its first 32 bits complemented, leaves modulo the generator with the powers 32, 26, 23, 22, 16, 12, 11, 10, 8, 7, 5, 4, 2, 1, 0 |
| `CrcRemainder.BitStepTimesX` | src/Segment.cpp:103-105 | one step of the register is multiplication by x modulo that generator |
| `SegmentFormat.FrameRoundTrip` | src/Segment.cpp:97-107 | a written frame reads back as the frame written |
| `SegmentFormat.FrameRewritten` | src/Segment.cpp:97-107 | bytes that pass as a frame are exactly what the writer writes for it |
| `SegmentFormat.FrameBytesParts` | src/Segment.cpp:97-107 | what stands where in a written frame: offset, length, epoch, the checksum over length, epoch and payload, and the payload |
| `SegmentFormat.CheckFrameValid` | src/Segment.cpp:166-180 | the test says valid iff a whole frame with the expected offset, an epoch that does not go back and a matching checksum is there; what the checksum is, `CrcRemainder.ChecksumIsRemainder` says |
| `SegmentFormat.CheckFrameAccepts` | src/Segment.cpp:166-180 | equivalently, iff the bytes are the writer's bytes for some frame that belongs there |
| `SegmentFormat.CheckFrameLocal` | src/Segment_recovery.cpp:67 | the test on the read buffer is the test on the file |
| `SegmentFormat.CheckFrameSymptoms` | src/Segment.cpp:166-180 | for each way of being torn or corrupt, exactly which bytes lead to it: length, then epoch, then size, then checksum, then offset |
| `SegmentFormat.CheckFrameTorn` | src/Segment.cpp:170-172 | the beginning of a written frame is torn, with the bytes that are there and its epoch, unless that epoch goes back |
| `SegmentFormat.HeaderAccepted` | src/Segment.cpp:85-94 | a written header passes the header test |
| `SegmentFormat.HeaderBase` | src/Segment_recovery.cpp:2-9 | and yields the base offset it was written with |
| `SegmentFormat.HeaderParts` | src/Segment.cpp:85-94 | what stands where in a written header: the letters PLOGSEGV, version 1, base offset, time and checksum |
| `SegmentScan.TurnAccepts` | src/Segment_recovery.cpp:56-77 | one turn of the loop accepts f iff the file continues with f in its place |
| `SegmentScan.ScanTakes` | src/Segment_recovery.cpp:55-82 | the scan takes every legal log on disk and goes on behind it |
| `SegmentScan.ScanSound` | src/Segment_recovery.cpp:55-82 | on arbitrary bytes, what is accepted is a legal log on disk, and clean iff it covers the file |
| `SegmentScan.ScanStops` | src/Segment_recovery.cpp:55-82 | where the scan ends early, the loop cannot take another frame there |
| `SegmentScan.ScanLongest` | src/Segment_recovery.cpp:55-82 | every legal log on disk is a prefix of what the scan accepts |
| `SegmentScan.DecompositionUnique` | src/Segment_recovery.cpp:55-82 | a range of bytes is at most one sequence of frames |
| `SegmentScan.WholeFramesGreatest` | src/Segment_recovery.cpp:66-80 | the frames that survive a cut end at the greatest boundary within it |
| `SegmentScan.CutScan` | src/Segment_recovery.cpp:55-82 | the scan of a cut log: exactly the whole frames, and which end it reports |
| `SegmentScan.MixedLength` | src/Segment_recovery.cpp:59-65 | when a length field mixed from two reads exceeds the limit, exactly |
| `AnchorIndex.AnchorsAreStarts` | src/Segment_recovery.cpp:72-73 | every anchor is the offset of the first byte of a frame |
| `AnchorIndex.AnchorsIncrease` | src/Segment_recovery.cpp:72-73 | anchors increase strictly |
| `AnchorIndex.AnchorNearby` | src/Segment_recovery.cpp:72-73 | from any frame, fewer than the interval of frames and 1 MiB + 64 KiB + 20 bytes back there is an anchor or the first frame |
| `AnchorIndex.AnchorLaw` | src/Segment_recovery.cpp:68-76 | which frames the index holds: frame k iff, counted from the anchored frame before it, it is the interval-th or the frames since then come to 64 KiB |
| `AnchorIndex.ShortLogUnanchored` | src/Segment_recovery.cpp:68-76 | a log short of both quotas leaves no anchor |
| `AnchorIndex.FindIdxExact` | src/Segment_recovery.cpp:25-45 | the search is the greatest anchor not above the target iff that one equals the target or survives the way through an int |
| `AnchorIndex.FindIdxWrapped` | src/Segment_recovery.cpp:25-45 | what the search answers for an entry below its target: its low 32 bits with their sign, and 0 for all ones |
| `AnchorIndex.FindIdxLosesLargeAnchors` | src/Segment_recovery.cpp:28-41 | an anchor at 2 GiB for which it does not |
| `AnchorIndex.LinearFindMeaning` | src/Segment_recovery.cpp:25-45 | the linear search is the greatest anchor not above the target, 0 if there is none |
| `AnchorIndex.LookupIsClose` | src/Segment_recovery.cpp:25-45 | for the linear search, a scan from the anchor found reaches the frame of the target within that distance |
| `AnchorIndex.FindIdxIsClose` | src/Segment_recovery.cpp:25-45 | end to end for what find_idx returns, with anchors below 2^31 |
| `Recovery.SegmentRecovery.constructor` | src/Segment_recovery.cpp:10-14 | a new scanner stands at 32 with epoch 0 and an empty index |
| `Recovery.SegmentRecovery.ReadSegment32` | src/Segment_recovery.cpp:2-9 | the base offset of an accepted header, 0 otherwise |
| `Recovery.SegmentRecovery.ServerIdx` | src/Segment_recovery.cpp:22-24 | one more anchor |
| `Recovery.SegmentRecovery.TruncateSegment` | src/Segment_recovery.cpp:19-21 | the file is cut, or the refusal counted and the file untouched |
| `Recovery.SegmentRecovery.SegmentScanner` | src/Segment_recovery.cpp:46-84 | the loop over the reused buffer yields the verdict, position, epoch and index of the scan function; the index is the sparse one of `AnchorIndex.AnchorLaw` |
| `Recovery.SegmentRecovery.FindIdx` | src/Segment_recovery.cpp:25-45 | the binary search returns what the linear one finds, passed through an int |
| `RecoveryProofs.CrashCut` | src/Segment_recovery.cpp:46-84 | a legal segment cut at any length with a whole frame left: where the scan ends, with what epoch, clean iff at a boundary, corrupt iff the length is misjudged |
| `RecoveryProofs.CrashCutNeverCorrupt` | src/Segment_recovery.cpp:59-65 | with payloads below 1 MiB a crash is never called corrupt |
| `RecoveryProofs.CrashInFirstFrame` | src/Segment_recovery.cpp:58-65 | a cut in the first frame: torn, or decided by the uninitialised buffer if fewer than 12 bytes are left |
| `RecoveryProofs.CrashInHeader` | src/Segment_recovery.cpp:4-54 | a cut in the header is a bad head |
| `RecoveryProofs.CrashCutMisjudged` | src/Segment_recovery.cpp:58-63 | a log and a cut that are called corrupt |
| `RecoveryProofs.WrittenHeaderVerdict` | src/Segment_recovery.cpp:47-54 | a written header is judged bad iff its base offset is 0, whatever follows it |
| `RecoveryProofs.CreatedSegmentIsHeadBad` | src/Segment.cpp:120-131 | a segment written by creat has a bad head, whatever is appended to it: nothing is recovered |
| `RecoveryProofs.VerdictSound` | src/Segment_recovery.cpp:46-84 | for every file with an accepted header: it is not judged a bad head, the valid part is the one and longest legal log, and clean means the whole file |
| `RecoveryProofs.RecoveryIdempotent` | src/Segment_recovery.cpp:19-84 | truncate and scan again: clean, same end, same epoch, same anchors |
| `RecoveryProofs.WrittenFramesSurvive` | src/Segment_recovery.cpp:46-84 | frames on disk are found after every later crash, whatever follows them |
| `SegmentDamage.DamageDetected` | src/Segment.cpp:166-180 | damage to a frame is reported as corruption right behind the preceding frame, with what gave it away |
| `SegmentDamage.SingleByteDetectable` | src/Segment.cpp:166-180 | any changed byte outside the length field is such damage |
| `SegmentDamage.PayloadBurstDetectable` | src/Segment.cpp:173-176 | so is any change within four consecutive payload bytes |
| `SegmentDamage.SingleByteDetected` | src/Segment_recovery.cpp:67-68 | the theorem for whole segments: one changed byte in any frame, corrupt at that frame |
| `SegmentDamage.HeaderByteDetected` | src/Segment.cpp:109-119 | one changed byte in an accepted header, of any file, leaves a bad head |
| `SegmentWriter.Segment.constructor` | include/Segment.h:44-50 | a new writer has no file, base offset 0 and epoch 0 |
| `SegmentWriter.Segment.WriteLen` | src/Segment.cpp:17-42 | all bytes at offset iff the write was whole; otherwise offset and everything below it as before |
| `SegmentWriter.Segment.Creat` | src/Segment.cpp:120-131 | succeeds iff the file was opened, the write was whole and both syncs worked; then the file is exactly a header |
| `SegmentWriter.Segment.OpenAppend` | src/Segment.cpp:132-146 | succeeds on a healthy file iff its header is good; continues at the end of the file and keeps its own epoch |
| `SegmentWriter.Segment.Append` | src/Segment.cpp:147-160 | succeeds iff the file is open, the frame is acceptable and both writes were whole; whatever they do, below offset lie what was there and the frames of the successful appends; a failure leaves at most the beginning of the frame behind offset, all of it only for an empty payload |
| `SegmentWriter.Segment.WriteFrame` | src/Segment.cpp:153-159 | the two writes: both, or the first is taken back |
| `SegmentWriter.DisciplineKept` | src/Segment.cpp:147-153 | which offset and epoch a caller must give so that the log stays legal, exactly |
| `SegmentWriter.SessionSurvives` | src/Segment.cpp:147-160 | after any session and any crash that keeps the bytes below offset, recovery finds every frame; at offset it is clean and finds exactly those |
| `SegmentWriter.SessionVerdict` | src/Segment.cpp:147-160 | whatever offsets and epochs a session was given: recovery finds exactly the frames in front of the first one out of place and says whether its epoch or its offset was wrong; clean iff none is |
| `SegmentWriter.TurnOnWritten` | src/Segment.cpp:166-180 | a written frame is accepted iff it is in its place, else its epoch or its offset is reported, in this order |
| `SegmentWriter.LeftoverFound` | src/Segment.cpp:153-159 | of the beginning of a frame at the end of a file, recovery finds something iff it is the whole frame and in its place |
| `SegmentWriter.FailedAppendFound` | src/Segment.cpp:153-159 | the head that a failed append with an empty payload may leave is recovered as a frame |
| `SegmentWriter.ReopenedEpoch` | src/Segment.cpp:132-152 | the frames of a session after reopening are found iff its first epoch is not below the last on disk; otherwise corrupt from the first of them on |
| `CommitLog.EntryRoundTrip` | src/Commit_log.cpp:100-110 | a record reads back as the entry written |
| `CommitLog.EntryParts` | src/Commit_log.cpp:100-110 | what stands where in a written record |
| `CommitLog.LegalNeighbours` | src/Commit_log.cpp:76-95 | the rule of the log between neighbours: a batch stays and its state does not go back, or its number goes up by one; states are at most 2; the first batch is 0 or 1 |
| `CommitLog.BatchesInOrder` | src/Commit_log.cpp:76-95 | in a legal log batches never go back and rise by at most one per record, and within a batch the state never goes back |
| `CommitLog.CreditHwIsMaximum` | src/Commit_log.cpp:81-91 | the credited mark is the maximum candidate among records with state at least 1 |
| `CommitLog.CreditHwMonotone` | src/Commit_log.cpp:81-91 | it never goes down while the log grows |
| `CommitLog.ReplayExact` | src/Commit_log.cpp:59-97 | of the whole records in the file, replay accepts the longest beginning of k records with good checksums that obeys the batch and state rule; last batch and epoch are those of record k in the file, the mark is what the k records credit; it succeeds iff they are all, and otherwise flags corruption and stops in front of a bad checksum or behind the record that breaks the rule |
| `CommitLog.SessionReplay` | src/Commit_log.cpp:45-116 | after any session and a cut at any length L, replay succeeds with exactly the first L / 36 entries |
| `CommitLog.RecordByteDetected` | src/Commit_log.cpp:66-75 | one changed byte in any record makes replay fail right there, having summed up exactly the records in front of it |
| `CommitLog.Commitlog.constructor` | src/Commit_log.cpp:6-9 | a new log has no file and stands at 0 |
| `CommitLog.Commitlog.OpenOrCreate` | src/Commit_log.cpp:45-99 | the loop is replay, also where it refuses a record (`CommitLog.ReplayExact` says what it then reports), and the file continues behind the last whole record |
| `CommitLog.Commitlog.Append` | src/Commit_log.cpp:100-116 | one record more iff the write was whole, else the same records; less than one record of rubbish even if truncation fails; also behind an open that reported corruption, the record is laid over what is behind offset |
| `Message.ParseAppend` | src/Message.cpp:11-51 | the messages of two pieces are those of the first and then those of its rest with the second: chunking does not matter |
| `Message.RestIsUnfinished` | src/Message.cpp:26-40 | what is left is bounded and holds no message and no bad head; nothing is left of a broken stream |
| `Message.MessageLimit` | src/Message.cpp:29-40 | a message of 1 MiB is a message, and a header that announces more breaks the stream |
| `Message.EncodedBack` | src/Message.cpp:2-51 | encoding the messages that were decoded and adding the rest gives the stream back; a broken stream has its bad header right behind them |
| `Message.ParseEncoded` | src/Message.cpp:2-10 | decoding an encoding returns the messages |
| `Message.ParseOfPrefix` | src/Message.cpp:2-51 | decoding any prefix of an encoding yields a prefix of the messages and is never broken |
| `Message.MessageDecode.constructor` | include/Message.h:17-20 | a new decoder has seen nothing |
| `Message.MessageDecode.Feed` | src/Message.cpp:11-51 | under every split into calls, the messages and the broken flag are those of the reference parser on everything fed |
| `Message.MessageDecode.Take` | src/Message.cpp:52-57 | hands out the waiting messages once |
| `Message.MessageDecode.BrokenMessage` | src/Message.cpp:58-61 | the broken flag |
| `Message.MessageDecode.Compact` | src/Message.cpp:18-25 | compaction drops the consumed bytes and nothing else |
| `Message.MessageDecode.Bounds` | src/Message.cpp:18-48 | idx stays within 512 KiB and the buffer within 512 KiB + 3 + 1 MiB |
| `Message.MessageDecode.CompactionIsCheap` | src/Message.cpp:18-25 | over any run with chunks of at most 64 KiB, compaction copies fewer than three times the bytes fed |
| `NetConnection.SendKeeps` | src/net/Connection.cpp:88-112 | whatever the kernel takes, sent and pending bytes are the responses in order; write interest is armed iff bytes are pending, read interest until the end of input and then not while nothing is pending |
| `NetConnection.WriteKeeps` | src/net/Connection.cpp:58-87 | the same for draining the buffer; a connection closed as finished has sent everything |
| `NetConnection.EofKeeps` | src/net/Connection.cpp:32-50 | the end of input keeps order and interest |
| `NetConnection.ClientReads` | src/net/Connection.cpp:58-112 | a client decodes a prefix of the accepted responses, all of them once nothing is pending |
| `NetConnection.Connection.constructor` | src/net/Connection.cpp:2-5 | a new connection |
| `NetConnection.Connection.SendData` | src/net/Connection.cpp:88-112 | direct send, queueing, retry and failure satisfy the send relation; it fails iff the kernel reports an error other than not ready or interrupted, and queues behind an empty buffer only what the kernel refused |
| `NetConnection.Connection.HandWrite` | src/net/Connection.cpp:58-87 | the write loop leaves only through a return, satisfies the write relation, goes on until nothing is pending or the kernel refuses, and asks for closing iff sending failed or everything is done |
| `NetConnection.Connection.SubmitAll` | src/net/Connection.cpp:20-28 | every decoded message is counted and becomes one job, in order |
| `NetConnection.Connection.ReadOnce` | src/net/Connection.cpp:11-55 | one turn of the read loop, and which of dry, end of input, bad header and failure ended it |
| `NetConnection.Connection.AtEof` | src/net/Connection.cpp:32-50 | the branch for the end of input: kept iff something is pending or in flight, and then the end of input is remembered and nothing more is read |
| `NetConnection.Connection.HandReadable` | src/net/Connection.cpp:9-57 | every message received whole is submitted once and in order; the read loop ends dry, at the end of input, at a bad header or with a failure, and that decides whether the connection is kept and as what; at the end of input it is kept iff something is pending or in flight, remembers it and reads no more |
| `ThreadPool.ThreadPool.Submit` | src/ThreadPool.cpp:39-48 | one job more at the end of the queue, or none when stopping |
| `ThreadPool.ThreadPool.TakeTask` | src/ThreadPool.cpp:14-21 | leaves when stopping, else takes the oldest |
| `Donequeue.Donequeue.Enqueue` | src/Donequeue.cpp:2-7 | one response more at the end |
| `Donequeue.Donequeue.Ring` | src/Donequeue.cpp:8-12 | the counter rises or stays at its maximum |
| `Donequeue.Donequeue.ReadCounter` | src/Epoll.cpp:54-55 | the counter is reset |
| `Donequeue.Donequeue.Drain` | src/Donequeue.cpp:14-17 | hands out everything queued, in order |
| `Epoll.Epoll.constructor` | src/Epoll.cpp:237-247 | no connections, no ids given out |
| `Epoll.Epoll.OnAccept` | src/Epoll.cpp:11-46 | every accepted descriptor gets a fresh connection with the next id; the others are untouched |
| `Epoll.Epoll.OnClose` | src/Epoll.cpp:47-52 | exactly that connection is gone |
| `Epoll.Epoll.Deliver` | src/Epoll.cpp:57-70 | a response reaches the connection with its descriptor and id, or nobody; that connection is closed iff sending failed or everything is done |
| `Epoll.Epoll.OnDone` | src/Epoll.cpp:53-72 | the counter is reset first; then everything is delivered in order that was queued or that other threads push before the drain, and their writes to the counter stay; only connections on which the kernel reported an error fail |
| `Epoll.Epoll.OnReadable` | src/Epoll.cpp:135-140 | a readable connection is read, its messages become jobs, and it is kept or closed as the ending of the read loop demands |
| `Epoll.Epoll.OnWritable` | src/Epoll.cpp:141-145 | a writable connection is written, and closed iff that failed or everything is done |
| `Epoll.Epoll.AddEvent` | src/Epoll.cpp:112-146 | which of these happens for which event, also while stopping, which jobs it submits, and what becomes of the done queue, the counter and the next id |
| `Epoll.Epoll.OnConnection` | src/Epoll.cpp:124-145 | the part for one connection |
| `Epoll.AcceptRefines` | src/Epoll.cpp:42-44 | accepting is a run of the step machine |
| `Epoll.DoneRefines` | src/Epoll.cpp:53-72 | delivering is a run, whatever the workers do between the read and the drain: read the counter, their steps, drain, one step for each response |
| `Epoll.WorkersDeeds` | src/Donequeue.cpp:2-13 | what workers do in the machine is what the object admits other threads to do to the queue and the counter |
| `Epoll.WriteRefines` | src/Epoll.cpp:141-145 | writing is one step |
| `Epoll.ReadRefines` | src/Epoll.cpp:135-140 | reading is a run: receive, submit one by one, and the step for the ending, which for a close at the end of input is the end-of-input step |
| `Epoll.EventRefines` | src/Epoll.cpp:124-145 | which run of the machine one event of a connection is: a stopping server only writes; otherwise a failed connection is hung up, a readable one read, one only writable written; no other connection is touched |
| `Epoll.ReadCloseComplete` | src/net/Connection.cpp:32-50 | when the object closes a connection at the end of input, every response to every request is on the wire |
| `PipelineProofs.StepKeeps` | src/Epoll.cpp:11-146 | every step of loop, workers and kernel keeps the invariant |
| `PipelineProofs.RunKeeps` | src/Epoll.cpp:179-226 | so does every run |
| `PipelineProofs.Ledger` | src/Epoll.cpp:53-72 | for every live connection after any run: handler results of its requests = accepted + in flight, inflight counts the undelivered and is not negative, nothing it accepted belongs to another connection |
| `PipelineProofs.InflightIsUndelivered` | src/net/Connection.cpp:22-30 | inflight is the number of results not yet accepted |
| `PipelineProofs.Streams` | src/net/Connection.cpp:9-112 | for every live connection after any run: requests are the received messages in order, sent and pending bytes are the responses in order, write and read interest are armed exactly when they should be, and it is never idle half-closed |
| `PipelineProofs.EofRemembered` | src/net/Connection.cpp:32-50 | for every live connection after any run: it counts as half-closed iff it met the end of its input during the run, and then it has something in flight or pending |
| `PipelineProofs.DrainCloseComplete` | src/Epoll.cpp:66-70 | a connection closed as finished has every response to every request on the wire |
| `PipelineProofs.ClosedForCause` | src/Epoll.cpp:57-146 | a step closes a connection iff there is a cause: a broken stream, a failed call, a hang-up, or an end of input with nothing left to deliver |
| `PipelineProofs.AnnouncedKept` | src/Donequeue.cpp:2-17 | every step keeps waiting responses announced |
| `PipelineProofs.NoLostWakeup` | src/Donequeue.cpp:2-17 | in every interleaving a waiting response has the counter up, a writer still to come, or the loop about to drain; each is drained once and in order |
| `PipelineProgress.SomebodyGoesOn` | src/Epoll.cpp:179-226 | no deadlock: in every state of the invariant in which anything is left to do, a step is enabled that leaves less to do and closes nothing |
| `PipelineProgress.EverythingAnswerable` | src/Epoll.cpp:179-226 | from every reachable state with a worker there is a way on that keeps every connection and answers every request received so far: its responses are exactly the results of its messages and nothing is in flight |
| `ResponseOrder.OneWorkerInOrder` | src/ThreadPool.cpp:9-30 | with at most one worker, after any run, each connection accepted the results of its first requests in their order |
| `ResponseOrder.SeveralWorkersReorder` | src/Epoll.cpp:237 | with any number of workers from two on, for any two requests, there is a run in which the second answer comes first |
| `ResponseOrder.OrderGuaranteed` | src/Epoll.cpp:237 | order is guaranteed in all runs iff there is at most one worker or the handler answers all requests alike |
| `ResponseOrder.OneAtATimeInOrder` | src/ThreadPool.cpp:9-30 | with any number of workers, a connection that never has two requests in flight gets its answers in order |
| `ConnectionPool.RemoveTakesAll` | src/ConnectionPool.cpp:59 | removal takes out all occurrences and nothing else |
| `ConnectionPool.ConnectionPool.constructor` | src/ConnectionPool.cpp:5-25 | the minimum number of new, distinct connections, all idle |
| `ConnectionPool.ConnectionPool.Reserve` | src/ConnectionPool.cpp:80-88 | at most two, by unsigned arithmetic, added to the total |
| `ConnectionPool.ConnectionPool.CreateSome` | src/ConnectionPool.cpp:89-99 | the retry loop makes exactly the attempts of one execution and keeps what was usable, at most as many as reserved and all new; what failed is deleted |
| `ConnectionPool.RetryEnds` | src/ConnectionPool.cpp:89-99 | such an execution ends with all that was wanted, or after six failures less that number |
| `ConnectionPool.ConnectionPool.Commit` | src/ConnectionPool.cpp:100-107 | unused reservations are given back and the connections become idle |
| `ConnectionPool.ConnectionPool.Take` | src/ConnectionPool.cpp:147-152 | the connection returned last moves from idle to in use in all tables |
| `ConnectionPool.ConnectionPool.Discard` | src/ConnectionPool.cpp:157-163 | a connection that does not answer leaves all tables |
| `ConnectionPool.ConnectionPool.Release` | src/ConnectionPool.cpp:53-77 | a lent connection becomes idle; any other is ignored |
| `ConnectionPool.ConnectionPool.WarnOverdue` | src/ConnectionPool.cpp:184-195 | what has been lent for more than five seconds is in the log, once |
| `ConnectionPool.ConnectionPool.DeleteExpired` | src/ConnectionPool.cpp:196-215 | of what has been idle too long, as many as the lower limit allows leave all tables and are deleted |
| `PoolProofs.StepKeeps` | src/ConnectionPool.cpp:53-215 | every step of threads, scanner and guards keeps the books |
| `PoolProofs.RunKeeps` | src/ConnectionPool.cpp:53-215 | so does every run |
| `PoolProofs.Conservation` | src/ConnectionPool.cpp:53-215 | after any run: total = idle + in use + reserved, within the larger limit; lists without duplicates and disjoint; tables agree with lists; every allocated connection in exactly one place; nothing deleted twice or while referred to |
| `PoolProofs.NeverAboveLimit` | src/ConnectionPool.cpp:84 | started with sane limits the total never exceeds the maximum; whatever the limits, the subtraction in expand never wraps; that expand is reached at all, `AcquireProofs.AcquireSucceeds` says |
| `PoolProofs.LeasesLinear` | src/ConnectionPool.cpp:147-168 | connections in use and owners (pinging threads, guards) are in bijection, an owner's connection is always known as lent, and each lease is returned, lost or still out, once |
| `PoolProofs.ScanKeepsMinimum` | src/ConnectionPool.cpp:205-208 | the scanner never takes the pool below its lower limit, and does nothing at or below it |
| `PoolProofs.ScanAgrees` | src/ConnectionPool.cpp:205-214 | the scanner's steps are the loop of the pool object |
| `PoolProofs.ScanMeaning` | src/ConnectionPool.cpp:184-215 | one pass of the scanner: what is overdue is logged once; of the long idle connections the first ones, as many as there are above the lower limit, leave lists, tables and heap, and nothing else does |
| `PoolProofs.CreateRefines` | src/ConnectionPool.cpp:89-99 | every execution of the retry loop is a run of the machine with the same connections |
| `PoolProofs.LeaseBeginsNow` | src/ConnectionPool.cpp:147-152 | after any run, taking a connection records the time of this lease (emplace meets no old entry) and clears its return time and its warning |
| `PoolProofs.ReturnBeginsNow` | src/ConnectionPool.cpp:57-71 | after any run, a guard's return records the time of this return, and the connection is the next to be lent |
| `PoolProofs.KeepsExpire` | src/ConnectionPool.cpp:205-214 | the scanner's deletions keep the books, in which a deletion of something not allocated or still referred to would show as a fault |
| `PoolProofs.KeepsDeleteDoomed` | src/ConnectionPool.cpp:155-167 | so does the deletion after a failed ping |
| `PoolProofs.KeepsMoveAssign` | src/ConnectionGuard.cpp:19-34 | move assignment returns the lease of the guard assigned to, passes the other guard's lease on, concerns nobody else, and keeps the books |
| `AcquireProofs.AcquireSucceeds` | src/ConnectionPool.cpp:109-169 | from every state of the invariant with something idle or room for more, a thread alone, with usable connections and a good ping, ends with one guard more: on the connection returned last, or on one of the one or two new ones that there was room for |
| `AcquireProofs.BrokenConnectionGoes` | src/ConnectionPool.cpp:147-167 | a connection that does not answer leaves lists, tables, total and heap, nothing else changes, and the thread comes back without a guard |
| `AcquireProofs.GiveUpJustified` | src/ConnectionPool.cpp:118-140 | in every run a thread goes into expand only if its latest check found nothing idle and room for more, and it gives up iff nothing is idle at the end of its wait, always after an attempt to expand or a check that found something idle or no room |
| `ConnectionGuard.ConnectionGuard.constructor` | src/ConnectionGuard.cpp:2-5 | a guard owns what it is given |
| `ConnectionGuard.ConnectionGuard.Move` | src/ConnectionGuard.cpp:13-18 | ownership moves, the other guard is left with nothing |
| `ConnectionGuard.ConnectionGuard.Destroy` | src/ConnectionGuard.cpp:6-12 | a guard that owns a connection returns it |
| `ConnectionGuard.ConnectionGuard.Assign` | src/ConnectionGuard.cpp:19-34 | the old connection is returned, the other's taken over; assignment to itself changes nothing |
| `ConnectionGuard.ConnectionGuard.IsEmpty` | src/ConnectionGuard.cpp:39-40 | whether there is a connection |
| `ConnectionGuard.AssignAgrees` | src/ConnectionGuard.cpp:19-34 | the assignment of the object is the step of the machine |
| `ConnectionGuard.DestroyAgrees` | src/ConnectionGuard.cpp:6-12 | so is destruction |
| `ConnectionGuard.MoveAgrees` | src/ConnectionGuard.cpp:13-18 | and move construction |

## Left out

- Damage to the length field of a frame: a wrong but legal length may look like a torn tail (src/Segment_recovery.cpp:66, 79-80).
- Reads that come up short inside the file; what a crash leaves is a byte prefix, and no other disk model is considered. `File_io.cpp` is not part of this model.
- Recovery.SegmentRecovery.SegmentScanner: says nothing about a scan during which a read fails (`healthy` false); the code then judges by what the buffer held.
- Recovery.SegmentRecovery.FindIdx: an index of more than 2^31 entries, whose positions do not fit in the program's `int`.
- SegmentWriter.Segment.Creat: what a failed creation leaves in the file is described only for a failed write that could be truncated; whether the name of the new file is durable is not modelled.
- SegmentWriter.LeftoverFound: one failed append on a file that ended at offset. Several refused truncations may leave other bytes behind offset; for those only `SegmentWriter.SessionSurvives` and `RecoveryProofs.VerdictSound` speak.
- Frames whose absolute offsets pass 2^64: offsets wrap in the model as in the code, and the facts about the order of anchors assume that they do not.
- Two objects that write one file at the same time; closing of file descriptors; `sysnc`, which changes no byte.
- NetConnection.Connection.SendData: `send` takes at least one byte or fails, and a signal interrupts it a finite number of times; buffers longer than 2^31 bytes, whose index is an `int`, are not considered.
- NetConnection.Connection.HandReadable: a socket yields a finite number of bytes before it runs dry.
- Connection ids that wrap around after 2^64 connections, and `inflight` beyond the range of `int`.
- A handler that throws: the response is never pushed, and inflight stays above zero (src/ThreadPool.cpp:22-28). Handlers are total here.
- The moved-from queue of `Donequeue::drain` is taken to be empty, as it is in practice.
- Epoll.Epoll.OnAccept: the loop ends at the first failure of `accept` or `fcntl`; what it does with the reserve descriptor on EMFILE is not modelled, and `epoll_ctl` is taken to succeed.
- `Epoll::start`, its shutdown deadline and the signal handler, socket setup; the pipeline machine has no shutdown step.
- ConnectionPool.ConnectionPool.constructor: an allocation that throws, which the code logs and skips while the total still counts it.
- Destruction of the pool and everything the flag `stopping_` changes; a guard that outlives the pool.
- Liveness of the pool: one condition variable serves waiters and the scanner, so a notification may wake the wrong one. Waiting is a step that may happen or not, and giving up after the timeout is allowed whenever nothing is idle.
- PoolProofs.LeasesLinear: connections are returned by guards only; a caller that hands an address of its own to the public `release` is not modelled.
- `acquire` and `expand` as single sequential methods: each of their regions is a method of the pool object, and the order of the regions is the order of a thread's states in `PoolMachine`.
- Clocks: the scanner's loops use one reading each where the code reads the clock again for every entry, and in the machine any set of entries may count as expired.
- `Connection` of the database, `Cursor`, `Logger`, `Trace`, the clients and scripts: thin wrappers or input and output.
