# PublishQueueAsyncRK: the retained publish queue, modelled in Dafny

PublishQueueAsyncRK queues cloud events on a Particle device in a
caller-supplied retained-memory buffer, so that queued events survive a
restart. A worker thread publishes them oldest first.

The buffer holds a header (`magic`, `size`, `numEvents`). After the header
come the records, packed back to back with the oldest first. Each record is:
- the fixed `PublishQueueEventData` struct (`ttl`, `flags`, `size`);
- the event name and the event data, as two NUL-terminated strings;
- padding up to an offset that is a multiple of 4.

This model covers the retained log and the worker's state machine.

The log operations (`PublishQueueAsyncRetained`):
- **setup** validates the header. It then rebuilds `nextFree` by skipping
  `numEvents` records, and resets the log when anything is wrong.
- **publishCommon** rejects a record that can never fit. Otherwise it
  appends the record after the last one, evicting old records while there is
  no room.
  While a send is in flight the first record is never evicted. An event that
  fits the empty buffer but not beside that record is then rejected only
  after every other record has been discarded.
- **getOldestEvent**, **getNumEvents** and **clearEvents** read or empty the
  log.
- **skipEvent** steps over one record.
- **discardOldEvent** removes the oldest record, or the second-oldest one
  while a send is in flight. It does this with a `memmove` over the rest of
  the buffer.

The state machine (`PublishQueueAsyncBase`):
- **startState**;
- **checkQueueState**, which paces publishing and then waits for the
  request;
- **waitRetryState**, the back-off after a failed publish.

## Modules

- `bytes.dfy` (`Bytes`): bytes, the fixed-width integers, C strings, and the
  little-endian layout of the struct fields.
- `record_codec.dfy` (`RecordCodec`): one record.
  - The record size computation and the bytes `publishCommon` writes.
  - `strlen` bounded by the end of the buffer.
  - `skipEvent`, and the event a reader finds at an offset.
  - The round trip: the bytes written for an event, with any padding, form
    one record that reads back as that event.
- `record_log.dfy` (`RecordLog`): the log as a sequence of record blocks.
  - Packing (`Flatten`) and the events the blocks hold (`EventsOf`).
  - `Discard`, and the byte-level effect of the `memmove`.
  - `Enqueue`, a reference definition of `publishCommon`'s eviction loop,
    with its properties.
  - The recovery scan (`ScanFrom`), proved to accept exactly packed logs.
- `publish_queue.dfy` (`PublishQueue`): the class `PublishQueueAsyncRetained`.
  - It holds the buffer as an `array`, the header fields, `nextFree` and the
    state-machine fields.
  - Its log invariant `Valid()` says that the bytes from the header to
    `nextFree` are the packed record blocks `slots`, and that `numEvents`
    counts them.
  - Each method of the source is a method here with `modifies` and
    `ensures` clauses. `publishCommon`'s loop, `setup`'s scan and
    `discardOldEvent`'s `memmove` are a `while` loop and array updates.

The offsets in the model are offsets from the start of the retained buffer,
header included. This matters because `skipEvent` aligns on that offset.

## Model

| member | source | states |
|---|---|---|
| Bytes.U16RoundTrip | src/PublishQueueAsyncRK.cpp:219-220 | a 16-bit struct field (flags, size) written little-endian reads back as the value written |
| Bytes.U16AtBytes | src/PublishQueueAsyncRK.cpp:78 | U16At reads a 16-bit struct field (flags) as two bytes, least significant first; encoding the value read gives back exactly those two bytes |
| Bytes.I32RoundTrip | src/PublishQueueAsyncRK.cpp:218 | the signed 32-bit ttl written in two's complement reads back as the value written |
| Bytes.Signed | src/PublishQueueAsyncRK.cpp:80-82 | the 32-bit pattern stored for ttl is read as a signed int: the value returned has exactly that pattern in two's complement |
| Bytes.I32AtBytes | src/PublishQueueAsyncRK.cpp:80-82 | I32At reads the ttl as four bytes in two's complement, least significant first; encoding the value read gives back exactly those four bytes |
| RecordCodec.RoundUp4 | src/PublishQueueAsyncRK.cpp:196-198 | rounding up gives a multiple of 4 that exceeds its input by less than 4 |
| RecordCodec.RecordSize | src/PublishQueueAsyncRK.cpp:194-198 | a record's size is a multiple of 4, at least 12, and at least the raw size of the struct, both strings and both NULs, but less than 4 bytes more |
| RecordCodec.EncodeRecord | src/PublishQueueAsyncRK.cpp:217-228 | its length is RawSize; the body writes ttl, flags, size, name+NUL, data+NUL |
| RecordCodec.StrLen | src/PublishQueueAsyncRK.cpp:293-294 | strlen, bounded by the end of the buffer: the count from i never runs past the end, and is 0 from the end on |
| RecordCodec.StrLenStops | src/PublishQueueAsyncRK.cpp:293-294 | the characters strlen counts are non-NUL, and it stops at a NUL when one lies inside the buffer |
| RecordCodec.SkipEvent | src/PublishQueueAsyncRK.cpp:291-304 | skipEvent returns a 4-aligned offset at least a struct and two terminators beyond its start |
| RecordCodec.SkipOver | src/PublishQueueAsyncRK.cpp:291-304 | from a 4-aligned offset, skipEvent returns start plus the record size of the two strings it measures |
| RecordCodec.DecodeAt | src/PublishQueueAsyncRK.cpp:73-78 | the name and data the worker reads are as long as strlen measures them in place |
| RecordCodec.Layout | src/PublishQueueAsyncRK.cpp:217-228 | a record's bytes in place put ttl, flags and size, then the name and its NUL, then the data and its NUL, then the padding at their offsets |
| RecordCodec.Measured | src/PublishQueueAsyncRK.cpp:293-294 | strlen measures exactly the two strings of a record laid out in place |
| RecordCodec.RecordRoundTrip | src/PublishQueueAsyncRK.cpp:217-228 | the bytes written for an event, whatever its size field and padding, form one record that skipEvent steps over exactly and that reads back as the event |
| RecordCodec.Placed | src/PublishQueueAsyncRK.cpp:291-304 | a record block found at a 4-aligned offset is stepped over exactly by skipEvent and reads back as its event |
| RecordCodec.Cut | src/PublishQueueAsyncRK.cpp:156-163 | conversely, the bytes skipEvent steps over inside the buffer form one record block holding the event read there |
| RecordLog.TotalSize | src/PublishQueueAsyncRK.cpp:230 | the packed size of n records is at least 12 n bytes |
| RecordLog.TotalSizeAppend | src/PublishQueueAsyncRK.cpp:230 | appending a record grows the packed size by the record's size |
| RecordLog.FlattenLength | src/PublishQueueAsyncRK.cpp:230-234 | packed record blocks take exactly the total record size of their events |
| RecordLog.FlattenAppend | src/PublishQueueAsyncRK.cpp:230-234 | a block stored after the last is packed directly after the others |
| RecordLog.EventsOfAppend | src/PublishQueueAsyncRK.cpp:230-234 | appending a record block appends its event |
| RecordLog.Discard | src/PublishQueueAsyncRK.cpp:315-340 | discarding removes exactly the record at the victim index (0, or 1 for secondEvent); the others keep their order |
| RecordLog.EventsOfDiscard | src/PublishQueueAsyncRK.cpp:315-340 | removing a record block removes exactly its event |
| RecordLog.FlattenDiscard | src/PublishQueueAsyncRK.cpp:333-337 | after a discard the bytes of the log are the blocks before the victim, then those after it |
| RecordLog.Enqueue | src/PublishQueueAsyncRK.cpp:208-255 | reference definition of publishCommon's loop after the oversize check: store when the capacity minus the packed log has room, else give up at one record or with nothing to discard, else discard the victim and retry; the log grows by at most the stored event, and a failed attempt never empties a non-empty log |
| RecordLog.EnqueueStores | src/PublishQueueAsyncRK.cpp:213-237 | one-round unfolding of Enqueue, the loop's reference definition: with room after the last record the loop stores the event as the newest record |
| RecordLog.EnqueueGivesUp | src/PublishQueueAsyncRK.cpp:240-254 | one-round unfolding of Enqueue: with no room the loop gives up, changing nothing, when one record is left or no record can be discarded |
| RecordLog.EnqueueDiscards | src/PublishQueueAsyncRK.cpp:249-254 | one-round unfolding of Enqueue: otherwise one pass discards the victim and the loop continues on the shorter log |
| RecordLog.EnqueueEvictsOldest | src/PublishQueueAsyncRK.cpp:208-255 | eviction removes only a run of the oldest records (the run after the first while sending); survivors keep their order and a stored event goes last |
| RecordLog.EnqueueKeepsFirst | src/PublishQueueAsyncRK.cpp:240-251 | while a send is in flight the first record survives publishCommon |
| RecordLog.EnqueueStoredFits | src/PublishQueueAsyncRK.cpp:213-237 | a stored event is the newest record and the log then fits in the capacity |
| RecordLog.EnqueueFailsOnlyAtOne | src/PublishQueueAsyncRK.cpp:240-246 | for a record that fits the empty buffer, publishCommon fails only when one record is left and it cannot share the buffer with the new one |
| RecordLog.EnqueueSendingFailure | src/PublishQueueAsyncRK.cpp:240-254 | while a send is in flight, an event that fits the empty buffer but is rejected leaves the log holding the in-flight record alone: every other record was discarded |
| RecordLog.ScanFrom | src/PublishQueueAsyncRK.cpp:155-163 | a successful recovery scan ends inside the buffer at a 4-aligned offset |
| RecordLog.ScanNext | src/PublishQueueAsyncRK.cpp:156-161 | one pass of setup's loop (skip, check against the end, go on): when the scan succeeds it ends between the starting offset and the end of the buffer, 4-aligned from an aligned start |
| RecordLog.ScanStep | src/PublishQueueAsyncRK.cpp:156-157 | one-step unfolding of ScanFrom, the scan's reference definition: one step of the scan continues from skipEvent's result |
| RecordLog.ScanStop | src/PublishQueueAsyncRK.cpp:158-161 | one-step unfolding of ScanFrom: the scan fails as soon as a skip passes the end of the buffer |
| RecordLog.ScanBlocks | src/PublishQueueAsyncRK.cpp:149-164 | a scan that stays in the buffer has stepped over numEvents record blocks packed from the header to where it ends |
| RecordLog.PackedSteps | src/PublishQueueAsyncRK.cpp:156-157 | skipEvent steps over a packed log block by block |
| RecordLog.StepsScan | src/PublishQueueAsyncRK.cpp:156-163 | scanning as many records as were stepped over ends right after them |
| RecordLog.FlattenRecovers | src/PublishQueueAsyncRK.cpp:149-164 | a log packed from the header survives setup's scan, which ends exactly at its end |
| RecordLog.FlattenUnique | src/PublishQueueAsyncRK.cpp:156-163 | the bytes of a packed log determine its record blocks |
| RecordLog.Written | src/PublishQueueAsyncRK.cpp:217-228 | the buffer after the struct writes and both strcpy calls: the encoded record over the bytes at the offset, the buffer length unchanged (WrittenAt states what lies where) |
| RecordLog.WrittenAt | src/PublishQueueAsyncRK.cpp:217-228 | a write puts its bytes at its offset and leaves the bytes before and after it unchanged |
| RecordLog.WriteAppends | src/PublishQueueAsyncRK.cpp:217-230 | writing a record at the end of the log leaves earlier bytes unchanged and packs one more block, padded by the bytes already there |
| RecordLog.Moved | src/PublishQueueAsyncRK.cpp:333-337 | the buffer after discardOldEvent's memmove of the tail down to the victim's offset, the buffer length unchanged (CutOut states what lies where) |
| RecordLog.CutOut | src/PublishQueueAsyncRK.cpp:333-337 | the memmove of the tail down over a gap makes the bytes after the gap follow those before it |
| RecordLog.CutFirst | src/PublishQueueAsyncRK.cpp:322-337 | removing the oldest record packs the rest from the header on |
| RecordLog.CutSecond | src/PublishQueueAsyncRK.cpp:315-337 | removing the second record packs the oldest and then the rest |
| RecordLog.CutVictim | src/PublishQueueAsyncRK.cpp:315-339 | after the memmove the log packs the remaining blocks and is shorter by the victim's length |
| RecordLog.SkipNth | src/PublishQueueAsyncRK.cpp:291-304 | skipEvent started where the i-th record of a packed log begins lands exactly where the next one begins |
| RecordLog.VictimCut | src/PublishQueueAsyncRK.cpp:307-340 | discardOldEvent on a packed log leaves the remaining records packed, holding the events that remain |
| RecordLog.AppendRecord | src/PublishQueueAsyncRK.cpp:217-234 | a record written for e, with any padding, appended to the log appends e to its events |
| RecordLog.AppendInPlace | src/PublishQueueAsyncRK.cpp:213-234 | writing e's record at nextFree packs one more block holding e after the log |
| PublishQueue.Elapsed | src/PublishQueueAsyncRK.cpp:66 | millis() - lastPublish wraps around modulo 2^32 |
| PublishQueue.FlagsOr | src/PublishQueueAsyncRK.cpp:219 | the stored flags are the union of the two flag sets: every flag of flags2 is set, and outside flags2 the flags are exactly those of flags1 |
| PublishQueue.PublishQueueAsyncRetained.constructor | src/PublishQueueAsyncRK.cpp:135-138 | the object keeps the caller's buffer and size; the header holds whatever retained memory held |
| PublishQueue.PublishQueueAsyncRetained.Setup | src/PublishQueueAsyncRK.cpp:144-182 | the log is kept (same count, nextFree where the scan ends) exactly when magic and size match and the scan stays in the buffer; else it is reset to empty; the invariant holds afterwards |
| PublishQueue.PublishQueueAsyncRetained.ScanLog | src/PublishQueueAsyncRK.cpp:155-163 | the loop computes the recovery scan, and the bytes scanned are numEvents packed records |
| PublishQueue.PublishQueueAsyncRetained.GetOldestEvent | src/PublishQueueAsyncRK.cpp:262-273 | the record at the header's end reads back as the oldest event; nothing when the log is empty |
| PublishQueue.PublishQueueAsyncRetained.GetNumEvents | src/PublishQueueAsyncRK.cpp:348-359 | the count is the number of events in the log |
| PublishQueue.PublishQueueAsyncRetained.ClearEvents | src/PublishQueueAsyncRK.cpp:275-289 | the log is empty, nextFree is at the header's end, no send is in flight, lastPublish is 0 and it returns true |
| PublishQueue.PublishQueueAsyncRetained.DiscardOldEvent | src/PublishQueueAsyncRK.cpp:307-346 | fails and changes nothing without the victim record; else removes exactly it, shortens nextFree by its size, memmoves the buffer, and keeps the invariant |
| PublishQueue.PublishQueueAsyncRetained.FindVictim | src/PublishQueueAsyncRK.cpp:312-329 | start and next bound the victim record in the buffer |
| PublishQueue.PublishQueueAsyncRetained.CutRecord | src/PublishQueueAsyncRK.cpp:333-340 | the buffer is memmoved and nextFree and the count drop by one record |
| PublishQueue.PublishQueueAsyncRetained.Commit | src/PublishQueueAsyncRK.cpp:339-340 | nextFree and numEvents are updated together so that the log invariant holds for the new bytes |
| PublishQueue.PublishQueueAsyncRetained.Skip | src/PublishQueueAsyncRK.cpp:291-304 | skipEvent on the retained buffer, started at the i-th record of the log, returns where the (i+1)-th record begins |
| PublishQueue.PublishQueueAsyncRetained.MoveDown | src/PublishQueueAsyncRK.cpp:333-337 | the array holds the memmoved bytes |
| PublishQueue.PublishQueueAsyncRetained.WriteBytes | src/PublishQueueAsyncRK.cpp:217-228 | the array holds the record's bytes at the offset and is unchanged elsewhere |
| PublishQueue.PublishQueueAsyncRetained.StoreRecord | src/PublishQueueAsyncRK.cpp:213-237 | the record is written at the old nextFree, nextFree grows by its size, the count by one, the event is appended, and the invariant holds |
| PublishQueue.PublishQueueAsyncRetained.PublishCommon | src/PublishQueueAsyncRK.cpp:184-259 | an oversize record is rejected changing nothing; else the outcome and the new log are those of the eviction loop (Enqueue); with room it is stored at once; the invariant and the in-flight record are kept |
| PublishQueue.PublishQueueAsyncRetained.MakeRoomAndStore | src/PublishQueueAsyncRK.cpp:208-255 | the loop ends with Enqueue's outcome and log |
| PublishQueue.PublishQueueAsyncRetained.Round | src/PublishQueueAsyncRK.cpp:209-254 | one pass stores, gives up, or discards one record and keeps Enqueue's result unchanged |
| PublishQueue.PublishQueueAsyncRetained.Evict | src/PublishQueueAsyncRK.cpp:243-254 | fails at one record or with nothing to discard, changing nothing; else discards the victim |
| PublishQueue.PublishQueueAsyncRetained.StartState | src/PublishQueueAsyncRK.cpp:57-62 | the next state is checkQueueState |
| PublishQueue.PublishQueueAsyncRetained.CheckQueueState | src/PublishQueueAsyncRK.cpp:65-120 | the oldest event is published, and isSending set, exactly when not paused, connected, 1010 ms have passed and the log is not empty; the DISCARD! branch is unreachable |
| PublishQueue.PublishQueueAsyncRetained.PollRequest | src/PublishQueueAsyncRK.cpp:84-108 | success discards the oldest record; failure moves to waitRetryState; both clear isSending and set lastPublish; a cancelled wait discards nothing and leaves lastPublish |
| PublishQueue.PublishQueueAsyncRetained.Finish | src/PublishQueueAsyncRK.cpp:93-107 | success removes the oldest event and keeps the state; failure keeps the log and moves to waitRetryState; both clear isSending and set lastPublish to now |
| PublishQueue.PublishQueueAsyncRetained.WaitRetryState | src/PublishQueueAsyncRK.cpp:122-126 | back to checkQueueState exactly when failureRetryMs have passed since lastPublish, modulo 2^32 |

## Left out

- Mutex and threads: `StMutexLock`, `os_mutex_*`, the worker thread, and
  `threadFunction`'s loop that calls `stateHandler` and yields. Every
  operation is modelled as one atomic step on the object. `stateHandler` is
  the `state` field. The interleavings are represented this way:
  - `isSending` may take either value when `publishCommon` runs.
  - A wait on a request may see it cleared.

  Within one `publishCommon` call, `isSending` is taken as fixed.
- `PublishQueueAsyncBase::setup`: the system-thread check, mutex creation
  and thread start. They are not modelled. `publishCommon`'s lazy call to
  `setup` becomes the requirement that `Setup` has established the log
  invariant.
- Logging (`pubqLogger`, `logPublishQueueEventData`): not modelled.
- `Particle.connected()` and `millis()` are parameters (`connected`, `now`).
- `Particle.publish` and its future are represented as follows:
  - `CheckQueueState` returns the event it would publish.
  - Each turn of the `delay(1)` wait loop is one call of `PollRequest` with
    what the request shows: still pending, or done with success or failure.
- The header layout comes from `PublishQueueAsyncRK.h`, which is not part of
  this model.
  - The header's three fields are fields of the object, not bytes of the
    buffer.
  - The header is taken to occupy 12 bytes: two 32-bit fields and a 16-bit
    count, padded to 4-byte alignment.
  - Every agreement between skipEvent and the stored record size
    (`SkipOver`, `Placed`, `FlattenRecovers`, `AppendInPlace`, all applied
    at offset HDR) depends on HDR being a multiple of 4. skipEvent aligns
    on the offset from the start of the buffer, while publishCommon rounds
    the record size alone.
  - With a packed 10-byte header, records would start at offset 10. Then
    skipEvent would step over a record to a different offset from the one
    publishCommon advanced nextFree to, so setup's scan and
    discardOldEvent would misplace records.
  - The event struct is taken to be 8 bytes: a 32-bit ttl and two 16-bit
    fields.
- Buffers shorter than the header: the unsigned subtraction in the oversize
  check would wrap around. `Setup` requires the buffer to hold at least the
  header.
- `strlen` past the end of the buffer: the model's `strlen` stops at the end
  of the buffer. C's would read on. A record whose strings run off the end
  makes `skipEvent` return an offset beyond the buffer, which setup treats
  as corruption.
- The `publish` overloads and `PublishFlags` wrapping in the header file:
  `PublishCommon` takes the two flag sets as 16-bit bit vectors (`bv16`).
- PublishQueue.PublishQueueAsyncRetained.PublishCommon: on success it does
  not restate the byte-level write. It states the new log and nextFree.
  `StoreRecord` states that the record's bytes are written at the old
  nextFree and that the bytes before it are unchanged.
- PublishQueue.PublishQueueAsyncRetained.MakeRoomAndStore: the same as
  `PublishCommon`; the byte-level write is stated by `StoreRecord`.
- The defensive `DISCARD!` branch of `checkQueueState` (a record count
  above 5 with no oldest record) is proved unreachable while the log
  invariant holds. The model therefore has no call there.
- A race the model shows but does not prevent:
  - Suppose `clearEvents` runs while a publish is in flight, and a new
    event is then queued before that request completes successfully.
  - The worker's `discardOldEvent(false)` then removes the new event.
  - `PollRequest` states this behaviour: a finished request discards the
    oldest record whatever `isSending` says.
