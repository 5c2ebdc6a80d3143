# DataBuffer: a verified model of a wraparound byte buffer

This project models `DataBuffer`, the single-producer/single-consumer byte buffer of
src/databuffer.cpp. A producer `write`s bytes into a fixed storage array at the write cursor.
A consumer `read`s them back at the read cursor. Both cursors wrap around at the end of
storage. The buffer also contains:

- a refill policy: a request for more data is raised while more than 204,799 bytes are free;
- a seek handshake: the buffer is reset, a repositioning callback is called, and the
  producer's next `write` confirms the seek.

The source keeps all of this in static members. Here it is one object, `DataBuffer`, in
module `DataBuffers` (databuffer.dfy). Its fields are:

- the storage, as `array<byte>`;
- the cursors `back` and `index`, as slot numbers;
- the counters `unread`, `free` and `byteIndex`;
- the flags `eof`, `dataRequestPending`, `seekRequestPending` and `state`;
- two booleans recording whether a seek callback and a refill channel are registered.

Two ghost fields, `contents` (the unread bytes, oldest first) and `vacant` (the free slots, in
fill order), give the buffer a FIFO meaning. The class invariant `Valid()` ties them to the
storage through `Ring.Layout`, a predicate on the storage's contents and the two cursors. It
also states:

- `unread + free == capacity`;
- both cursors lie in `[0, capacity)` when capacity > 0, and are both 0 otherwise;
- `back == (index + unread) % capacity`;
- `contents` is the run of storage that starts at `index`, and `vacant` is the run that
  starts at `back`.

Every state-changing method except the raw copy `CopyIn` keeps `Valid()`. Every method states its effect on `contents` and
`vacant`. So write/read round trips, including those across the end of storage, follow from
the contracts.

Files:

- ring.dfy (module `Ring`): the arithmetic the source does on `uint32_t` values and on cursors.
  It defines runs of storage that wrap around the end (`RunAt`), and proves the lemmas that let
  one copy extend or shorten such a run.
- databuffer.dfy (module `DataBuffers`): the buffer. Each branch of `write` and `read` is built
  from one-copy steps, `StoreRun` and `TakeRun`, which mirror one `memcpy` plus its cursor and
  counter updates.
- read_defect.dfy (module `ReadDefect`): the counter arithmetic of `read` exactly as written,
  including `uint32_t` wrap-around. It contains the proof that the split branch over-reads (see
  Findings).
- scenarios.dfy (module `Scenarios`): fixed call sequences on fresh buffers, each with its
  outcome as a postcondition. They include the four write cases of the test driver
  test/test_databuffer_write_cases.cpp.

The environment of the concurrent calls is passed in as parameters:

- `Seek` takes `clearedBy`, the 1 ms poll after which the producer has cleared a pending refill
  request.
- `Seek` takes `answer`, the producer's confirming write, or `None` when the 1 s wait times out.
- `RequestData` only raises the flag; its 100 µs wait loop does not change the buffer when calls
  are serialised.

## Model

| member | source | states |
|---|---|---|
| Ring.Min | src/databuffer.cpp:453-455 | the smaller of two counts; it is one of them and at most both |
| Ring.Wrap | src/databuffer.cpp:468-470 | a cursor that reached the end of storage goes back to slot 0; the result is always a slot |
| Ring.WrapIsMod | src/databuffer.cpp:337-339 | the explicit reset of a cursor to the front (`if (index >= end) index = buffer;`, and likewise at :355-357, :468-470 and :483-485) agrees with `% capacity`, so `back == Wrap(index + unread)` means `back == (index + unread) % capacity` |
| Ring.AddU32 | src/databuffer.cpp:333 | `uint32_t` addition wraps below 2^32 |
| Ring.AddU32IsMod | src/databuffer.cpp:333 | the wrapped sum equals `(a + b) % 2^32` |
| Ring.AddU32Twice | src/databuffer.cpp:366-384 | advancing `byteIndex` by the tail run and then by the front run equals advancing by their sum |
| Ring.SubU32 | src/databuffer.cpp:385 | `uint32_t` subtraction wraps below 2^32 |
| Ring.SubU32IsMod | src/databuffer.cpp:394 | the wrapped difference equals `(a - b) % 2^32`, which is how `unread -= locunread` underflows |
| Ring.RunAtIndex | src/databuffer.cpp:315-318 | a wrapping run of storage, given recursively, is the same as slot-by-slot agreement at `(start + k) % capacity` |
| Ring.WholeRun | src/databuffer.cpp:174-193 | after a reset, the whole storage is one free run starting at slot 0 |
| Ring.Splice | src/databuffer.cpp:462 | a `memcpy` into storage changes exactly the copied slots and keeps the length |
| Ring.AppendSegment | src/databuffer.cpp:457-522 | copying a run into the first free slots appends it to the unread run in order, with no gap or duplicate at the wrap; the remaining free slots form the rest of the free run; the write cursor moves on by the run's length |
| Ring.EmptyLayout | src/databuffer.cpp:174-193 | with both cursors at slot 0 and nothing unread, the ring layout holds and every slot is free |
| Ring.StoreLayout | src/databuffer.cpp:462-470 | one `memcpy` at the write cursor followed by the cursor advance and its reset to slot 0 keeps the ring layout, with the copied bytes appended to the unread run and taken off the free run; the new cursor is `Wrap(back + n, capacity)` |
| Ring.TakeLayout | src/databuffer.cpp:330-339 | one `memcpy` out at the read cursor followed by the cursor advance and its reset keeps the ring layout; the bytes copied are the first unread ones, and their slots join the end of the free run |
| Ring.Consume | src/databuffer.cpp:330-339 | the first `m` unread bytes are the slots at the read cursor, and the unread run continues `m` slots further on |
| Ring.Release | src/databuffer.cpp:334-335 | the slots a read consumed are appended to the free run |
| Ring.ExtendSlots | src/databuffer.cpp:462-466 | slot-wise form of a write extending the unread run |
| Ring.ShrinkSlots | src/databuffer.cpp:462-466 | slot-wise form of a write shortening the free run |
| Ring.ConsumeSlots | src/databuffer.cpp:330-334 | slot-wise form of a read shortening the unread run |
| Ring.PrefixSlots | src/databuffer.cpp:330 | slot-wise form: the bytes copied out are the first unread bytes |
| Ring.ReleaseSlots | src/databuffer.cpp:334-335 | slot-wise form of a read extending the free run |
| DataBuffers.SeekInBounds | src/databuffer.cpp:205-221 | for each mode, the offsets the bounds check accepts: START takes `0 <= offset <= fileSize`, CURRENT takes `-byteIndex <= offset <= fileSize - byteIndex`, END takes `-1 <= offset <= fileSize - 1`; every other offset makes `seek` return -1 |
| DataBuffers.AwaitDrain | src/databuffer.cpp:224-235 | the drain loop succeeds exactly when no request was pending or the producer cleared it within the first 999 polls |
| DataBuffers.DataBuffer.constructor | src/databuffer.cpp:26-49 | the static initial state: no storage, everything zero, false or Idle, nothing registered |
| DataBuffers.DataBuffer.Init | src/databuffer.cpp:55-84 | fresh storage of the given capacity; the buffer is empty, with cursors and `byteIndex` at 0, flags cleared and state Idle |
| DataBuffers.DataBuffer.Reset | src/databuffer.cpp:174-193 | the same empty state on the same storage and capacity; every slot becomes free |
| DataBuffers.DataBuffer.SetSeekRequestCallback | src/databuffer.cpp:107-109 | records whether a repositioning callback is registered; the invariant is kept |
| DataBuffers.DataBuffer.SetDataRequestCondition | src/databuffer.cpp:113-115 | records whether a refill channel is registered |
| DataBuffers.DataBuffer.SetSessionHandle | src/databuffer.cpp:119-121 | sets the session handle passed to the callback |
| DataBuffers.DataBuffer.SetFileSize | src/databuffer.cpp:131-133 | sets the file size used by the seek bounds check |
| DataBuffers.DataBuffer.SetEof | src/databuffer.cpp:575-577 | sets or clears end of stream |
| DataBuffers.DataBuffer.Start | src/databuffer.cpp:144-151 | fails exactly when no refill channel is registered, and otherwise raises the refill request |
| DataBuffers.DataBuffer.RequestData | src/databuffer.cpp:155-168 | raises the refill request exactly when a channel is registered |
| DataBuffers.DataBuffer.CopyIn | src/databuffer.cpp:462 | `memcpy(back, data, n)`: storage becomes the splice of the data at the slot |
| DataBuffers.DataBuffer.StoreRun | src/databuffer.cpp:462-470 | one copy at the write cursor appends the run to `contents`, takes it off the front of `vacant`, moves both counters by its length, wraps the cursor, and keeps the invariant |
| DataBuffers.DataBuffer.TakeRun | src/databuffer.cpp:330-339 | one copy at the read cursor returns the first `count` unread bytes, removes them from `contents`, appends their slots to `vacant`, moves the counters and `byteIndex` (mod 2^32), and wraps the cursor |
| DataBuffers.DataBuffer.StoreData | src/databuffer.cpp:453-528 | in all four branches, exactly `min(length, free)` bytes are written, they are the first bytes of `data` appended to `contents` in order, the other free slots keep their order, and `unread + free` stays `capacity` |
| DataBuffers.DataBuffer.StoreWrapped | src/databuffer.cpp:487-522 | the tail-then-front branch writes `min(length, free)` bytes, in order across the end of storage |
| DataBuffers.DataBuffer.RefillAfterWrite | src/databuffer.cpp:547-567 | after a write outside a seek, a request is pending exactly when a channel is registered, `!eof` and `free > 204799` |
| DataBuffers.DataBuffer.Write | src/databuffer.cpp:436-570 | the copy as in `StoreData`; a write made while Seeking clears both pending flags and skips the refill policy; otherwise the refill policy decides `dataRequestPending` and `seekRequestPending` is left alone |
| DataBuffers.DataBuffer.WriteString | src/databuffer.cpp:431-433 | the string's length is truncated to `uint32_t`, then it is written as by `Write` |
| DataBuffers.DataBuffer.TakeData | src/databuffer.cpp:310-405 | with the corrected front-run bound of `TakeWrapped`: when something is unread, exactly `min(len, unread)` of the oldest unread bytes are returned in FIFO order, also across the end of storage; the read cursor advances by that many slots mod `capacity`, and the counters and `byteIndex` move accordingly |
| DataBuffers.DataBuffer.TakeWrapped | src/databuffer.cpp:359-397 | the tail-then-front branch, with the front run bounded by the unread bytes still left: it returns `min(len, unread)` bytes, which is what the branch is meant to do |
| DataBuffers.DataBuffer.RefillAfterRead | src/databuffer.cpp:407-418 | after a non-empty read, a request is raised exactly when none is pending, a channel is registered, `!eof` and `free > 204799` |
| DataBuffers.DataBuffer.Read | src/databuffer.cpp:280-426 | returns `min(len, unread)` of the oldest unread bytes in order; with nothing unread it returns 0 and changes nothing but the refill flag, whether or not `eof` is set; a refill is requested first when `len > unread` and `!eof`, and afterwards by the watermark |
| DataBuffers.DataBuffer.Seek | src/databuffer.cpp:199-268 | target per mode; a target outside `[0, fileSize]`, or a pending request that does not clear, gives -1 with nothing changed; otherwise the buffer is reset; with no callback the result is -1 and the buffer is left empty; with a callback it is called with `(sessionHandle, target)`; on a timeout the result is -1, the buffer stays Seeking and the request pending; on confirmation the state is Idle, `byteIndex` is the target mod 2^32, the target is returned, and reads continue with the producer's data |
| DataBuffers.DataBuffer.Reposition | src/databuffer.cpp:241-267 | the part of `seek` after its checks, with the same outcomes |
| ReadDefect.IntendedCounts | src/databuffer.cpp:359-397 | the counters a read should leave: `min(len, unread)` bytes read, and these bytes move from `unread` to `free` |
| ReadDefect.ReadCountsAsWritten | src/databuffer.cpp:316-397 | the counters `read` leaves as written: at most `len` bytes are read, and `unread` and `free` move by the bytes read in `uint32_t` arithmetic, wrapping around |
| ReadDefect.AsWrittenAgreesUnlessWrappedOverRead | src/databuffer.cpp:359-397 | the as-written counters equal the intended ones exactly when the unread bytes do not wrap or `len <= unread` |
| ReadDefect.SplitReadOverReads | src/databuffer.cpp:379-396 | when the unread bytes wrap and `len > unread`, more bytes than were unread are read and `unread` underflows to near 2^32; `free + bytesRead` exceeds the capacity and the `free` counter is that sum mod 2^32, so for capacities up to 2^31 `free` exceeds the capacity |
| ReadDefect.SplitReadCounterexample | src/databuffer.cpp:379-396 | capacity 7, read cursor 5, 4 unread, `read(5)`: as written, 5 bytes are read, `unread` becomes 2^32 - 1 and `free` becomes 8; intended are 4, 0 and 7 |
| ReadDefect.WrapAroundOverRead | src/databuffer.cpp:359-396 | capacity 7, read cursor 5, 6 unread: `read(6)` gives the intended counts, while `read(7)` reads 7 bytes, the last from a free slot, and leaves `unread` at 2^32 - 1 and `free` at 8 instead of 6, 0 and 7 |
| Scenarios.TwoWrites | src/databuffer.cpp:457-471 | in a 7-byte buffer, writes of [0, 1, 2] and [3, 4, 5] leave those six bytes unread and one slot free |
| Scenarios.FillAndDrain | src/databuffer.cpp:436-528 | reading 3 returns [0, 1, 2]; after writing [6], only 3 bytes of [7, 8, 9, 10] are accepted; reading everything returns [3, 4, 5, 6, 7, 8, 9] |
| Scenarios.EmptyAtSlotFive | src/databuffer.cpp:324-339 | writing and then reading five bytes leaves a 7-byte buffer empty with both cursors at slot 5 |
| Scenarios.WrapAround | src/databuffer.cpp:487-522 | from slot 5, a 6-byte block puts its first 2 bytes in slots 5 and 6 and the other 4 in slots 0 to 3; a read of the 6 unread bytes returns the block unchanged (a read of 7 would over-read, see `ReadDefect.WrapAroundOverRead`) |
| Scenarios.SeekWithoutCallback | src/databuffer.cpp:242-245 | with no callback, a seek returns -1 and the buffer is empty afterwards |
| Scenarios.SeekOutOfBounds | src/databuffer.cpp:216-221 | a seek past the end of a 100-byte file returns -1; the unread bytes and the position are kept |
| Scenarios.RegisteredSession | src/databuffer.cpp:107-137 | the registrations and settings a seek depends on are in place, [1, 2, 3] is unread, and the invariant holds |
| Scenarios.SeekHandshake | src/databuffer.cpp:242-267 | the callback is asked for byte 10 of session 4; the confirming write is read back, and the position continues from 10 |
| Scenarios.SeekTimesOut | src/databuffer.cpp:253-261 | after a timed-out seek the buffer is Seeking with the request pending; a late write clears the request but the state stays Seeking |
| Scenarios.Iota | test/test_databuffer_write_cases.cpp:22-26 | `fill`: `n` consecutive byte values from `start` |
| Scenarios.MonotonicSteps | test/test_databuffer_write_cases.cpp:30-42 | `is_monotonic` checks that every difference of neighbours is 1 (`UnitSteps`, with sequences of length at most 1 accepted); this holds exactly when every byte is the first plus its distance from it (`Monotonic`), the form `WriteCase` states |
| Scenarios.IotaJoin | test/test_databuffer_write_cases.cpp:109 | the bytes left after reading the first `k` of a warm-up block, followed by the accepted part of the next block, are one run of consecutive values |
| Scenarios.WarmedUp | test/test_databuffer_write_cases.cpp:87-106 | a new buffer takes the warm-up block and returns its first `nRead` bytes, keeping the rest unread |
| Scenarios.WriteCase | test/test_databuffer_write_cases.cpp:74-110 | `test_databuffer_case`: both reads return consecutive values (what `is_monotonic` checks), the second write accepts `min(nWrite, free)` bytes, and the final read of the unread count returns every remaining byte in order |
| Scenarios.WriteCases | test/test_databuffer_write_cases.cpp:120-123 | the four cases on a 7-byte buffer accept 3, 3, 5 and 5 bytes of their second blocks |

`GetSessionHandle`, `GetFileSize`, `IsEof` and `IsSeeking` (src/databuffer.cpp:125-127, 137-139,
581-583, 272-274) read one field each. They have no contract of their own.
`Scenarios.SeekTimesOut` uses `IsSeeking`.
`DataBuffers.SeekTarget` is the target computation of src/databuffer.cpp:204-208 (from the start,
from `byteIndex`, or `filesize - offset - 1` from the end); `Seek`'s contract is stated through
it, and `DataBuffers.SeekInBounds` gives, mode by mode, which offsets its bounds check accepts.
`Scenarios.Monotonic` and `Scenarios.UnitSteps` are the two forms of `is_monotonic`
(test/test_databuffer_write_cases.cpp:30-42), shown equal by `Scenarios.MonotonicSteps`.

Three behaviours of the code that a reader might not expect:

- A seek whose confirmation times out returns -1 but does not go back to Idle. `state` stays
  Seeking and `seekRequestPending` stays set (src/databuffer.cpp:253-261). A later write
  clears the flag but not the state.
- `setEof` takes a boolean and can clear end of stream again (src/databuffer.cpp:575-577). It
  is not a one-way signal.
- The split branch of `read` bounds its front run by the unread count the read started with
  (src/databuffer.cpp:379, :390). The branch's own comment, "Read the unread bytes still
  available in the buffer" (:389), and the matching branch of `write`, which reduces `locfree`
  after the tail run (:496), show that the count left after the tail run is meant. Here the
  class `DataBuffer` follows that corrected bound, and `ReadDefect` follows the code as
  written; see Findings.

## Left out

- Condition variables, mutexes, notifications, sleeps and the atomics' memory ordering. Calls
  are serialised, and the waits become the parameters `clearedBy` and `answer` of `Seek`.
- `requestData`'s 100 µs `wait_for` loop: it does not change the buffer in a serialised model.
- `cleanup` and `delete[]`: deallocation is not modelled.
- `PROFILING_DB` file output and all `DEBUG` console output: no effect on the buffer.
- `init`'s release of the previous storage: `Init` allocates new storage and nothing is freed.
- The fields `size`, `front`, `byteIndexLow` and `byteIndexHigh`: they are written but never
  read.
- The stale bytes left in free slots: they are kept in `vacant` but carry no meaning. `reset`
  does not clear them either.
- Raw pointers and `memcpy`: they become slot numbers and `CopyIn`, and the consumer's output
  buffer becomes the returned sequence.
- DataBuffers.DataBuffer.Seek: the target is computed on unbounded integers, so the `int64_t`
  overflow of `byteIndex + offset` or `filesize - offset - 1` for extreme offsets is not
  modelled.
- DataBuffers.DataBuffer.Seek: the producer's confirming write is one `write` made while the
  buffer is Seeking, during or after the callback (`answer`). Two interleavings are not
  modelled: a producer write made while the buffer is still Idle, between `reset()` and
  `state = DBS_SEEKING` (src/databuffer.cpp:242-247), and any write after the first one during
  the 1 s wait.
- DataBuffers.DataBuffer.Read: uses the corrected front-run bound of `TakeWrapped`. The
  as-written arithmetic is modelled separately in `ReadDefect`.
- DataBuffers.DataBuffer.TakeData: its split branch is `TakeWrapped`, so on a wrapped read
  with `len > unread` it returns `min(len, unread)` bytes, where the source over-reads.
- DataBuffers.DataBuffer.TakeWrapped: bounds the front run by `locunread - tailCount`, where
  the source uses `locunread` (src/databuffer.cpp:379, :390). The source's counts on that path
  are `ReadDefect.ReadCountsAsWritten`.
- The initial value of the static `state`: databuffer.h is not part of this model. `Idle` is
  taken to be the zero value of the enumeration.
- The demo consumer test/readdummy.cpp and the multi-threaded harness
  test/test_databuffer_multi_port.cpp: they hold no buffer logic.
- Scenarios.WriteCase: the driver's `assert(n = ...)` checks (test/test_databuffer_write_cases.cpp:68,
  :104) assign instead of compare, so they check nothing about the counts. The model states the
  counts instead. It also requires what all four cases meet: the warm-up block fits, no more
  of it is read than was written, and the values stay below 256.

## Findings

| source | as written | input that shows it | evidently intended | confidence | as-written member | corrected member |
|---|---|---|---|---|---|---|
| src/databuffer.cpp:379-396 | in the split branch of `read`, the front run is bounded by `locunread`, the unread count from before the tail run was taken | capacity 7, `index` at slot 5, 4 unread (2 in the tail, 2 at the front), `read(5)`: 3 bytes are copied from the front, so 5 are returned, including a stale slot; `unread` underflows to 2^32 - 1 and `free` becomes 8 | bound the front run by `locunread - bytesSingleRead`, as `write` does with `locfree -= bytesWritten` (src/databuffer.cpp:496), so that `min(len, unread)` bytes are read | not executed | ReadDefect.ReadCountsAsWritten (ReadDefect.SplitReadCounterexample, ReadDefect.SplitReadOverReads, ReadDefect.WrapAroundOverRead) | DataBuffers.DataBuffer.TakeWrapped (used by DataBuffers.DataBuffer.Read) |
