/** The single-producer/single-consumer wraparound byte buffer `DataBuffer` of
    src/databuffer.cpp. The source keeps all of it in static members; here it is one object.
    Calls are taken to be serialised: condition variables, mutexes and sleeps are replaced by
    their effect on the flags, and what the other thread does while a call waits is a
    parameter of that call. */
module DataBuffers {
  import opened Ring

  /** A new refill request is raised only when more than this many bytes are free
      (one block is 200 kB = 204,800 bytes). */
  const Watermark: nat := 204799

  /** Number of 1 ms sleeps `seek` spends waiting for a pending refill request to clear. */
  const DrainPolls: nat := 1000

  datatype BufferState = Idle | Seeking

  datatype SeekMode = Start | Current | End

  datatype Option<T> = None | Some(value: T)

  /** The arguments `seek` hands to the repositioning callback. */
  datatype SeekRequest = SeekRequest(session: nat, target: int)

  /** Absolute target of a seek, before the bounds check: `offset` from the start, from the
      current read position, or counted backwards from the last byte of the file. */
  function SeekTarget(mode: SeekMode, offset: int, byteIndex: nat, fileSize: int): int
  {
    match mode
    case Start => offset
    case Current => byteIndex + offset
    case End => fileSize - offset - 1
  }

  /** The offsets the bounds check of `seek` lets through, mode by mode: from the start,
      any position of the file up to `fileSize`; relative to the current position, any step
      that stays within `[-byteIndex, fileSize - byteIndex]`; from the end, any offset from
      -1 (one past the last byte, i.e. `fileSize`) up to `fileSize - 1` (position 0). */
  lemma SeekInBounds(mode: SeekMode, offset: int, byteIndex: nat, fileSize: int)
    ensures var target := SeekTarget(mode, offset, byteIndex, fileSize);
      (0 <= target <= fileSize) <==>
        match mode
        case Start => 0 <= offset <= fileSize
        case Current => 0 - byteIndex <= offset <= fileSize - byteIndex
        case End => -1 <= offset <= fileSize - 1
  {
  }

  /** Seek's wait for an in-flight refill request to clear: it sleeps 1 ms, gives up when the
      count-down from `DrainPolls` reaches 0, and otherwise looks at the flag again. The
      producer is modelled by `clearedBy`: the flag reads as cleared after the
      `clearedBy`-th sleep. So the wait succeeds exactly when nothing was pending or the
      producer cleared the flag within the first 999 sleeps. */
  method AwaitDrain(pending: bool, clearedBy: nat) returns (drained: bool)
    ensures drained <==> !pending || clearedBy < DrainPolls
  {
    var timeout: nat := DrainPolls;
    var sleeps: nat := 0;
    var stillPending := pending;
    while stillPending
      invariant sleeps < DrainPolls && timeout == DrainPolls - sleeps
      invariant stillPending ==> pending && (sleeps == 0 || sleeps < clearedBy)
      invariant !stillPending ==> !pending || clearedBy <= sleeps
      decreases timeout
    {
      sleeps := sleeps + 1;       // sleep_for(1 ms)
      timeout := timeout - 1;
      if timeout < 1 {
        return false;
      }
      stillPending := sleeps < clearedBy;
    }
    return true;
  }

  class DataBuffer {
    /** Storage (`buffer` .. `end`) and its size. */
    var buffer: array<byte>
    var capacity: nat
    /** Write cursor (`back`) and read cursor (`index`), as slot numbers. */
    var back: nat
    var index: nat
    var unread: nat
    var free: nat
    /** Absolute file position of the next byte `read` yields (`uint32_t`). */
    var byteIndex: nat
    var fileSize: int
    var sessionHandle: nat
    var eof: bool
    var state: BufferState
    var dataRequestPending: bool
    var seekRequestPending: bool
    /** `seekRequestCallback != 0` */
    var seekCallbackRegistered: bool
    /** `dataRequestCV != 0` */
    var refillChannelRegistered: bool

    /** The unread bytes, oldest first. */
    ghost var contents: seq<byte>
    /** The free slots, in the order `write` fills them. */
    ghost var vacant: seq<byte>

    /** The bookkeeping invariant: the counters add up to the capacity, both cursors are
        slots of the storage, the write cursor is `(index + unread) % capacity`, and the
        unread bytes and the free slots are the two runs of storage that start at the read
        and at the write cursor. */
    ghost predicate Valid()
      reads this`buffer, this`capacity, this`back, this`index, this`unread, this`free,
            this`byteIndex, this`contents, this`vacant, buffer
    {
      && capacity == buffer.Length && capacity < U32 && byteIndex < U32
      && |contents| == unread && |vacant| == free
      && Layout(buffer[..], index, back, contents, vacant)
    }

    /** The state `init` and `reset` leave behind. */
    ghost predicate Emptied()
      reads this
    {
      && unread == 0 && free == capacity && back == 0 && index == 0 && byteIndex == 0
      && !eof && !dataRequestPending && !seekRequestPending && state == Idle
    }

    /** The static initialisation of the members: no storage, every counter and flag zero. */
    constructor ()
      ensures Valid() && Emptied() && contents == [] && capacity == 0
      ensures !seekCallbackRegistered && !refillChannelRegistered
      ensures fileSize == 0 && sessionHandle == 0
    {
      buffer := new byte[0];
      capacity := 0;
      back, index := 0, 0;
      unread, free := 0, 0;
      byteIndex := 0;
      fileSize := 0;
      sessionHandle := 0;
      eof := false;
      state := Idle;
      dataRequestPending, seekRequestPending := false, false;
      seekCallbackRegistered, refillChannelRegistered := false, false;
      contents, vacant := [], [];
    }

    /** `init`: replaces the storage by a new one of `capacity` bytes, then empties the
        buffer with the same assignments as `reset`; the registrations, the session handle
        and the file size are kept. */
    method Init(capacity: nat) returns (ok: bool)
      requires capacity < U32
      modifies this`buffer, this`capacity, this`back, this`index, this`unread, this`free,
               this`byteIndex, this`eof, this`dataRequestPending, this`seekRequestPending,
               this`state, this`contents, this`vacant
      ensures Valid() && Emptied() && contents == [] && ok
      ensures fresh(buffer) && this.capacity == capacity
    {
      buffer := new byte[capacity];
      this.capacity := capacity;
      ok := Reset();
    }

    /** `reset`: empties the buffer on the same storage. It reads nothing but the storage and
        its size. */
    method Reset() returns (ok: bool)
      requires capacity == buffer.Length && capacity < U32
      modifies this`back, this`index, this`unread, this`free, this`byteIndex, this`eof,
               this`dataRequestPending, this`seekRequestPending, this`state, this`contents,
               this`vacant
      ensures Valid() && Emptied() && contents == [] && ok
    {
      EmptyLayout(buffer[..]);
      back, index := 0, 0;
      unread, free := 0, capacity;
      byteIndex := 0;
      eof := false;
      dataRequestPending, seekRequestPending := false, false;
      state := Idle;
      contents, vacant := [], buffer[..];
      ok := true;
    }

    method SetSeekRequestCallback(registered: bool)
      requires Valid()
      modifies this`seekCallbackRegistered
      ensures Valid() && seekCallbackRegistered == registered
    {
      seekCallbackRegistered := registered;
    }

    method SetDataRequestCondition(registered: bool)
      requires Valid()
      modifies this`refillChannelRegistered
      ensures Valid() && refillChannelRegistered == registered
    {
      refillChannelRegistered := registered;
    }

    method SetSessionHandle(handle: nat)
      requires Valid()
      modifies this`sessionHandle
      ensures Valid() && sessionHandle == handle
    {
      sessionHandle := handle;
    }

    function GetSessionHandle(): nat
      reads this
    {
      sessionHandle
    }

    method SetFileSize(size: int)
      requires Valid()
      modifies this`fileSize
      ensures Valid() && fileSize == size
    {
      fileSize := size;
    }

    function GetFileSize(): int
      reads this
    {
      fileSize
    }

    method SetEof(eof: bool)
      requires Valid()
      modifies this`eof
      ensures Valid() && this.eof == eof
    {
      this.eof := eof;
    }

    function IsEof(): bool
      reads this
    {
      eof
    }

    predicate IsSeeking()
      reads this
    {
      state == Seeking
    }

    /** `start`: asks the producer for data; fails when no refill channel is registered. */
    method Start() returns (ok: bool)
      modifies this`dataRequestPending
      ensures ok == refillChannelRegistered
      ensures dataRequestPending == (old(dataRequestPending) || refillChannelRegistered)
    {
      if !refillChannelRegistered {
        return false;
      }
      dataRequestPending := true;
      return true;
    }

    /** `requestData`: raises a refill request when a channel is registered. Its bounded wait
        for the producer has no effect on the buffer in the serialised model. */
    method RequestData()
      modifies this`dataRequestPending
      ensures dataRequestPending == (old(dataRequestPending) || refillChannelRegistered)
    {
      if !refillChannelRegistered {
        return;
      }
      dataRequestPending := true;
    }

    /** `memcpy` of `src` into the storage at slot `at`. */
    method CopyIn(at: nat, src: seq<byte>)
      requires at + |src| <= buffer.Length
      modifies buffer
      ensures buffer[..] == Splice(old(buffer[..]), at, src)
    {
      forall j | at <= j < at + |src| {
        buffer[j] := src[j - at];
      }
    }

    /** One copy at the write cursor, as each branch of `write` does it: `memcpy(back, ...)`,
        `back`, `unread` and `free` moved by the run's length, and `back` reset to the front
        when it reaches the end of storage. */
    method StoreRun(run: seq<byte>)
      requires Valid() && |run| <= free && back + |run| <= capacity
      modifies this`back, this`unread, this`free, this`contents, this`vacant, buffer
      ensures Valid()
      ensures contents == old(contents) + run && vacant == old(vacant)[|run|..]
      ensures unread == old(unread) + |run| && free == old(free) - |run|
      ensures capacity > 0 ==> back == Wrap(old(back) + |run|, capacity)
    {
      ghost var next := if back + |run| >= capacity then 0 else back + |run|;
      StoreLayout(buffer[..], index, back, contents, vacant, run, next);
      CopyIn(back, run);
      ghost var s1 := buffer[..];
      back := back + |run|;
      unread := unread + |run|;
      free := free - |run|;
      if back >= capacity {
        back := 0;
      }
      contents, vacant := contents + run, vacant[|run|..];
      assert buffer[..] == s1;
    }

    /** One copy at the read cursor, as each branch of `read` does it: `memcpy(bytes, index,
        ...)`, `index`, `byteIndex`, `unread` and `free` moved by the run's length, and
        `index` reset to the front when it reaches the end of storage. */
    method TakeRun(count: nat) returns (run: seq<byte>)
      requires Valid() && count <= unread && index + count <= capacity
      modifies this`index, this`unread, this`free, this`byteIndex, this`contents, this`vacant
      ensures Valid()
      ensures run == old(contents)[..count]
      ensures contents == old(contents)[count..] && vacant == old(vacant) + run
      ensures unread == old(unread) - count && free == old(free) + count
      ensures byteIndex == AddU32(old(byteIndex), count)
      ensures capacity > 0 ==> index == Wrap(old(index) + count, capacity)
    {
      ghost var s0 := buffer[..];
      ghost var next := if index + count >= capacity then 0 else index + count;
      TakeLayout(s0, index, back, contents, vacant, count, next);
      run := buffer[index..index + count];
      index := index + count;
      byteIndex := AddU32(byteIndex, count);
      unread := unread - count;
      free := free + count;
      if index >= capacity {
        index := 0;
      }
      contents, vacant := contents[count..], vacant + run;
      assert buffer[..] == s0;
    }

    /** The refill policy at the end of `write`: the pending request is answered, and a new
        one is raised when more than `Watermark` bytes are still free, unless the stream has
        ended. */
    method RefillAfterWrite()
      modifies this`dataRequestPending
      ensures dataRequestPending == (refillChannelRegistered && !eof && free > Watermark)
    {
      dataRequestPending := false;
      if eof {
        // no refill after the end of the stream
      } else if free > Watermark {
        if refillChannelRegistered {
          dataRequestPending := true;
        }
      }
    }

    /** The refill policy at the end of `read`: a request is raised when none is pending and
        more than `Watermark` bytes are free, unless the stream has ended. */
    method RefillAfterRead()
      modifies this`dataRequestPending
      ensures dataRequestPending
         == (old(dataRequestPending) || (refillChannelRegistered && !eof && free > Watermark))
    {
      if eof {
        // no refill after the end of the stream
      } else if !dataRequestPending && free > Watermark {
        if refillChannelRegistered {
          dataRequestPending := true;
        }
      }
    }

    /** The copying part of `write`: as much of `data` as there is room for, in one run at the
        write cursor, or a tail run and then a front run when the free slots wrap. */
    method StoreData(data: seq<byte>) returns (bytesWritten: nat)
      requires Valid()
      modifies this`back, this`unread, this`free, this`contents, this`vacant, buffer
      ensures Valid()
      ensures bytesWritten == Min(|data|, old(free))
      ensures contents == old(contents) + data[..bytesWritten]
      ensures vacant == old(vacant)[bytesWritten..]
      ensures unread == old(unread) + bytesWritten && free == old(free) - bytesWritten
      ensures capacity > 0 ==> back == Wrap(old(back) + bytesWritten, capacity)
    {
      var length := |data|;
      var locfree := free;
      var bytesSingleWrite := locfree;
      if capacity - back < bytesSingleWrite {
        bytesSingleWrite := capacity - back;
      }

      if length <= bytesSingleWrite {
        // the whole of data fits in one run at the back
        StoreRun(data);
        bytesWritten := length;
        assert data[..bytesWritten] == data;
      } else if bytesSingleWrite > 0 && locfree == bytesSingleWrite {
        // the free slots end at the end of storage: fill them and stop
        StoreRun(data[..bytesSingleWrite]);
        bytesWritten := bytesSingleWrite;
      } else if bytesSingleWrite > 0 && locfree > bytesSingleWrite {
        // the free slots wrap: fill the tail, then continue at the front
        bytesWritten := StoreWrapped(data, bytesSingleWrite);
      } else {
        // no free slot and something to write: nothing is written
        bytesWritten := 0;
        assert data[..0] == [];
      }
    }

    /** The split branch of `write`: the free slots run past the end of storage and `data` does
        not fit into the `tailCount` slots before the end, so those are filled first and the
        rest continues at the front, as far as the free slots go. */
    method StoreWrapped(data: seq<byte>, tailCount: nat) returns (bytesWritten: nat)
      requires Valid() && 0 < tailCount == capacity - back && tailCount < free
      requires tailCount < |data|
      modifies this`back, this`unread, this`free, this`contents, this`vacant, buffer
      ensures Valid()
      ensures bytesWritten == Min(|data|, old(free))
      ensures contents == old(contents) + data[..bytesWritten]
      ensures vacant == old(vacant)[bytesWritten..]
      ensures unread == old(unread) + bytesWritten && free == old(free) - bytesWritten
      ensures back == Wrap(old(back) + bytesWritten, capacity)
    {
      var length := |data|;
      var locfree := free;
      var tail := data[..tailCount];
      StoreRun(tail);
      bytesWritten := tailCount;
      locfree := locfree - bytesWritten;
      assert back == 0;   // the tail run ended at the end of storage

      var bytesToWrite := length - bytesWritten;
      var frontCount := if bytesToWrite <= locfree then bytesToWrite else locfree;
      var front := data[bytesWritten..bytesWritten + frontCount];
      StoreRun(front);
      bytesWritten := bytesWritten + frontCount;
      assert tail + front == data[..bytesWritten];
      assert old(contents) + tail + front == old(contents) + (tail + front);
      assert old(vacant)[tailCount..][frontCount..] == old(vacant)[bytesWritten..];
    }

    /** `write(data, length)`: stores as much of `data` as there is room for. A write made
        while Seeking confirms the seek; any other write answers the pending refill request
        and raises a new one if enough space is still free. */
    method Write(data: seq<byte>) returns (bytesWritten: nat)
      requires Valid() && |data| < U32
      modifies this`back, this`unread, this`free, this`dataRequestPending,
               this`seekRequestPending, this`contents, this`vacant, buffer
      ensures Valid()
      ensures bytesWritten == Min(|data|, old(free))
      ensures contents == old(contents) + data[..bytesWritten]
      ensures vacant == old(vacant)[bytesWritten..]
      ensures unread == old(unread) + bytesWritten && free == old(free) - bytesWritten
      ensures capacity > 0 ==> back == Wrap(old(back) + bytesWritten, capacity)
      ensures old(state) == Seeking ==> !seekRequestPending && !dataRequestPending
      ensures old(state) == Idle ==> seekRequestPending == old(seekRequestPending)
      ensures old(state) == Idle ==>
        (dataRequestPending <==> refillChannelRegistered && !eof && free > Watermark)
    {
      bytesWritten := StoreData(data);

      if state == Seeking {
        // the write that confirms a seek
        seekRequestPending := false;
        dataRequestPending := false;
        return;
      }

      RefillAfterWrite();
    }

    /** `write(std::string&)`: the string's length is passed on as a `uint32_t`. */
    method WriteString(data: seq<byte>) returns (bytesWritten: nat)
      requires Valid()
      modifies this`back, this`unread, this`free, this`dataRequestPending,
               this`seekRequestPending, this`contents, this`vacant, buffer
      ensures Valid()
      ensures bytesWritten == Min(|data| % U32, old(free))
      ensures contents == old(contents) + data[..bytesWritten]
      ensures vacant == old(vacant)[bytesWritten..]
      ensures old(state) == Seeking ==> !seekRequestPending && !dataRequestPending
      ensures old(state) == Idle ==> seekRequestPending == old(seekRequestPending)
      ensures old(state) == Idle ==>
        (dataRequestPending <==> refillChannelRegistered && !eof && free > Watermark)
    {
      var length := |data| % U32;
      bytesWritten := Write(data[..length]);
      assert data[..length][..bytesWritten] == data[..bytesWritten];
    }

    /** The copying part of `read`: up to `len` of the oldest unread bytes, in one run at the
        read cursor, or a tail run and then a front run when the unread bytes wrap. */
    method TakeData(len: nat) returns (bytesRead: nat, bytes: seq<byte>)
      requires Valid() && unread > 0
      modifies this`index, this`unread, this`free, this`byteIndex, this`contents, this`vacant
      ensures Valid()
      ensures bytesRead == Min(len, old(unread)) && bytes == old(contents)[..bytesRead]
      ensures contents == old(contents)[bytesRead..] && vacant == old(vacant) + bytes
      ensures unread == old(unread) - bytesRead && free == old(free) + bytesRead
      ensures byteIndex == AddU32(old(byteIndex), bytesRead)
      ensures capacity > 0 ==> index == Wrap(old(index) + bytesRead, capacity)
    {
      var locunread := unread;
      var bytesSingleRead := locunread;
      if capacity - index < bytesSingleRead {
        bytesSingleRead := capacity - index;
      }

      if len <= bytesSingleRead {
        // the requested bytes lie in one run
        bytes := TakeRun(len);
        bytesRead := len;
      } else if bytesSingleRead > 0 && locunread == bytesSingleRead {
        // fewer bytes than requested, none of them at the front: take them all
        bytes := TakeRun(bytesSingleRead);
        bytesRead := bytesSingleRead;
      } else if bytesSingleRead > 0 && locunread > bytesSingleRead {
        // the unread bytes wrap: take the tail, then continue at the front
        bytesRead, bytes := TakeWrapped(len, bytesSingleRead);
      } else {
        // the source's default case: cannot happen, since unread > 0 and index < capacity
        assert false;
      }
    }

    /** The split branch of `read`: the unread bytes run past the end of storage and more than
        the `tailCount` bytes before the end are asked for, so those are taken first and the
        rest continues at the front.

        The source bounds the front run by the number of unread bytes the call started with;
        here it is bounded by the unread bytes left after the tail run, which is what the
        branch's comment and the matching branch of `write` do. */
    method TakeWrapped(len: nat, tailCount: nat) returns (bytesRead: nat, bytes: seq<byte>)
      requires Valid() && 0 < tailCount == capacity - index && tailCount < unread
      requires tailCount < len
      modifies this`index, this`unread, this`free, this`byteIndex, this`contents, this`vacant
      ensures Valid()
      ensures bytesRead == Min(len, old(unread)) && bytes == old(contents)[..bytesRead]
      ensures contents == old(contents)[bytesRead..] && vacant == old(vacant) + bytes
      ensures unread == old(unread) - bytesRead && free == old(free) + bytesRead
      ensures byteIndex == AddU32(old(byteIndex), bytesRead)
      ensures index == Wrap(old(index) + bytesRead, capacity)
    {
      var locunread := unread;
      var tail := TakeRun(tailCount);
      bytesRead := tailCount;
      assert index == 0;  // the tail run ended at the end of storage

      var bytesToRead := len - bytesRead;
      var remaining := locunread - tailCount;
      var frontCount := if bytesToRead <= remaining then bytesToRead else remaining;
      var front := TakeRun(frontCount);
      bytes := tail + front;
      bytesRead := bytesRead + frontCount;
      assert old(contents)[tailCount..][..frontCount] == old(contents)[tailCount..bytesRead];
      assert bytes == old(contents)[..bytesRead];
      assert old(vacant) + tail + front == old(vacant) + bytes;
      assert byteIndex == AddU32(old(byteIndex), bytesRead) by {
        AddU32Twice(old(byteIndex), tailCount, frontCount);
      }
    }

    /** `read(len, bytes)`: hands out up to `len` of the oldest unread bytes, oldest first. It
        asks for a refill first when fewer than `len` bytes are buffered, and again afterwards
        when enough space is free. */
    method Read(len: nat) returns (bytesRead: nat, bytes: seq<byte>)
      requires Valid() && len < U32
      modifies this`index, this`unread, this`free, this`byteIndex, this`contents, this`vacant,
               this`dataRequestPending
      ensures Valid()
      ensures bytesRead == Min(len, old(unread)) && bytes == old(contents)[..bytesRead]
      ensures contents == old(contents)[bytesRead..] && vacant == old(vacant) + bytes
      ensures unread == old(unread) - bytesRead && free == old(free) + bytesRead
      ensures byteIndex == AddU32(old(byteIndex), bytesRead)
      ensures capacity > 0 ==> index == Wrap(old(index) + bytesRead, capacity)
      ensures dataRequestPending == (old(dataRequestPending) || (refillChannelRegistered && !eof
        && (len > old(unread) || (old(unread) > 0 && free > Watermark))))
    {
      if !eof && len > unread {
        RequestData();
      }

      if unread == 0 {
        if eof {
          return 0, [];     // end of the stream
        } else {
          return 0, [];     // temporarily empty
        }
      }

      bytesRead, bytes := TakeData(len);
      RefillAfterRead();
    }

    /** `seek(mode, offset)`. The environment of the call is given as parameters:
        `clearedBy` is the 1 ms poll after which the producer has cleared a pending refill
        request, and `answer` is the producer's confirming write once the repositioning
        callback has been called, or None when no write comes within the 1 s wait.
        `request` is the call made to the callback, if any. A seek is refused, with nothing
        changed, when the target lies outside the file or the pending refill request is not
        cleared in time. */
    method Seek(mode: SeekMode, offset: int, clearedBy: nat, answer: Option<seq<byte>>)
      returns (r: int, request: Option<SeekRequest>)
      requires Valid()
      requires answer.Some? ==> |answer.value| < U32
      modifies this`back, this`index, this`unread, this`free, this`byteIndex, this`eof,
               this`dataRequestPending, this`seekRequestPending, this`state, this`contents,
               this`vacant, buffer
      ensures Valid()
      ensures var target := SeekTarget(mode, offset, old(byteIndex), fileSize);
        var refused := target < 0 || target > fileSize
                       || (old(dataRequestPending) && clearedBy >= DrainPolls);
        && (refused ==> r == -1 && request == None && unchanged(this) && unchanged(buffer))
        && (!refused && !seekCallbackRegistered ==>
              r == -1 && request == None && Emptied() && contents == [])
        && (!refused && seekCallbackRegistered ==>
              request == Some(SeekRequest(sessionHandle, target)))
        && (!refused && seekCallbackRegistered && answer.None? ==>
              && r == -1 && unread == 0 && free == capacity && index == 0 && back == 0
              && byteIndex == 0 && !eof && !dataRequestPending && seekRequestPending
              && state == Seeking && contents == [])
        && (!refused && seekCallbackRegistered && answer.Some? ==>
              && r == target && byteIndex == target % U32 && state == Idle
              && !seekRequestPending && !dataRequestPending && !eof && index == 0
              && contents == answer.value[..Min(|answer.value|, capacity)])
    {
      var newOffset := SeekTarget(mode, offset, byteIndex, fileSize);
      if newOffset < 0 || newOffset > fileSize {
        return -1, None;
      }

      var drained := AwaitDrain(dataRequestPending, clearedBy);
      if !drained {
        return -1, None;
      }

      r, request := Reposition(newOffset, answer);
    }

    /** The part of `seek` after the checks: the buffer is reset, the callback is asked to
        reposition the producer at `target`, and the producer's first write confirms it,
        after which reads continue from `target`. */
    method Reposition(target: nat, answer: Option<seq<byte>>)
      returns (r: int, request: Option<SeekRequest>)
      requires Valid()
      requires answer.Some? ==> |answer.value| < U32
      modifies this`back, this`index, this`unread, this`free, this`byteIndex, this`eof,
               this`dataRequestPending, this`seekRequestPending, this`state, this`contents,
               this`vacant, buffer
      ensures Valid()
      ensures !seekCallbackRegistered ==>
        r == -1 && request == None && Emptied() && contents == []
      ensures seekCallbackRegistered ==> request == Some(SeekRequest(sessionHandle, target))
      ensures seekCallbackRegistered && answer.None? ==>
        && r == -1 && unread == 0 && free == capacity && index == 0 && back == 0
        && byteIndex == 0 && !eof && !dataRequestPending && seekRequestPending
        && state == Seeking && contents == []
      ensures seekCallbackRegistered && answer.Some? ==>
        && r == target && byteIndex == target % U32 && state == Idle
        && !seekRequestPending && !dataRequestPending && !eof && index == 0
        && contents == answer.value[..Min(|answer.value|, capacity)]
    {
      var _ := Reset();
      if !seekCallbackRegistered {
        return -1, None;
      }
      seekRequestPending := true;
      state := Seeking;
      request := Some(SeekRequest(sessionHandle, target));

      match answer
      case None =>
        // seekRequestCV.wait_for timed out
        return -1, request;
      case Some(data) =>
        var _ := Write(data);

      state := Idle;
      byteIndex := target % U32;
      r := target;
    }
  }
}
