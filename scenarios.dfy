/** Fixed call sequences on freshly initialised buffers: the four write cases of
    test/test_databuffer_write_cases.cpp, filling and draining in order, a write and a read
    that both straddle the end of storage, and the outcomes of a seek. */
module Scenarios {
  import opened Ring
  import opened DataBuffers

  /** A 7-byte buffer after the writes [0, 1, 2] and [3, 4, 5]: one slot is left free. */
  method TwoWrites() returns (b: DataBuffer)
    ensures fresh(b) && fresh(b.buffer) && b.Valid()
    ensures b.capacity == 7 && b.contents == [0, 1, 2, 3, 4, 5] && b.free == 1
  {
    b := new DataBuffer();
    var _ := b.Init(7);
    var _ := b.Write([0, 1, 2]);
    var _ := b.Write([3, 4, 5]);
  }

  /** After two writes that fit, a read of three bytes returns the first three; four slots
      are then free, so after [6] only three of the next four bytes are accepted, and a read
      of everything returns the rest in the order it was written. */
  method FillAndDrain() returns (first: seq<byte>, second: seq<byte>, accepted: nat)
    ensures first == [0, 1, 2] && second == [3, 4, 5, 6, 7, 8, 9]
    ensures accepted == 3
  {
    var b := TwoWrites();
    var _, out1 := b.Read(3);
    first := out1;
    var _ := b.Write([6]);
    accepted := b.Write([7, 8, 9, 10]);
    assert b.contents == [3, 4, 5, 6, 7, 8, 9];
    var _, out2 := b.Read(7);
    second := out2;
  }

  /** A 7-byte buffer after five bytes were written and read: empty, both cursors at slot 5. */
  method EmptyAtSlotFive() returns (b: DataBuffer)
    ensures fresh(b) && fresh(b.buffer) && b.Valid()
    ensures b.capacity == 7 && b.index == 5 && b.back == 5 && b.contents == []
  {
    b := new DataBuffer();
    var _ := b.Init(7);
    var _ := b.Write([0, 1, 2, 3, 4]);
    var _, _ := b.Read(5);
  }

  /** From slot 5 of a 7-byte buffer, a 6-byte block lands two bytes in the tail slots 5 and
      6 and four in the front slots 0 to 3, and a read of the six unread bytes returns the
      block unchanged. A read of 7 here would take the split branch with `len > unread`,
      where the source over-reads (`ReadDefect.WrapAroundOverRead`). */
  method WrapAround(block: seq<byte>) returns (tail: seq<byte>, front: seq<byte>,
                                              out: seq<byte>)
    requires |block| == 6
    ensures tail == block[..2] && front == block[2..]
    ensures out == block
  {
    var b := EmptyAtSlotFive();
    var _ := b.Write(block);
    ghost var s, c := b.buffer[..], b.contents;
    Consume(s, 5, c, 2);
    Consume(s, 0, c[2..], 4);
    tail := b.buffer[5..7];
    front := b.buffer[0..4];
    var _, bytes := b.Read(b.unread);
    out := bytes;
  }

  /** A seek with no repositioning callback registered fails, and the buffer is left empty. */
  method SeekWithoutCallback() returns (r: int, bytesRead: nat)
    ensures r == -1 && bytesRead == 0
  {
    var b := new DataBuffer();
    var _ := b.Init(7);
    b.SetFileSize(100);
    var _ := b.Write([1, 2, 3]);
    var request, bytes;
    r, request := b.Seek(Start, 10, 0, None);
    bytesRead, bytes := b.Read(3);
  }

  /** A seek past the end of the file is refused: the unread bytes and the position stay. */
  method SeekOutOfBounds() returns (r: int, bytes: seq<byte>, position: nat)
    ensures r == -1 && bytes == [1, 2] && position == 2
  {
    var b := new DataBuffer();
    var _ := b.Init(7);
    b.SetFileSize(100);
    var _ := b.Write([1, 2, 3]);
    var request, bytesRead;
    r, request := b.Seek(Start, 101, 0, None);
    bytesRead, bytes := b.Read(2);
    position := b.byteIndex;
  }

  /** A 7-byte buffer of a 100-byte file in session 4, with a repositioning callback
      registered and the bytes [1, 2, 3] unread. */
  method RegisteredSession() returns (b: DataBuffer)
    ensures fresh(b) && fresh(b.buffer) && b.Valid()
    ensures b.capacity == 7 && b.fileSize == 100 && b.sessionHandle == 4
    ensures b.seekCallbackRegistered && b.byteIndex == 0 && b.contents == [1, 2, 3]
  {
    b := new DataBuffer();
    var _ := b.Init(7);
    b.SetFileSize(100);
    b.SetSessionHandle(4);
    b.SetSeekRequestCallback(true);
    var _ := b.Write([1, 2, 3]);
  }

  /** The full handshake: the callback is asked to reposition at byte 10 of session 4, the
      producer's write confirms it, and reads continue from byte 10 with the new data. */
  method SeekHandshake() returns (r: int, request: Option<SeekRequest>, bytes: seq<byte>,
                                  position: nat)
    ensures r == 10 && request == Some(SeekRequest(4, 10))
    ensures bytes == [7, 8] && position == 12
  {
    var b := RegisteredSession();
    r, request := b.Seek(Start, 10, 0, Some([7, 8, 9]));
    var bytesRead;
    bytesRead, bytes := b.Read(2);
    position := b.byteIndex;
  }

  /** A seek whose confirming write does not come within the wait fails but leaves the
      buffer Seeking; a write arriving later clears the pending request, and the buffer
      still reports Seeking, since only `seek` itself returns to Idle. */
  method SeekTimesOut() returns (r: int, seekingAfter: bool, pendingAfter: bool,
                                 seekingAfterLateWrite: bool, pendingAfterLateWrite: bool)
    ensures r == -1 && seekingAfter && pendingAfter
    ensures seekingAfterLateWrite && !pendingAfterLateWrite
  {
    var b := RegisteredSession();
    var request;
    r, request := b.Seek(Start, 10, 0, None);
    seekingAfter, pendingAfter := b.IsSeeking(), b.seekRequestPending;
    var _ := b.Write([5]);
    seekingAfterLateWrite, pendingAfterLateWrite := b.IsSeeking(), b.seekRequestPending;
  }

  /** `std::iota` into a byte vector: `n` consecutive values from `start`. */
  function Iota(start: nat, n: nat): (s: seq<byte>)
    requires start + n <= 256
    ensures |s| == n
    ensures forall i :: 0 <= i < n ==> s[i] as int == start + i
    decreases n
  {
    if n == 0 then [] else [start as byte] + Iota(start + 1, n - 1)
  }

  /** Each byte is its distance from the first one more than the first: the values are
      consecutive. */
  predicate Monotonic(s: seq<byte>)
  {
    forall i :: 0 < i < |s| ==> s[i] as int == s[0] as int + i
  }

  /** `is_monotonic` as the driver writes it: every difference of neighbours is 1. */
  predicate UnitSteps(s: seq<byte>)
  {
    forall i :: 0 <= i < |s| - 1 ==> s[i + 1] as int - s[i] as int == 1
  }

  /** Unit steps between neighbours add up to the distance from the first byte. */
  lemma {:induction false} StepsFromFirst(s: seq<byte>, i: nat)
    requires UnitSteps(s) && i < |s|
    ensures s[i] as int == s[0] as int + i
    decreases i
  {
    if i > 0 {
      StepsFromFirst(s, i - 1);
      assert s[i] as int - s[i - 1] as int == 1;
    }
  }

  /** The driver's neighbour-by-neighbour check and `Monotonic` accept the same sequences. */
  lemma MonotonicSteps(s: seq<byte>)
    ensures Monotonic(s) <==> UnitSteps(s)
  {
    if UnitSteps(s) {
      forall i | 0 < i < |s|
        ensures s[i] as int == s[0] as int + i
      {
        StepsFromFirst(s, i);
      }
    }
    if Monotonic(s) {
      forall i | 0 <= i < |s| - 1
        ensures s[i + 1] as int - s[i] as int == 1
      {
        if i > 0 {
          assert s[i] as int == s[0] as int + i;
        }
        assert s[i + 1] as int == s[0] as int + (i + 1);
      }
    }
  }

  /** What stays of a run of consecutive values after dropping its first `k`, followed by the
      first `m` values after it, is again a run of consecutive values. */
  lemma IotaJoin(n: nat, k: nat, w: nat, m: nat)
    requires k <= n && m <= w && n + w <= 256
    ensures Iota(0, n)[k..] + Iota(n, w)[..m] == Iota(k, n - k + m)
    ensures Iota(0, n)[..k] == Iota(0, k)
    ensures Monotonic(Iota(k, n - k + m)) && Monotonic(Iota(0, k))
  {
    assert Iota(0, n)[..k] == Iota(0, k);
    var joined := Iota(0, n)[k..] + Iota(n, w)[..m];
    var run := Iota(k, n - k + m);
    forall i | 0 <= i < |run|
      ensures joined[i] == run[i]
    {
      if i < n - k {
        assert joined[i] == Iota(0, n)[k + i];
      } else {
        assert joined[i] == Iota(n, w)[i - (n - k)];
      }
    }
  }

  /** The first half of `test_databuffer_case`: a new buffer of `capacity` bytes takes the
      warm-up block and, when `nRead > 0`, gives back its first `nRead` bytes. */
  method WarmedUp(capacity: nat, nWarmup: nat, nRead: nat)
    returns (b: DataBuffer, warmupRead: seq<byte>)
    requires capacity < U32 && nRead <= nWarmup <= capacity && nWarmup <= 256
    ensures fresh(b) && fresh(b.buffer) && b.Valid() && b.capacity == capacity
    ensures warmupRead == Iota(0, nWarmup)[..nRead]
    ensures b.contents == Iota(0, nWarmup)[nRead..] && b.free == capacity - nWarmup + nRead
  {
    b := new DataBuffer();
    var _ := b.Init(capacity);
    var warmup := Iota(0, nWarmup);
    var _ := b.Write(warmup);
    assert warmup[..nWarmup] == warmup;
    warmupRead := [];
    if nRead > 0 {
      var _, bytes := b.Read(nRead);
      warmupRead := bytes;
    }
  }

  /** `test_databuffer_case`: a buffer of `capacity` bytes takes a warm-up block, gives back
      its first `nRead` bytes, accepts as much of a second block as fits, and then gives back
      everything it holds, all of it consecutive values. The final read asks for exactly the
      unread count, so it never takes the over-reading path of the split branch. */
  method WriteCase(capacity: nat, nWarmup: nat, nRead: nat, nWrite: nat)
    returns (warmupRead: seq<byte>, nActual: nat, finalRead: seq<byte>)
    requires capacity < U32 && nRead <= nWarmup <= capacity && nWarmup + nWrite <= 256
    ensures warmupRead == Iota(0, nRead) && Monotonic(warmupRead)
    ensures nActual == Min(nWrite, capacity - nWarmup + nRead)
    ensures finalRead == Iota(nRead, nWarmup - nRead + nActual) && Monotonic(finalRead)
  {
    var b;
    b, warmupRead := WarmedUp(capacity, nWarmup, nRead);
    nActual := b.Write(Iota(nWarmup, nWrite));
    var _, bytes := b.Read(nWarmup - nRead + nActual);
    finalRead := bytes;
    IotaJoin(nWarmup, nRead, nWrite, nActual);
  }

  /** The four cases of the test driver, one per branch of `write`: a single write at the
      back (3 of 3 accepted), a write that fills the space at the back (3 of 4), and two
      writes split between the back and the front (5 of 5 and 5 of 6). */
  method WriteCases() returns (accepted: seq<nat>)
    ensures accepted == [3, 3, 5, 5]
  {
    var _, n1, _ := WriteCase(7, 3, 0, 3);
    var _, n2, _ := WriteCase(7, 4, 0, 4);
    var _, n3, _ := WriteCase(7, 5, 3, 5);
    var _, n4, _ := WriteCase(7, 5, 3, 6);
    accepted := [n1, n2, n3, n4];
  }
}
