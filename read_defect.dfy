/** The counters of `read` in src/databuffer.cpp as the source computes them, including the
    split branch whose front run is bounded by the unread count the call started with
    (`locunread`) instead of the count left after the tail run. */
module ReadDefect {
  import opened Ring

  /** What a read returns and leaves behind in the two counters it changes. */
  datatype ReadCounts = ReadCounts(bytesRead: nat, unread: nat, free: nat)

  /** The counts a read of `len` bytes should produce: the number of bytes handed out is the
      smaller of `len` and the number of unread bytes, and that many slots become free. */
  function IntendedCounts(unread: nat, free: nat, len: nat): (c: ReadCounts)
    ensures c.bytesRead <= unread && c.bytesRead <= len
    ensures c.bytesRead == len || c.bytesRead == unread
    ensures c.unread + c.bytesRead == unread && c.free == free + c.bytesRead
  {
    var n := Min(len, unread);
    ReadCounts(n, unread - n, free + n)
  }

  /** `read`'s three branches on a non-empty buffer with the read cursor at slot `index`, in
      `uint32_t` arithmetic: one run, all of a tail run, or a tail run and then a front run of
      `min(len - bytesSingleRead, locunread)` bytes. */
  function ReadCountsAsWritten(capacity: nat, index: nat, unread: nat, free: nat, len: nat)
    : (c: ReadCounts)
    requires index < capacity < U32 && 0 < unread && unread + free == capacity && len < U32
    ensures 0 < c.bytesRead <= len || (len == 0 && c.bytesRead == 0)
    ensures c.unread == SubU32(unread, c.bytesRead) && c.free == AddU32(free, c.bytesRead)
  {
    var locunread := unread;
    var bytesSingleRead := if capacity - index < locunread then capacity - index else locunread;
    if len <= bytesSingleRead then
      ReadCounts(len, unread - len, free + len)
    else if bytesSingleRead > 0 && locunread == bytesSingleRead then
      ReadCounts(bytesSingleRead, unread - bytesSingleRead, free + bytesSingleRead)
    else
      // the third branch; the source's default case cannot be reached, since bytesSingleRead
      // is positive whenever unread is
      assert bytesSingleRead > 0 && locunread > bytesSingleRead;
      var bytesToRead := len - bytesSingleRead;
      var front := if bytesToRead <= locunread then bytesToRead else locunread;
      ReadCounts(bytesSingleRead + front,
                 SubU32(unread - bytesSingleRead, front),
                 AddU32(free + bytesSingleRead, front))
  }

  /** The source's counts are the intended ones exactly when the unread bytes do not wrap or
      no more bytes are asked for than are unread. */
  lemma AsWrittenAgreesUnlessWrappedOverRead(capacity: nat, index: nat, unread: nat, free: nat,
                                             len: nat)
    requires index < capacity < U32 && 0 < unread && unread + free == capacity && len < U32
    ensures ReadCountsAsWritten(capacity, index, unread, free, len)
            == IntendedCounts(unread, free, len)
        <==> unread <= capacity - index || len <= unread
  {
    var c := ReadCountsAsWritten(capacity, index, unread, free, len);
    if capacity - index < unread && unread < len {
      SplitReadOverReads(capacity, index, unread, free, len);
      assert c.bytesRead != IntendedCounts(unread, free, len).bytesRead;
    }
  }

  /** When the unread bytes wrap and more are asked for than are unread, the source hands out
      more bytes than were unread (the surplus comes from free slots), and the unread counter
      wraps below zero to a value near 2^32. `free + bytesRead` exceeds the capacity and the free
      counter is that sum mod 2^32, so for capacities up to 2^31 the free counter passes the
      capacity; above that it can wrap a second time and land below it. */
  lemma SplitReadOverReads(capacity: nat, index: nat, unread: nat, free: nat, len: nat)
    requires index < capacity < U32 && 0 < unread && unread + free == capacity && len < U32
    requires capacity - index < unread && unread < len
    ensures var c := ReadCountsAsWritten(capacity, index, unread, free, len);
      && unread < c.bytesRead <= len
      && c.unread == U32 - (c.bytesRead - unread)
      && c.free == (free + c.bytesRead) % U32
      && free + c.bytesRead > capacity
      && (2 * capacity <= U32 ==> c.free > capacity)
  {
    var single := capacity - index;
    var front := if len - single <= unread then len - single else unread;
    AddU32IsMod(free + single, front);
  }

  /** A capacity-7 buffer holding 4 unread bytes in slots 5, 6, 0 and 1, asked for 5 bytes:
      the source reads 5, leaves 2^32 - 1 unread bytes and 8 free slots. */
  lemma SplitReadCounterexample()
    ensures ReadCountsAsWritten(7, 5, 4, 3, 5) == ReadCounts(5, U32 - 1, 8)
    ensures IntendedCounts(4, 3, 5) == ReadCounts(4, 0, 7)
  {
  }

  /** Six unread bytes in slots 5, 6 and 0 to 3 of a 7-byte buffer. A read of exactly the six
      gives the intended counts; a read of 7 returns 7 bytes, the last from the free slot 4,
      and leaves 2^32 - 1 unread bytes and 8 free slots. */
  lemma WrapAroundOverRead()
    ensures ReadCountsAsWritten(7, 5, 6, 1, 6) == IntendedCounts(6, 1, 6)
    ensures ReadCountsAsWritten(7, 5, 6, 1, 7) == ReadCounts(7, U32 - 1, 8)
    ensures IntendedCounts(6, 1, 7) == ReadCounts(6, 0, 7)
  {
  }
}
