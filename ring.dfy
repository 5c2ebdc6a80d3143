/** Index arithmetic of a fixed-size wraparound store: a cursor that is reset to slot 0
    when it runs past the last slot, the run of slots that starts at a cursor and wraps,
    and the two facts that the buffer's write and read rest on (appending a contiguous
    segment at the write cursor, consuming a prefix at the read cursor). */
module Ring {

  /** One storage byte (`uint8_t`). */
  newtype byte = x: int | 0 <= x < 256

  /** 2^32: the modulus of the source's `uint32_t` counters. */
  const U32: nat := 0x1_0000_0000

  function Min(a: nat, b: nat): (r: nat)
    ensures r <= a && r <= b
    ensures r == a || r == b
  {
    if a <= b then a else b
  }

  /** A position at most one lap past the end, brought back into `[0, cap)`. For
      `p <= cap` this is the pointer reset `if (p >= end) p = buffer;` applied to
      `buffer + p`; below `2 * cap` it is `p % cap`. */
  function Wrap(p: nat, cap: nat): (r: nat)
    requires p < 2 * cap
    ensures r < cap
  {
    if p < cap then p else p - cap
  }

  /** `Wrap` is the remainder modulo the capacity. */
  lemma WrapIsMod(p: nat, cap: nat)
    requires p < 2 * cap
    ensures Wrap(p, cap) == p % cap
  {
    if p >= cap {
      assert p == 1 * cap + (p - cap);
    }
  }

  /** `uint32_t` addition of two `uint32_t` values. */
  function AddU32(a: nat, b: nat): (r: nat)
    requires a < U32 && b < U32
    ensures r < U32
  {
    if a + b < U32 then a + b else a + b - U32
  }

  /** `uint32_t` subtraction of two `uint32_t` values: wraps below zero. */
  function SubU32(a: nat, b: nat): (r: nat)
    requires a < U32 && b < U32
    ensures r < U32
  {
    if b <= a then a - b else a + U32 - b
  }

  /** `AddU32` is addition modulo 2^32. */
  lemma AddU32IsMod(a: nat, b: nat)
    requires a < U32 && b < U32
    ensures AddU32(a, b) == (a + b) % U32
  {
    WrapIsMod(a + b, U32);
  }

  /** `SubU32` is subtraction modulo 2^32. */
  lemma SubU32IsMod(a: nat, b: nat)
    requires a < U32 && b < U32
    ensures SubU32(a, b) == (a - b) % U32
  {
  }

  /** Two `uint32_t` additions in a row add their sum, when that sum is itself in range. */
  lemma AddU32Twice(a: nat, b: nat, c: nat)
    requires a < U32 && b < U32 && c < U32 && b + c < U32
    ensures AddU32(AddU32(a, b), c) == AddU32(a, b + c)
  {
  }

  /** `r` is the run of storage `s` that starts at slot `start`: its first byte is the one in
      slot `start`, and the rest is the run that starts at the next slot, which is slot 0 after
      the last one. */
  ghost predicate RunAt(s: seq<byte>, start: nat, r: seq<byte>)
    decreases |r|
  {
    |r| == 0
    || (&& start < |s| && |r| <= |s| && r[0] == s[start]
        && RunAt(s, Wrap(start + 1, |s|), r[1..]))
  }

  /** The same, slot by slot: byte `k` of `r` is the one in slot `start + k`, wrapped. */
  ghost predicate InSlots(s: seq<byte>, start: nat, r: seq<byte>)
  {
    && |r| <= |s|
    && (|r| > 0 ==> start < |s|)
    && forall k {:trigger r[k]} :: 0 <= k < |r| ==> r[k] == s[Wrap(start + k, |s|)]
  }

  lemma {:induction false} RunAtIndex(s: seq<byte>, start: nat, r: seq<byte>)
    ensures RunAt(s, start, r) <==> InSlots(s, start, r)
    decreases |r|
  {
    if |r| > 0 && start < |s| && |r| <= |s| {
      var next := Wrap(start + 1, |s|);
      RunAtIndex(s, next, r[1..]);
      if InSlots(s, start, r) {
        forall k | 0 <= k < |r| - 1 ensures r[1..][k] == s[Wrap(next + k, |s|)] {
          assert Wrap(next + k, |s|) == Wrap(start + (k + 1), |s|);
          assert r[k + 1] == s[Wrap(start + (k + 1), |s|)];
        }
      }
      if RunAt(s, start, r) {
        forall k | 0 <= k < |r| ensures r[k] == s[Wrap(start + k, |s|)] {
          if k > 0 {
            assert Wrap(next + (k - 1), |s|) == Wrap(start + k, |s|);
            assert r[1..][k - 1] == s[Wrap(next + (k - 1), |s|)];
          }
        }
      }
    }
  }

  /** All of storage, read from slot 0, is a run: an empty buffer's free slots. */
  lemma WholeRun(s: seq<byte>)
    ensures RunAt(s, 0, s)
  {
    forall k | 0 <= k < |s| ensures s[k] == s[Wrap(k, |s|)] {
    }
    RunAtIndex(s, 0, s);
  }

  /** Storage `s` with the slots `[at, at + |d|)` overwritten by `d`: a `memcpy` into it. */
  function Splice(s: seq<byte>, at: nat, d: seq<byte>): (t: seq<byte>)
    requires at + |d| <= |s|
    ensures |t| == |s|
    ensures forall j :: 0 <= j < |s| ==> t[j] == if at <= j < at + |d| then d[j - at] else s[j]
  {
    s[..at] + d + s[at + |d|..]
  }

  /** Writing `d` into the contiguous slots just past the run `c` that starts at `start` makes
      the run grow by exactly `d`, when `d` fits into the free slots there without passing the
      end of storage. */
  lemma ExtendSlots(s: seq<byte>, start: nat, c: seq<byte>, p: nat, d: seq<byte>)
    requires InSlots(s, start, c)
    requires start < |s| && |c| + |d| <= |s| && p == Wrap(start + |c|, |s|) && p + |d| <= |s|
    ensures InSlots(Splice(s, p, d), start, c + d)
  {
    var t, cap, n, m := Splice(s, p, d), |s|, |c|, |d|;
    forall k | 0 <= k < n + m ensures (c + d)[k] == t[Wrap(start + k, cap)] {
      var slot := Wrap(start + k, cap);
      if k < n {
        // a byte of the old run: its slot lies outside the segment
        assert slot < p || p + m <= slot;
        assert c[k] == s[slot];
      } else {
        assert slot == p + (k - n);
      }
    }
  }

  /** Writing `d` into the first slots of the free run `v` at `p` leaves the rest of it as it
      was: it is the run that starts just past the segment. */
  lemma ShrinkSlots(s: seq<byte>, p: nat, v: seq<byte>, d: seq<byte>)
    requires InSlots(s, p, v) && p < |s| && |d| <= |v| && p + |d| <= |s|
    ensures InSlots(Splice(s, p, d), Wrap(p + |d|, |s|), v[|d|..])
  {
    var t, cap, m := Splice(s, p, d), |s|, |d|;
    var q := Wrap(p + m, cap);
    forall k | 0 <= k < |v| - m ensures v[m..][k] == t[Wrap(q + k, cap)] {
      var slot := Wrap(p + m + k, cap);
      assert Wrap(q + k, cap) == slot;
      // a slot of the free run past the segment
      assert slot < p || p + m <= slot;
      assert v[m + k] == s[slot];
    }
  }

  /** Writing `d` into the contiguous slots just past the run `c` that starts at `start`, where
      `v` is the run of free slots there and `d` fits into it without passing the end of storage:
      the unread run grows by exactly `d`, the free run loses exactly its first `|d|` slots, and
      the cursor after the segment is the wrapped end of the grown run. */
  lemma AppendSegment(s: seq<byte>, start: nat, c: seq<byte>, p: nat, v: seq<byte>, d: seq<byte>)
    requires RunAt(s, start, c) && RunAt(s, p, v)
    requires start < |s| && |c| + |v| == |s| && p == Wrap(start + |c|, |s|)
    requires |d| <= |v| && p + |d| <= |s|
    ensures Wrap(p + |d|, |s|) == Wrap(start + |c| + |d|, |s|)
    ensures RunAt(Splice(s, p, d), start, c + d)
    ensures RunAt(Splice(s, p, d), Wrap(p + |d|, |s|), v[|d|..])
  {
    var t := Splice(s, p, d);
    RunAtIndex(s, start, c);
    RunAtIndex(s, p, v);
    ExtendSlots(s, start, c, p, d);
    ShrinkSlots(s, p, v, d);
    RunAtIndex(t, start, c + d);
    RunAtIndex(t, Wrap(p + |d|, |s|), v[|d|..]);
  }

  /** Taking the first `m` bytes of the run `c` at `start` leaves the run that starts `m` slots
      further on. */
  lemma ConsumeSlots(s: seq<byte>, start: nat, c: seq<byte>, m: nat)
    requires InSlots(s, start, c) && start < |s| && m <= |c|
    ensures InSlots(s, Wrap(start + m, |s|), c[m..])
  {
    var cap := |s|;
    forall k | 0 <= k < |c| - m ensures c[m..][k] == s[Wrap(Wrap(start + m, cap) + k, cap)] {
      assert Wrap(Wrap(start + m, cap) + k, cap) == Wrap(start + m + k, cap);
    }
  }

  /** The first `m` bytes of the run `c` at `start`, when they do not pass the end of storage,
      are the contiguous slice that a single `memcpy` copies out. */
  lemma PrefixSlots(s: seq<byte>, start: nat, c: seq<byte>, m: nat)
    requires InSlots(s, start, c) && m <= |c| && start + m <= |s|
    ensures c[..m] == s[start..start + m]
  {
    forall k | 0 <= k < m ensures c[..m][k] == s[start..start + m][k] {
      assert c[k] == s[Wrap(start + k, |s|)];
    }
  }

  /** Taking the first `m` bytes of the run `c` at `start`: what is left is the run that starts
      `m` slots further on, and when the `m` slots do not pass the end of storage they are the
      contiguous slice that a single `memcpy` copies out. */
  lemma Consume(s: seq<byte>, start: nat, c: seq<byte>, m: nat)
    requires RunAt(s, start, c) && start < |s| && m <= |c|
    ensures RunAt(s, Wrap(start + m, |s|), c[m..])
    ensures start + m <= |s| ==> c[..m] == s[start..start + m]
  {
    RunAtIndex(s, start, c);
    ConsumeSlots(s, start, c, m);
    RunAtIndex(s, Wrap(start + m, |s|), c[m..]);
    if start + m <= |s| {
      PrefixSlots(s, start, c, m);
    }
  }

  /** The free run `v` at `p`, just past the run `c` at `start`, followed by the first `m`
      bytes of `c` is again a run at `p`. */
  lemma ReleaseSlots(s: seq<byte>, start: nat, c: seq<byte>, p: nat, v: seq<byte>, m: nat)
    requires InSlots(s, start, c) && InSlots(s, p, v)
    requires start < |s| && |c| + |v| == |s| && p == Wrap(start + |c|, |s|) && m <= |c|
    ensures InSlots(s, p, v + c[..m])
  {
    var cap := |s|;
    forall k | 0 <= k < |v| + m ensures (v + c[..m])[k] == s[Wrap(p + k, cap)] {
      if |v| <= k {
        assert Wrap(p + k, cap) == Wrap(start + (k - |v|), cap);
        assert c[k - |v|] == s[Wrap(start + (k - |v|), cap)];
      }
    }
  }

  /** The slots a read frees join the end of the free run: the bytes in them stay in storage
      until they are overwritten. */
  lemma Release(s: seq<byte>, start: nat, c: seq<byte>, p: nat, v: seq<byte>, m: nat)
    requires RunAt(s, start, c) && RunAt(s, p, v)
    requires start < |s| && |c| + |v| == |s| && p == Wrap(start + |c|, |s|) && m <= |c|
    ensures RunAt(s, p, v + c[..m])
  {
    RunAtIndex(s, start, c);
    RunAtIndex(s, p, v);
    ReleaseSlots(s, start, c, p, v, m);
    RunAtIndex(s, p, v + c[..m]);
  }

  /** The layout of a ring over storage `s`: the unread run `c` at the read cursor `index` and
      the free run `v` at the write cursor `back` together cover the storage, both cursors are
      slots, and the write cursor is just past the unread run. */
  ghost predicate Layout(s: seq<byte>, index: nat, back: nat, c: seq<byte>, v: seq<byte>)
  {
    && |c| + |v| == |s|
    && (|s| == 0 ==> index == 0 && back == 0)
    && (|s| > 0 ==> index < |s| && back == Wrap(index + |c|, |s|))
    && RunAt(s, index, c) && RunAt(s, back, v)
  }

  /** An empty ring with both cursors at slot 0: all of storage is free. */
  lemma EmptyLayout(s: seq<byte>)
    ensures Layout(s, 0, 0, [], s)
  {
    WholeRun(s);
  }

  /** One copy of `m` bytes out of the ring at the read cursor, which then moves on and is
      reset to slot 0 when it reaches the end: the bytes copied are the first `m` unread
      ones, they leave the unread run and their slots join the end of the free run. */
  lemma TakeLayout(s: seq<byte>, index: nat, back: nat, c: seq<byte>, v: seq<byte>, m: nat,
                   next: nat)
    requires Layout(s, index, back, c, v) && m <= |c| && index + m <= |s|
    requires next == if index + m >= |s| then 0 else index + m
    ensures Layout(s, next, back, c[m..], v + c[..m])
    ensures c[..m] == s[index..index + m]
    ensures |s| > 0 ==> next == Wrap(index + m, |s|)
  {
    if |s| > 0 {
      Consume(s, index, c, m);
      Release(s, index, c, back, v, m);
      assert Wrap(next + (|c| - m), |s|) == Wrap(index + |c|, |s|);
    }
  }

  /** One copy of `d` into the ring at the write cursor, which then moves on and is reset to
      slot 0 when it reaches the end: `d` is appended to the unread run and takes the first
      slots of the free run. */
  lemma StoreLayout(s: seq<byte>, index: nat, back: nat, c: seq<byte>, v: seq<byte>,
                    d: seq<byte>, next: nat)
    requires Layout(s, index, back, c, v) && |d| <= |v| && back + |d| <= |s|
    requires next == if back + |d| >= |s| then 0 else back + |d|
    ensures Layout(Splice(s, back, d), index, next, c + d, v[|d|..])
    ensures |s| > 0 ==> next == Wrap(back + |d|, |s|)
  {
    if |s| > 0 {
      AppendSegment(s, index, c, back, v, d);
      assert next == Wrap(back + |d|, |s|);
    } else {
      assert c + d == c && Splice(s, back, d) == s;
    }
  }
}
