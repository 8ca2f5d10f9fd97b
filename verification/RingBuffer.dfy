/** The byte ring with a gap (beken378/driver/audio/ring_buffer.c).  The read position may rest on the
    capacity, the write position wraps to 0 as soon as the read position allows it. */
module RingBuffer {
  import opened Numbers
  import opened RingQueue

  const RWP_SAFE_INTERVAL := 4

  // ------------------------------------------------------------------------------------------------
  // The index arithmetic, shared by the rings whose other side is a DMA channel.

  function Fill(cap: nat, wp: nat, rp: nat): int {
    if wp >= rp then wp - rp else cap - rp + wp
  }

  function Room(cap: nat, wp: nat, rp: nat): int {
    if wp >= rp then cap - wp + rp else rp - wp
  }

  function Free(cap: nat, wp: nat, rp: nat): int {
    if Room(cap, wp, rp) > RWP_SAFE_INTERVAL then Room(cap, wp, rp) - RWP_SAFE_INTERVAL else 0
  }

  /** The most that is ever stored. */
  function Most(cap: nat): nat {
    if cap > RWP_SAFE_INTERVAL then cap - RWP_SAFE_INTERVAL else 0
  }

  /** A position at the capacity is the slot 0. */
  function Norm(p: nat, cap: nat): (i: nat)
    requires 0 < cap && p <= cap
    ensures i < cap
  {
    if p == cap then 0 else p
  }

  /** What holds of the positions whenever no call is under way. */
  predicate Positions(cap: nat, wp: nat, rp: nat) {
    wp < cap && rp <= cap && Fill(cap, wp, rp) <= Most(cap)
  }

  function Min(a: nat, b: nat): (m: nat)
    ensures m <= a && m <= b && (m == a || m == b)
  {
    if a < b then a else b
  }

  /** How many bytes a read takes, and where it leaves the read position. */
  function ReadPlan(cap: nat, wp: nat, rp: nat, want: nat): (nat, nat)
    requires wp <= cap && rp <= cap
  {
    if want == 0 then (0, rp)
    else if wp >= rp then (Min(want, wp - rp), rp + Min(want, wp - rp))
    else if want > cap - rp then
      if want - (cap - rp) > wp then (cap - rp + wp, wp) else (want, want - (cap - rp))
    else (want, rp + want)
  }

  predicate WriteFits(cap: nat, wp: nat, rp: nat, n: nat) {
    n > 0 && Room(cap, wp, rp) >= n + RWP_SAFE_INTERVAL
  }

  /** The write position right after a write of `n` bytes that goes around the end, or does not. */
  function WriteMoves(cap: nat, wp: nat, rp: nat, n: nat): (p: int)
  {
    if wp >= rp && cap - wp < n then n - (cap - wp) else wp + n
  }

  /** The last step of a write. */
  function Wrapped(cap: nat, wp: nat, rp: nat): nat {
    if wp >= cap && rp != 0 then 0 else wp
  }

  /** A read takes as much as is wanted and there, and moves the start of the queue on by as much. */
  lemma ReadTakes(cap: nat, wp: nat, rp: nat, want: nat)
    requires cap > 0 && wp <= cap && rp <= cap && 0 <= Fill(cap, wp, rp) < cap
    ensures var (n, rp') := ReadPlan(cap, wp, rp, want);
      && n == Min(want, Fill(cap, wp, rp)) && rp' <= cap && Norm(rp', cap) == Slot(Norm(rp, cap), n, cap)
      && Fill(cap, wp, rp') == Fill(cap, wp, rp) - n
  {
  }

  /** A write of `n` bytes is done exactly when they are at most the free size; it starts at the slot
      behind the queue, lengthens the queue by `n` and leaves valid positions. */
  lemma WriteLengthens(cap: nat, wp: nat, rp: nat, n: nat)
    requires Positions(cap, wp, rp) && n > 0
    ensures WriteFits(cap, wp, rp, n) <==> n <= Free(cap, wp, rp)
    ensures wp == Slot(Norm(rp, cap), Fill(cap, wp, rp), cap)
    ensures WriteFits(cap, wp, rp, n) ==>
      (var p := WriteMoves(cap, wp, rp, n);
       0 <= p <= cap && (var wp' := Wrapped(cap, p, rp);
                         Positions(cap, wp', rp) && Fill(cap, wp', rp) == Fill(cap, wp, rp) + n))
  {
  }

  /** Fill and free size add up to the most that can be stored. */
  lemma FillAndFree(cap: nat, wp: nat, rp: nat)
    requires Positions(cap, wp, rp)
    ensures Fill(cap, wp, rp) + Free(cap, wp, rp) == Most(cap)
  {
  }

  /** `d` laid over `was` from `at` on, as a `memcpy` leaves it. */
  function Laid(was: seq<bv8>, at: nat, d: seq<bv8>): (now: seq<bv8>)
    requires at + |d| <= |was|
    ensures |now| == |was|
  {
    was[..at] + d + was[at + |d|..]
  }

  lemma LaidNothing(was: seq<bv8>, d: seq<bv8>)
    requires |d| == 0
    ensures Laid(was, 0, d) == was
  {
  }

  /** One copy from the read position gives the head of the queue. */
  lemma Taken(b: seq<bv8>, was: seq<bv8>, now: seq<bv8>, rp: nat, n: nat)
    requires 0 < |b| && rp + n <= |b| && n <= |was| && now == Laid(was, 0, b[rp..rp + n])
    ensures now == Laid(was, 0, Queue(b, Norm(rp, |b|), n))
  {
    assert b[rp..rp + n] == Queue(b, Norm(rp, |b|), n);
  }

  /** A copy up to the end and one from the start do so too. */
  lemma TakenAround(b: seq<bv8>, was: seq<bv8>, mid: seq<bv8>, now: seq<bv8>, rp: nat, n: nat)
    requires n <= rp <= |b| && 0 < |b| && |b| - rp + n <= |was|
    requires mid == Laid(was, 0, b[rp..|b|]) && now == Laid(mid, |b| - rp, b[..n])
    ensures now == Laid(was, 0, Queue(b, Norm(rp, |b|), |b| - rp + n))
  {
    assert b[rp..|b|] + b[..n] == Queue(b, Norm(rp, |b|), |b| - rp + n);
  }

  /** The length and the gap are added without wrapping. */
  lemma WrapFree(n: nat)
    requires n < WRAP - RWP_SAFE_INTERVAL
    ensures U32(n + RWP_SAFE_INTERVAL) == n + RWP_SAFE_INTERVAL
  {
  }

  /** One copy to the write position, or one up to the end and one from the start, writes the data. */
  lemma LaidIsWritten(b: seq<bv8>, off: nat, d: seq<bv8>)
    requires off < |b| && off + |d| <= |b|
    ensures Written(b, Laid(b, off, d), off, d)
  {
  }

  lemma LaidAround(b: seq<bv8>, off: nat, d: seq<bv8>)
    requires off < |b| && |b| - off < |d| <= |b|
    ensures Written(b, Laid(Laid(b, off, d[..|b| - off]), 0, d[|b| - off..]), off, d)
  {
    var m := |b| - off;
    var c := Laid(Laid(b, off, d[..m]), 0, d[m..]);
    forall i | 0 <= i < |b|
      ensures c[Slot(off, i, |b|)] == if i < |d| then d[i] else b[Slot(off, i, |b|)]
    {
      if i >= m {
        assert i < |d| ==> d[m..][i - m] == d[i];
      }
    }
  }

  // ------------------------------------------------------------------------------------------------
  // The code.

  class Rb {
    const address: array<bv8>
    const capacity: nat
    var wp: nat
    var rp: nat

    ghost predicate Valid()
      reads this
    {
      0 < capacity == address.Length < WRAP && Positions(capacity, wp, rp)
    }

    ghost function Contents(): (s: seq<bv8>)
      requires Valid()
      reads this, address
    {
      Queue(address[..], Norm(rp, capacity), Fill(capacity, wp, rp))
    }

    constructor (addr: array<bv8>)
      requires 0 < addr.Length < WRAP
      ensures Valid() && Contents() == [] && address == addr
    {
      address := addr;
      capacity := addr.Length;
      wp, rp := 0, 0;
    }

    method Clear()
      requires Valid()
      modifies this
      ensures Valid() && Contents() == []
    {
      wp, rp := 0, 0;
    }

    /** One `memcpy` out of the ring. */
    method CopyOut(dst: array<bv8>, at: nat, from: nat, n: nat)
      requires at + n <= dst.Length && from + n <= address.Length && dst != address
      modifies dst
      ensures dst[..] == Laid(old(dst[..]), at, address[..][from..from + n])
    {
      forall i | 0 <= i < n { dst[at + i] := address[from + i]; }
    }

    /** One `memcpy` into the ring. */
    method CopyIn(at: nat, d: seq<bv8>)
      requires at + |d| <= address.Length
      modifies address
      ensures address[..] == Laid(old(address[..]), at, d)
    {
      forall i | 0 <= i < |d| { address[at + i] := d[i]; }
    }

    /** `rb_read`: the head of the queue is moved out, as far as it goes. */
    method Read(buffer: array<bv8>, size: nat, count: nat) returns (readBytes: nat)
      requires Valid() && U32(size * count) <= buffer.Length && buffer != address
      modifies this`rp, buffer
      ensures Valid()
      ensures readBytes == Min(U32(size * count), |old(Contents())|)
      ensures buffer[..] == Laid(old(buffer[..]), 0, old(Contents())[..readBytes])
      ensures Contents() == old(Contents())[readBytes..]
    {
      ghost var o, fill, want := Norm(rp, capacity), Fill(capacity, wp, rp), U32(size * count);
      ReadTakes(capacity, wp, rp, want);
      AdvanceDrops(address[..], o, fill, Min(want, fill));
      readBytes := ReadSteps(buffer, U32(size * count));
    }

    /** The branches of `rb_read`. */
    method ReadSteps(buffer: array<bv8>, requiredBytes: nat) returns (readBytes: nat)
      requires Valid() && requiredBytes <= buffer.Length && buffer != address
      modifies this`rp, buffer
      ensures (readBytes, rp) == ReadPlan(capacity, wp, old(rp), requiredBytes) && readBytes <= requiredBytes
      ensures readBytes <= capacity
      ensures buffer[..] == Laid(old(buffer[..]), 0, Queue(address[..], Norm(old(rp), capacity), readBytes))
    {
      hide Queue, U32, Laid, Fill, Most, Norm, Min, Slot, Room, Free, Written;
      if requiredBytes == 0 {
        LaidNothing(buffer[..], Queue(address[..], Norm(rp, capacity), 0));
        return 0;
      }
      ghost var b, was, r0 := address[..], buffer[..], rp;
      if wp >= rp {
        var remainBytes := wp - rp;
        if requiredBytes > remainBytes {
          readBytes := remainBytes;
          CopyOut(buffer, 0, rp, readBytes);
          rp := rp + readBytes;
        } else {
          readBytes := requiredBytes;
          CopyOut(buffer, 0, rp, readBytes);
          rp := rp + readBytes;
        }
        Taken(b, was, buffer[..], r0, readBytes);
      } else {
        var remainBytes := capacity - rp;
        if requiredBytes > remainBytes {
          readBytes := remainBytes;
          CopyOut(buffer, 0, rp, readBytes);
          ghost var mid := buffer[..];
          if requiredBytes - readBytes > wp {
            CopyOut(buffer, readBytes, 0, wp);
            rp := wp;
            readBytes := readBytes + wp;
          } else {
            CopyOut(buffer, readBytes, 0, requiredBytes - readBytes);
            rp := requiredBytes - readBytes;
            readBytes := requiredBytes;
          }
          TakenAround(b, was, mid, buffer[..], r0, rp);
        } else {
          readBytes := requiredBytes;
          CopyOut(buffer, 0, rp, readBytes);
          rp := rp + readBytes;
          Taken(b, was, buffer[..], r0, readBytes);
        }
      }
    }

    /** `rb_write`: all of the data is appended, or nothing. */
    method Write(buffer: seq<bv8>, size: nat, count: nat) returns (writeBytes: nat)
      requires Valid() && U32(size * count) == |buffer| < WRAP - RWP_SAFE_INTERVAL
      modifies this`wp, address
      ensures Valid()
      ensures writeBytes == if |old(Contents())| + |buffer| + 4 <= capacity then |buffer| else 0
      ensures Contents() == old(Contents()) + buffer[..writeBytes]
    {
      ghost var b, o, fill := address[..], Norm(rp, capacity), Fill(capacity, wp, rp);
      FillAndFree(capacity, wp, rp);
      if |buffer| > 0 {
        WriteLengthens(capacity, wp, rp, |buffer|);
      }
      ghost var off := wp;
      writeBytes := WriteSteps(buffer);
      if writeBytes > 0 {
        WriteAppends(b, address[..], o, fill, buffer);
      }
    }

    /** The branches of `rb_write`. */
    method WriteSteps(buffer: seq<bv8>) returns (writeBytes: nat)
      requires Valid() && |buffer| < WRAP - RWP_SAFE_INTERVAL
      modifies this`wp, address
      ensures if WriteFits(capacity, old(wp), rp, |buffer|)
              then writeBytes == |buffer| && wp == Wrapped(capacity, WriteMoves(capacity, old(wp), rp, |buffer|), rp)
                   && Written(old(address[..]), address[..], old(wp), buffer)
              else writeBytes == 0 && wp == old(wp) && address[..] == old(address[..])
    {
      hide U32, Laid, Written;
      WrapFree(|buffer|);
      ghost var b, off := address[..], wp;
      writeBytes := |buffer|;
      if writeBytes == 0 {
        return 0;
      }
      var remainBytes;
      var r := rp;
      if wp >= r {
        remainBytes := capacity - wp + r;
        if remainBytes >= U32(writeBytes + RWP_SAFE_INTERVAL) {
          remainBytes := capacity - wp;
          if remainBytes >= writeBytes {
            LaidIsWritten(b, off, buffer);
            CopyIn(wp, buffer);
            wp := wp + writeBytes;
          } else {
            LaidAround(b, off, buffer);
            CopyIn(wp, buffer[..remainBytes]);
            wp := writeBytes - remainBytes;
            CopyIn(0, buffer[remainBytes..]);
          }
        } else {
          return 0;
        }
      } else {
        remainBytes := r - wp;
        if remainBytes >= U32(writeBytes + RWP_SAFE_INTERVAL) {
          LaidIsWritten(b, off, buffer);
          CopyIn(wp, buffer);
          wp := wp + writeBytes;
        } else {
          return 0;
        }
      }
      if wp >= capacity && rp != 0 {
        wp := 0;
      }
    }

    method GetFillSize() returns (n: nat)
      requires Valid()
      ensures n == |Contents()|
    {
      n := if wp >= rp then wp - rp else capacity - rp + wp;
    }

    method GetFreeSize() returns (n: nat)
      requires Valid()
      ensures n + |Contents()| == if capacity > 4 then capacity - 4 else 0
    {
      var freeSize := if wp >= rp then capacity - wp + rp else rp - wp;
      n := if freeSize > RWP_SAFE_INTERVAL then freeSize - RWP_SAFE_INTERVAL else 0;
    }
  }
}
