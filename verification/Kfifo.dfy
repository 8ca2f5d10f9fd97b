/** The byte queue with free-running counters (beken378/common/fifo.h). */
module Kfifo {
  import opened Numbers
  import opened RingQueue

  function Min(a: nat, b: nat): (m: nat)
    ensures m <= a && m <= b && (m == a || m == b)
  {
    if a < b then a else b
  }

  class KFifo {
    var inCount: nat     // unsigned 32-bit counters
    var outCount: nat
    const mask: nat
    const size: nat
    const buffer: array<bv8>
    ghost const k: nat

    ghost predicate Valid()
      reads this
    {
      && k < 32 && size == Pow2(k) == buffer.Length && mask == size - 1
      && inCount < WRAP && outCount < WRAP
      && U32(inCount - outCount) <= size
    }

    /** How many bytes are queued. */
    ghost function Used(): nat
      reads this
    {
      U32(inCount - outCount)
    }

    /** The slot of the oldest byte. */
    ghost function Start(): (o: nat)
      requires Valid()
      reads this
      ensures o < size
    {
      MaskAdvances(outCount, 0, k);
      And(outCount, size - 1)
    }

    /** The queued bytes, oldest first. */
    ghost function Contents(): (s: seq<bv8>)
      requires Valid()
      reads this, buffer
      ensures |s| == Used()
    {
      Queue(buffer[..], Start(), Used())
    }

    /** `kfifo_init`; the check is the one the code makes. */
    constructor (buffer: array<bv8>, size: nat)
      requires 0 < size < WRAP && And(size, size - 1) == 0 && buffer.Length == size
      ensures Valid() && Contents() == [] && this.buffer == buffer && this.size == size
    {
      PowerTest(size);
      ghost var j :| size == Pow2(j);
      if j >= 32 {
        PowerGrows(32, j);
        Pow2At32();
      }
      this.buffer := buffer;
      this.size := size;
      inCount, outCount := 0, 0;
      mask := size - 1;
      k := j;
    }

    /** The slots of the two counters. */
    lemma Slots()
      requires Valid()
      ensures Start() < size && And(inCount, size - 1) == Slot(Start(), Used(), size)
    {
      MaskAdvances(outCount, Used(), k);
      Difference(inCount, outCount);
    }

    lemma FreeSpace()
      requires Valid()
      ensures U32(size - inCount + outCount) == size - Used() && size < WRAP
    {
      Difference(inCount, outCount);
      Pow2At32();
      PowerGrows(k, 31);
    }

    /** `kfifo_put`: the longest prefix that fits is appended. */
    method Put(data: seq<bv8>) returns (len: nat)
      requires Valid() && |data| < WRAP
      modifies this`inCount, buffer
      ensures Valid()
      ensures len == Min(|data|, size - |old(Contents())|)
      ensures Contents() == old(Contents()) + data[..len]
    {
      hide And, Pow2, U32, Queue, Written, Slot;
      Slots();
      FreeSpace();
      len := Min(|data|, U32(size - inCount + outCount));
      ghost var b, o, n := buffer[..], Start(), Used();
      CopyIn(And(inCount, size - 1), data[..len]);
      WriteAppends(b, buffer[..], o, n, data[..len]);
      CounterMoves(inCount, outCount, len);
      inCount := U32(inCount + len);
      assert Start() == o && Used() == n + len;
    }

    /** The two copies of a put: up to the end of the buffer, then from its start. */
    method CopyIn(off: nat, d: seq<bv8>)
      requires off < size == buffer.Length && |d| <= size
      modifies buffer
      ensures Written(old(buffer[..]), buffer[..], off, d)
    {
      var l := Min(|d|, size - off);
      forall i | 0 <= i < l { buffer[off + i] := d[i]; }
      forall i | 0 <= i < |d| - l { buffer[i] := d[l + i]; }
    }

    /** `kfifo_get`: the head of the queue is moved out. */
    method Get(dst: array<bv8>, want: nat) returns (len: nat)
      requires Valid() && want <= dst.Length && dst != buffer
      modifies this`outCount, dst
      ensures Valid()
      ensures len == Min(want, |old(Contents())|)
      ensures dst[..len] == old(Contents())[..len] && dst[len..] == old(dst[len..])
      ensures Contents() == old(Contents())[len..]
    {
      hide And, Pow2, U32, Queue, Written, Slot;
      Slots();
      len := Min(want, U32(inCount - outCount));
      CopyFrom(dst, And(outCount, size - 1), len);
      AdvanceDrops(buffer[..], Start(), Used(), len);
      MaskAdvances(outCount, len, k);
      CounterMoves(inCount, outCount, len);
      outCount := U32(outCount + len);
    }

    /** The two copies of a get. */
    method CopyFrom(dst: array<bv8>, off: nat, len: nat)
      requires off < size == buffer.Length && len <= size && len <= dst.Length && dst != buffer
      modifies dst
      ensures dst[..len] == Queue(buffer[..], off, len)
      ensures dst[len..] == old(dst[len..])
    {
      var l := Min(len, size - off);
      forall i | 0 <= i < l { dst[i] := buffer[off + i]; }
      forall i | 0 <= i < len - l { dst[l + i] := buffer[i]; }
    }

    /** `kfifo_data_size` and `kfifo_unused` always add up to the size. */
    method DataSize() returns (n: nat)
      requires Valid()
      ensures n == |Contents()|
    {
      n := U32(inCount - outCount);
    }

    method Unused() returns (n: nat)
      requires Valid()
      ensures n + |Contents()| == size
    {
      FreeSpace();
      n := U32(U32(mask + 1) - U32(inCount - outCount));
    }

    /** `kfifo_copy_out`: `len` bytes from a free-running offset on. */
    method CopyOut(dst: array<bv8>, len: nat, off: nat)
      requires Valid() && len <= dst.Length && len <= size && dst != buffer
      modifies dst
      ensures And(off, mask) < size && dst[..len] == Queue(buffer[..], And(off, mask), len)
      ensures dst[len..] == old(dst[len..])
    {
      MaskAdvances(off, 0, k);
      CopyFrom(dst, And(off, mask), len);
    }

    /** `kfifo_out_peek`: what `Get` would move out, left in place. */
    method OutPeek(dst: array<bv8>, want: nat) returns (len: nat)
      requires Valid() && want <= dst.Length && dst != buffer
      modifies dst
      ensures len == Min(want, |Contents()|)
      ensures dst[..len] == Contents()[..len] && dst[len..] == old(dst[len..])
      ensures Contents() == old(Contents())
    {
      var l := U32(inCount - outCount);
      len := if want > l then l else want;
      AdvanceDrops(buffer[..], Start(), Used(), len);
      CopyOut(dst, len, outCount);
    }
  }
}
