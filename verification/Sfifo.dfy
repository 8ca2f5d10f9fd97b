/** The byte queue of the FTP server (beken378/app/ftp/ftpd.c).  Both positions may rest on the size. */
module Sfifo {
  import opened Numbers
  import opened RingQueue
  import opened RingBuffer

  const SFIFO_MAX_BUFFER_SIZE := 0x7fff_ffff
  const ENODEV := 3

  /** What a signed 32-bit computation of `x` gives. */
  function I32(x: int): (r: int)
    ensures -0x8000_0000 <= r < 0x8000_0000
  {
    if U32(x) < 0x8000_0000 then U32(x) else U32(x) - WRAP
  }

  /** The number of stored bytes, by a mask. */
  function Used(size: nat, readpos: nat, writepos: nat): nat {
    if size == 0 then 0 else And(U32(writepos - readpos), size - 1)
  }

  lemma WrapSplits(k: nat, d: nat)
    requires k <= 32 && 0 < d <= Pow2(k)
    ensures Pow2(k) <= WRAP && (WRAP - d) % Pow2(k) == Pow2(k) - d
  {
    Pow2At32();
    PowerGrows(k, 32);
    PowerDivides(k, 32);
    var s, c := Pow2(k), Pow2(32 - k);
    assert s * c == s * (c - 1) + s by { Distribute(s, c - 1, 1); }
    if d < s {
      DivUnique(WRAP - d, s, c - 1, s - d);
    } else {
      DivUnique(WRAP - d, s, c - 1, 0);
    }
  }

  /** The mask gives the distance around the ring, even where the difference is negative. */
  lemma UsedIsDistance(k: nat, r: nat, w: nat)
    requires k <= 31 && r <= Pow2(k) && w <= Pow2(k)
    ensures Used(Pow2(k), r, w) < Pow2(k)
    ensures Slot(Norm(r, Pow2(k)), Used(Pow2(k), r, w), Pow2(k)) == Norm(w, Pow2(k))
  {
    hide Pow2, And;
    UsedIs(k, r, w);
  }

  lemma UsedIs(k: nat, r: nat, w: nat)
    requires k <= 31 && r <= Pow2(k) && w <= Pow2(k)
    ensures Used(Pow2(k), r, w) == if w < r then Pow2(k) - (r - w) else if w - r == Pow2(k) then 0 else w - r
  {
    hide Pow2, And, U32;
    var s := Pow2(k);
    Pow2At32();
    PowerGrows(k, 31);
    AndMask(U32(w - r), k);
    Reduced(w - r);
    if w < r {
      WrapSplits(k, r - w);
    } else if w - r == s {
      DivUnique(s, s, 1, 0);
    } else {
      DivUnique(w - r, s, 0, w - r);
    }
  }

  lemma Reduced(d: int)
    requires -WRAP < d < WRAP
    ensures U32(d) == if d < 0 then WRAP + d else d
  {
  }

  lemma EmptyUsed(size: nat)
    ensures Used(size, 0, 0) == 0
  {
  }

  /** Two ways to the same slot are equally long. */
  lemma SlotsAreOne(size: nat, o: nat, a: nat, b: nat, c: nat)
    requires o < size && a + b < size && c < size && Slot(Slot(o, a, size), b, size) == Slot(o, c, size)
    ensures c == a + b
  {
  }

  lemma NothingLaid(b: seq<bv8>, d: seq<bv8>)
    requires d == []
    ensures Laid(b, |b|, d) == b
  {
  }

  lemma NothingWritten(b: seq<bv8>, d: seq<bv8>)
    requires d == [] && b != []
    ensures Written(b, b, 0, d)
  {
  }

  // ------------------------------------------------------------------------------------------------
  // How the size is found.

  /** The value of `size` after `n` rounds of doubling. */
  function Doubled(n: nat): int {
    if n == 0 then 1 else I32(2 * Doubled(n - 1))
  }

  lemma I32Doubles(x: int)
    ensures 0 <= x < 0x4000_0000 ==> I32(2 * x) == 2 * x
    ensures I32(2 * 0x4000_0000) == -0x8000_0000 && I32(2 * -0x8000_0000) == 0
  {
  }

  lemma {:induction false} DoubledIsPower(n: nat)
    ensures n <= 30 ==> Doubled(n) == Pow2(n)
    ensures n == 31 ==> Doubled(n) == -0x8000_0000
    ensures n > 31 ==> Doubled(n) == 0
  {
    hide I32;
    Pow2At32();
    if n > 0 {
      DoubledIsPower(n - 1);
      I32Doubles(Doubled(n - 1));
      if n <= 30 {
        PowerGrows(n, 30);
      }
    }
  }

  /** The search for a size ends exactly for requests below 2^30. */
  lemma SearchEnds(size: int)
    requires -0x8000_0000 <= size <= SFIFO_MAX_BUFFER_SIZE
    ensures (exists n: nat :: Doubled(n) > size) <==> size < 0x4000_0000
  {
    Pow2At32();
    if size < 0x4000_0000 {
      DoubledIsPower(30);
      assert Doubled(30) > size;
    } else {
      forall n: nat
        ensures Doubled(n) <= size
      {
        DoubledIsPower(n);
        if n <= 30 {
          PowerGrows(n, 30);
        }
      }
    }
  }

  // ------------------------------------------------------------------------------------------------
  // The code.

  class Fifo {
    const buffer: array?<bv8>
    const size: nat
    var readpos: nat
    var writepos: nat

    ghost predicate Valid()
      reads this
    {
      && (exists k: nat :: k <= 30 && size == Pow2(k))
      && readpos <= size && writepos <= size
      && (if buffer == null then readpos == writepos == 0 else buffer.Length == size)
    }

    /** What is stored, oldest first; without a buffer, nothing. */
    ghost function Contents(): (s: seq<bv8>)
      requires Valid()
      reads this, buffer
      ensures |s| == Used(size, readpos, writepos) < size
    {
      UsedFits();
      EmptyUsed(size);
      if buffer == null then [] else Queue(buffer[..], Norm(readpos, size), Used(size, readpos, writepos))
    }

    lemma UsedFits()
      requires Valid()
      ensures Used(size, readpos, writepos) < size
      ensures Slot(Norm(readpos, size), Used(size, readpos, writepos), size) == Norm(writepos, size)
    {
      var k: nat :| k <= 30 && size == Pow2(k);
      UsedIsDistance(k, readpos, writepos);
    }

    /** `sfifo_init`, the zeroing included; `memory` is whether the allocation succeeds.  The size is the
        least power of two above the request. */
    constructor (request: int, memory: bool)
      requires -0x8000_0000 <= request < 0x4000_0000
      ensures Valid() && Contents() == [] && (buffer != null <==> memory)
      ensures request < size && (size == 1 || size <= 2 * request) && (buffer != null ==> fresh(buffer))
    {
      readpos, writepos := 0, 0;
      var n := 1;
      ghost var k: nat := 0;
      Pow2At32();
      while n <= request
        invariant k <= 30 && n == Pow2(k) && (n == 1 || n <= 2 * request)
        decreases request - n
      {
        if k >= 30 {
          PowerGrows(30, k);
        }
        PowerGrows(k + 1, 30);
        assert Pow2(k + 1) == 2 * n;
        n := I32(2 * n);
        k := k + 1;
      }
      size := n;
      if memory {
        buffer := new bv8[n];
      } else {
        buffer := null;
      }
      new;
      UsedFits();
      EmptyUsed(n);
    }

    method GetUsed() returns (n: nat)
      requires Valid()
      ensures n == |Contents()| < size
    {
      n := Used(size, readpos, writepos);
      assert n == |Contents()|;
    }

    method Space() returns (n: nat)
      requires Valid()
      ensures n == size - 1 - |Contents()|
    {
      var used := GetUsed();
      n := size - 1 - used;
    }

    method CopyIn(at: nat, d: seq<bv8>)
      requires buffer != null && at + |d| <= buffer.Length
      modifies buffer
      ensures buffer[..] == Laid(old(buffer[..]), at, d)
    {
      forall i | 0 <= i < |d| { buffer[at + i] := d[i]; }
    }

    /** `sfifo_write`: the longest prefix that fits is appended. */
    method Write(buf: seq<bv8>) returns (total: int)
      requires Valid() && |buf| < 0x8000_0000
      modifies this`writepos, buffer
      ensures Valid()
      ensures buffer == null ==> total == -ENODEV && writepos == old(writepos)
      ensures buffer != null ==>
                && total == Min(|buf|, size - 1 - |old(Contents())|)
                && Contents() == old(Contents()) + buf[..total]
    {
      if buffer == null {
        return -ENODEV;
      }
      ghost var b, o, used := buffer[..], Norm(readpos, size), Used(size, readpos, writepos);
      UsedFits();
      var len := |buf|;
      total := Space();
      if len > total {
        len := total;
      } else {
        total := len;
      }
      var d := buf[..len];
      WriteSteps(d);
      WriteAppends(b, buffer[..], o, used, d);
      UsedFits();
      SlotsAreOne(size, o, used, |d|, Used(size, readpos, writepos));
    }

    /** The copies of `sfifo_write`. */
    method WriteSteps(d: seq<bv8>)
      requires Valid() && buffer != null && |d| < size
      modifies this`writepos, buffer
      ensures writepos <= size && Norm(writepos, size) == Slot(Norm(old(writepos), size), |d|, size)
      ensures Written(old(buffer[..]), buffer[..], Norm(old(writepos), size), d)
    {
      hide Laid, Written;
      ghost var b := buffer[..];
      var i, len, from := writepos, |d|, 0;
      if i + len > size {
        if i < size {
          LaidAround(b, i, d);
        }
        CopyIn(i, d[..size - i]);
        from := size - i;
        len := len - (size - i);
        if i == size {
          NothingLaid(b, d[..0]);
          LaidIsWritten(b, 0, d);
        }
        i := 0;
      } else if i < size {
        LaidIsWritten(b, i, d);
      } else {
        NothingLaid(b, d);
        NothingWritten(b, d);
      }
      CopyIn(i, d[from..]);
      writepos := i + len;
    }
  }
}
