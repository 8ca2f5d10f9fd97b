/** NOR flash behind a 32-byte transfer unit (beken378/driver/flash/flash.c).

    The controller is taken as three atomic operations on the cells: read a unit, program a unit, which
    can only clear bits, and erase a sector.  Cells beyond the chip read as erased and ignore the other
    two. */
module Flash {

  const UNIT := 32
  const SECTOR := 4096
  const ERASED: bv8 := 0xFF

  // ------------------------------------------------------------------------------------------------
  // What the operations mean on the cells.

  function ReadAt(cells: seq<bv8>, i: nat): bv8 {
    if i < |cells| then cells[i] else ERASED
  }

  function ReadRange(cells: seq<bv8>, a: nat, n: nat): (d: seq<bv8>)
    ensures |d| == n
  {
    seq(n, i requires 0 <= i => ReadAt(cells, a + i))
  }

  /** The bytes `d` programmed from address `a` on. */
  function Programmed(cells: seq<bv8>, a: nat, d: seq<bv8>): (r: seq<bv8>)
    ensures |r| == |cells|
  {
    seq(|cells|, i requires 0 <= i < |cells| => if a <= i < a + |d| then cells[i] & d[i - a] else cells[i])
  }

  function SectorStart(a: nat): (s: nat)
    ensures s <= a < s + SECTOR && s % SECTOR == 0
  {
    a - a % SECTOR
  }

  /** The sector that holds address `a` erased. */
  function SectorErased(cells: seq<bv8>, a: nat): (r: seq<bv8>)
    ensures |r| == |cells|
  {
    seq(|cells|, i requires 0 <= i < |cells| =>
      if SectorStart(a) <= i < SectorStart(a) + SECTOR then ERASED else cells[i])
  }

  /** A sector is 4096 bytes from a multiple of 4096 on; erased bytes are 0xFF. */
  lemma SectorCell(cells: seq<bv8>, a: nat, i: nat)
    requires i < |cells|
    ensures SectorErased(cells, a)[i] == if i / 4096 == a / 4096 then 0xFF else cells[i]
    ensures i / 4096 == a / 4096 <==> a - a % 4096 <= i < a - a % 4096 + 4096
  {
    assert a == 4096 * (a / 4096) + a % 4096 && i == 4096 * (i / 4096) + i % 4096;
    assert SectorStart(a) == 4096 * (a / 4096);
    assert SectorStart(a) <= i < SectorStart(a) + SECTOR <==> i / 4096 == a / 4096;
  }

  lemma AndNeutral(c: bv8)
    ensures c & ERASED == c && ERASED & c == c && c & c == c
  {
  }

  /** A unit in which only `d`, from offset `s` on, differs from what the cells hold already programs
      just `d`. */
  lemma UnitProgram(cells: seq<bv8>, addr: nat, pb: seq<bv8>, s: nat, d: seq<bv8>)
    requires |pb| == UNIT && s + |d| <= UNIT
    requires forall j :: 0 <= j < UNIT ==> pb[j] == if s <= j < s + |d| then d[j - s] else ReadAt(cells, addr + j)
    ensures Programmed(cells, addr, pb) == Programmed(cells, addr + s, d)
  {
    forall i | 0 <= i < |cells|
      ensures Programmed(cells, addr, pb)[i] == Programmed(cells, addr + s, d)[i]
    {
      AndNeutral(cells[i]);
      if addr <= i < addr + UNIT {
        assert pb[i - addr] == if s <= i - addr < s + |d| then d[i - addr - s] else cells[i];
      }
    }
  }

  /** Programming is sequential: two adjacent stretches are one. */
  lemma ProgramAppend(cells: seq<bv8>, a: nat, d: seq<bv8>, e: seq<bv8>)
    ensures Programmed(Programmed(cells, a, d), a + |d|, e) == Programmed(cells, a, d + e)
  {
  }

  /** The offset of an address in its unit. */
  lemma Offset(addr: nat, p: nat)
    requires addr % UNIT == 0 && addr <= p < addr + UNIT
    ensures p % UNIT == p - addr
  {
  }

  lemma ProgramNothing(cells: seq<bv8>, a: nat, d: seq<bv8>)
    requires d == []
    ensures Programmed(cells, a, d) == cells
  {
  }

  /** Programming clears bits and does nothing else, so doing it again changes nothing. */
  lemma ProgramTwice(cells: seq<bv8>, a: nat, d: seq<bv8>)
    ensures Programmed(Programmed(cells, a, d), a, d) == Programmed(cells, a, d)
  {
    forall i | a <= i < a + |d| && i < |cells|
      ensures (cells[i] & d[i - a]) & d[i - a] == cells[i] & d[i - a]
    {
      AndTwice(cells[i], d[i - a]);
    }
  }

  lemma AndTwice(c: bv8, d: bv8)
    ensures (c & d) & d == c & d
  {
  }

  /** On erased cells a write can be read back, whole or in part, and every other cell keeps its value. */
  lemma WriteThenRead(cells: seq<bv8>, a: nat, d: seq<bv8>, lo: nat, hi: nat)
    requires lo <= hi <= |d| && a + |d| <= |cells|
    requires forall i :: a <= i < a + |d| ==> cells[i] == ERASED
    ensures ReadRange(Programmed(cells, a, d), a + lo, hi - lo) == d[lo..hi]
    ensures forall i :: 0 <= i < |cells| && !(a <= i < a + |d|) ==> Programmed(cells, a, d)[i] == cells[i]
  {
    forall i | lo <= i < hi
      ensures ReadAt(Programmed(cells, a, d), a + i) == d[i]
    {
      AndNeutral(d[i]);
    }
  }

  // ------------------------------------------------------------------------------------------------
  // The code.

  class FlashChip {
    const cells: array<bv8>

    constructor (content: seq<bv8>)
      ensures fresh(cells) && cells[..] == content
    {
      cells := new bv8[|content|](i requires 0 <= i < |content| => content[i]);
      new;
      assert cells[..] == content;
    }

    /** One read transfer. */
    method ReadUnit(addr: nat, buf: array<bv8>)
      requires buf.Length == UNIT && buf != cells
      modifies buf
      ensures buf[..] == ReadRange(cells[..], addr, UNIT)
    {
      for i := 0 to UNIT
        invariant forall j :: 0 <= j < i ==> buf[j] == ReadAt(cells[..], addr + j)
      {
        buf[i] := if addr + i < cells.Length then cells[addr + i] else ERASED;
      }
    }

    /** One program transfer. */
    method ProgramUnit(addr: nat, buf: array<bv8>)
      requires buf.Length == UNIT && buf != cells
      modifies cells
      ensures cells[..] == Programmed(old(cells[..]), addr, buf[..])
    {
      ghost var c0, b := cells[..], buf[..];
      for i := 0 to UNIT
        invariant buf[..] == b
        invariant forall j :: 0 <= j < cells.Length ==>
          cells[j] == if addr <= j < addr + i then c0[j] & b[j - addr] else c0[j]
      {
        if addr + i < cells.Length {
          assert buf[i] == b[i];
          cells[addr + i] := cells[addr + i] & buf[i];
        }
      }
      assert cells[..] == Programmed(c0, addr, b);
    }

    /** `flash_erase_sector`: the command names any address in the sector. */
    method EraseSector(address: nat)
      modifies cells
      ensures cells[..] == SectorErased(old(cells[..]), address)
    {
      ghost var c0 := cells[..];
      var s := SectorStart(address);
      for i := 0 to SECTOR
        invariant forall j :: 0 <= j < cells.Length ==>
          cells[j] == if s <= j < s + i then ERASED else c0[j]
      {
        if s + i < cells.Length {
          cells[s + i] := ERASED;
        }
      }
      assert cells[..] == SectorErased(c0, address);
    }

    /** `flash_read_data`: whole units are transferred, the wanted bytes are picked out of them. */
    method ReadData(buffer: array<bv8>, address: nat, len: nat)
      requires len <= buffer.Length && buffer != cells
      modifies buffer
      ensures forall j :: 0 <= j < buffer.Length ==>
        buffer[j] == if j < len then ReadAt(cells[..], address + j) else old(buffer[j])
    {
      var addr := address - address % UNIT;
      var buf := new bv8[UNIT];
      var done := 0;
      while done < len
        invariant 0 <= done <= len
        invariant done < len ==> addr == (address + done) - (address + done) % UNIT
        invariant forall j :: 0 <= j < buffer.Length ==>
          buffer[j] == if j < done then ReadAt(cells[..], address + j) else old(buffer[j])
      {
        ReadUnit(addr, buf);
        var i := (address + done) % UNIT;
        ghost var d0 := done;
        while i < UNIT && done < len
          invariant 0 <= i <= UNIT && d0 <= done <= len
          invariant addr + i == address + done
          invariant buf[..] == ReadRange(cells[..], addr, UNIT)
          invariant forall j :: 0 <= j < buffer.Length ==>
            buffer[j] == if j < done then ReadAt(cells[..], address + j) else old(buffer[j])
        {
          assert buf[i] == buf[..][i];
          buffer[done] := buf[i];
          done := done + 1;
          i := i + 1;
        }
        addr := addr + UNIT;
      }
    }

    /** The copy loop of a write: data into the scratch unit from offset `start` on. */
    method Fill(pb: array<bv8>, data: seq<bv8>, from: nat, start: nat) returns (done: nat)
      requires pb.Length == UNIT && from < |data| && start < UNIT
      modifies pb
      ensures done == if |data| - from < UNIT - start then |data| else from + UNIT - start
      ensures forall j :: 0 <= j < UNIT ==>
        pb[j] == if start <= j < start + done - from then data[from + j - start] else old(pb[j])
    {
      done := from;
      var i := start;
      while i < UNIT && done < |data|
        invariant start <= i <= UNIT && from <= done <= |data| && i - start == done - from
        invariant forall j :: 0 <= j < UNIT ==> pb[j] == if start <= j < i then data[from + j - start] else old(pb[j])
      {
        pb[i] := data[done];
        done := done + 1;
        i := i + 1;
      }
    }

    /** One turn of the write loop: the unit at `addr` is filled up and programmed. */
    method WriteUnit(pb: array<bv8>, data: seq<bv8>, from: nat, addr: nat, address: nat) returns (done: nat)
      requires pb.Length == UNIT && pb != cells && from < |data|
      requires addr % UNIT == 0 && addr <= address + from < addr + UNIT
      requires forall j :: 0 <= j < address + from - addr ==> pb[j] == ReadAt(cells[..], addr + j)
      modifies pb, cells
      ensures from < done <= |data| && (done < |data| ==> address + done == addr + UNIT)
      ensures cells[..] == Programmed(old(cells[..]), address + from, data[from..done])
    {
      hide Programmed, ReadAt;
      ghost var c0 := cells[..];
      Offset(addr, address + from);
      if |data| - from < UNIT {
        ReadData(pb, addr, UNIT);
      }
      done := Fill(pb, data, from, (address + from) % UNIT);
      ghost var e, s := data[from..done], address + from - addr;
      assert forall j :: 0 <= j < UNIT ==>
        pb[..][j] == if s <= j < s + |e| then e[j - s] else ReadAt(c0, addr + j);
      UnitProgram(c0, addr, pb[..], s, e);
      ProgramUnit(addr, pb);
    }

    /** `flash_write_data`: whole units are programmed.  Cells next to the data are covered either by
        0xFF or by what was read back from them. */
    method WriteData(data: seq<bv8>, address: nat)
      modifies cells
      ensures cells[..] == Programmed(old(cells[..]), address, data)
    {
      hide Programmed, ReadAt;
      var addr := address - address % UNIT;
      var pb := new bv8[UNIT];
      ProgramNothing(cells[..], address, data[..0]);
      if address % UNIT != 0 {
        ReadData(pb, addr, UNIT);
      } else {
        forall i | 0 <= i < UNIT { pb[i] := ERASED; }
      }
      var done := 0;
      while done < |data|
        invariant 0 <= done <= |data|
        invariant done < |data| ==> addr % UNIT == 0 && addr <= address + done < addr + UNIT
        invariant done < |data| ==> forall j :: 0 <= j < address + done - addr ==> pb[j] == ReadAt(cells[..], addr + j)
        invariant cells[..] == Programmed(old(cells[..]), address, data[..done])
      {
        ghost var d0 := done;
        done := WriteUnit(pb, data, done, addr, address);
        ProgramAppend(old(cells[..]), address, data[..d0], data[d0..done]);
        assert data[..d0] + data[d0..done] == data[..done];
        addr := addr + UNIT;
        forall j | 0 <= j < UNIT { pb[j] := ERASED; }
      }
      assert data[..done] == data;
    }
  }
}
