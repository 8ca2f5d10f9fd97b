/** What a whole run of block stores leaves in the flash. */
module OtaImage {
  import opened Flash
  import opened StoreBlock
  import opened LittleEndian

  // ------------------------------------------------------------------------------------------------
  // Appending stretches that fit between sector boundaries.

  /** The first sector boundary at or after `a`. */
  function SectorEnd(a: nat): (e: nat)
    ensures a <= e < a + SECTOR && e % SECTOR == 0
  {
    if a % SECTOR == 0 then a else a - a % SECTOR + SECTOR
  }

  /** `content` stands at `base`, and the rest of its last sector is erased. */
  ghost predicate Holds(cells: seq<bv8>, base: nat, content: seq<bv8>) {
    && base + |content| <= |cells|
    && (forall i :: base <= i < base + |content| ==> cells[i] == content[i - base])
    && (forall i :: base + |content| <= i < SectorEnd(base + |content|) && i < |cells| ==> cells[i] == ERASED)
  }

  /** Erase on entering a sector, then program. */
  function Append(cells: seq<bv8>, a: nat, d: seq<bv8>): (r: seq<bv8>)
    ensures |r| == |cells|
  {
    Programmed(EraseOnEntry(cells, a), a, d)
  }

  lemma SectorEndOf(s: nat, x: nat)
    requires s % SECTOR == 0 && s < x <= s + SECTOR
    ensures SectorEnd(x) == s + SECTOR
  {
  }

  lemma RoomInSector(a: nat, n: nat)
    requires a % DATA_LEN == 0 && n <= DATA_LEN
    ensures a + n <= SectorStart(a) + SECTOR
    ensures a % SECTOR != 0 ==> SectorEnd(a) == SectorStart(a) + SECTOR
    ensures n > 0 ==> SectorEnd(a + n) == SectorStart(a) + SECTOR
    ensures SectorEnd(a + n) <= SectorStart(a) + SECTOR
  {
    assert a % SECTOR % DATA_LEN == 0;
    if a % SECTOR != 0 { SectorEndOf(SectorStart(a), a); }
    if n > 0 { SectorEndOf(SectorStart(a), a + n); }
  }

  /** Programming erased cells stores the data. */
  lemma ProgramErased(cells: seq<bv8>, a: nat, d: seq<bv8>, hi: nat)
    requires a + |d| <= hi && a + |d| <= |cells|
    requires forall i :: a <= i < hi && i < |cells| ==> cells[i] == ERASED
    ensures forall i :: a <= i < a + |d| ==> Programmed(cells, a, d)[i] == d[i - a]
    ensures forall i :: a + |d| <= i < hi && i < |cells| ==> Programmed(cells, a, d)[i] == ERASED
    ensures forall i :: 0 <= i < |cells| && !(a <= i < a + |d|) ==> Programmed(cells, a, d)[i] == cells[i]
  {
    forall i | a <= i < a + |d|
      ensures Programmed(cells, a, d)[i] == d[i - a]
    {
      AndNeutral(d[i - a]);
    }
  }

  /** From the end of what is held the sector is erased, if need be by the erase on entry. */
  lemma Entered(cells: seq<bv8>, base: nat, content: seq<bv8>)
    requires Holds(cells, base, content) && (base + |content|) % DATA_LEN == 0
    ensures var a, e := base + |content|, EraseOnEntry(cells, base + |content|);
      && (forall i :: a <= i < SectorStart(a) + SECTOR && i < |cells| ==> e[i] == ERASED)
      && (forall i :: 0 <= i < |cells| && !(a <= i < SectorStart(a) + SECTOR) ==> e[i] == cells[i])
  {
    var a := base + |content|;
    RoomInSector(a, 0);
    if a % SECTOR == 0 {
      assert SectorStart(a) == a;
    } else {
      hide SectorEnd, SectorStart;
    }
  }

  /** The cells outside `lo..hi` are the same. */
  predicate SameOutside(r: seq<bv8>, cells: seq<bv8>, lo: nat, hi: nat) {
    |r| == |cells| && forall i :: 0 <= i < |cells| && !(lo <= i < hi) ==> r[i] == cells[i]
  }

  lemma Appended(cells: seq<bv8>, base: nat, content: seq<bv8>, d: seq<bv8>)
    requires Holds(cells, base, content)
    requires base % SECTOR == 0 && |content| % DATA_LEN == 0 && |d| <= DATA_LEN
    requires base + |content| + |d| <= |cells|
    ensures Holds(Append(cells, base + |content|, d), base, content + d)
    ensures var a := base + |content|; SameOutside(Append(cells, a, d), cells, a, SectorStart(a) + SECTOR)
  {
    hide SectorEnd, SectorStart, Programmed, EraseOnEntry;
    var a := base + |content|;
    Aligned(base, |content|);
    RoomInSector(a, |d|);
    Entered(cells, base, content);
    ProgramErased(EraseOnEntry(cells, a), a, d, SectorStart(a) + SECTOR);
    assert base + |content + d| == a + |d|;
  }

  lemma Aligned(base: nat, n: nat)
    requires base % SECTOR == 0 && n % DATA_LEN == 0
    ensures (base + n) % DATA_LEN == 0
  {
  }

  // ------------------------------------------------------------------------------------------------
  // Runs of `store_block`.

  datatype Call = Call(block: nat, src: Block)

  function Run(step: CrcStep, s: Ota, calls: seq<Call>): (r: Ota)
    ensures |r.cells| == |s.cells|
  {
    if calls == [] then s
    else
      var n := |calls| - 1;
      Store(step, Run(step, s, calls[..n]), calls[n].block, calls[n].src)
  }

  /** The address a call works at, and the bytes the checksum has been run over once it is done: the
      stored blocks since the last block 0, without trailers. */
  function AddressOf(s: Ota, c: Call): nat {
    if c.block == 0 then Parse(c.src).os1FlashAddr else s.dataAddr
  }

  function Fed(step: CrcStep, s: Ota, calls: seq<Call>): seq<bv8> {
    if calls == [] then []
    else
      var n := |calls| - 1;
      (if calls[n].block == 0 then [] else Fed(step, s, calls[..n]))
      + if InRange(AddressOf(Run(step, s, calls[..n]), calls[n])) then Summed(calls[n].src) else []
  }

  predicate Begun(calls: seq<Call>) {
    exists i :: 0 <= i < |calls| && calls[i].block == 0
  }

  lemma CrcOfStore(step: CrcStep, s: Ota, c: Call)
    ensures Store(step, s, c.block, c.src).crc ==
              Crc(step, if InRange(AddressOf(s, c)) then Summed(c.src) else [], if c.block == 0 then 0 else s.crc)
  {
  }

  lemma {:induction false} CrcOfRun(step: CrcStep, s: Ota, calls: seq<Call>)
    ensures Run(step, s, calls).crc == Crc(step, Fed(step, s, calls), if Begun(calls) then 0 else s.crc)
  {
    hide Store, Summed, InRange, AddressOf;
    if calls != [] {
      var n := |calls| - 1;
      var before := calls[..n];
      CrcOfRun(step, s, before);
      assert Begun(calls) <==> Begun(before) || calls[n].block == 0;
      var m := Run(step, s, before);
      var fed := if calls[n].block == 0 then [] else Fed(step, s, before);
      var more := if InRange(AddressOf(m, calls[n])) then Summed(calls[n].src) else [];
      CrcOfStore(step, m, calls[n]);
      CrcChains(step, fed, more, if Begun(calls) then 0 else s.crc);
      assert Fed(step, s, calls) == fed + more;
    }
  }

  /** Over every run, a call adds a commit record exactly when it stores a block that calls itself the
      last one and the checksum over all that was stored since block 0 is the block's trailer; the
      record has status 1 and that checksum. */
  lemma CommitOnlyWhenSummed(step: CrcStep, s: Ota, calls: seq<Call>, c: Call)
    requires Begun(calls + [c])
    ensures var before, after := Run(step, s, calls), Run(step, s, calls + [c]);
      var crc := Crc(step, Fed(step, s, calls + [c]), 0);
      after.commits == before.commits +
        if InRange(AddressOf(before, c)) && IsLast(c.src) && crc == Trailer(c.src)
        then [CommitRecord(Parse(c.src), crc)] else []
  {
    assert (calls + [c])[..|calls|] == calls;
    CrcOfRun(step, s, calls + [c]);
  }

  // ------------------------------------------------------------------------------------------------
  // One image: its blocks are stored in order, numbered from 0.

  function Numbered(blocks: seq<Block>): (c: seq<Call>)
    ensures |c| == |blocks|
  {
    seq(|blocks|, i requires 0 <= i < |blocks| => Call(i, blocks[i]))
  }

  function Payloads(blocks: seq<Block>): seq<bv8> {
    if blocks == [] then [] else Payloads(blocks[..|blocks| - 1]) + Payload(blocks[|blocks| - 1])
  }

  function Base(blocks: seq<Block>): nat
    requires blocks != []
  {
    Parse(blocks[0]).os1FlashAddr
  }

  /** All blocks but the last are full. */
  predicate FullButLast(blocks: seq<Block>) {
    && blocks != []
    && (forall i :: 0 <= i < |blocks| - 1 ==> |blocks[i]| == BLOCK_LEN)
    && |blocks[|blocks| - 1]| <= BLOCK_LEN
  }

  /** The image starts on a sector and every block starts inside the image area. */
  predicate Fits(blocks: seq<Block>) {
    && FullButLast(blocks)
    && FLASH_LO <= Base(blocks)
    && Base(blocks) + DATA_LEN * (|blocks| - 1) < FLASH_HI
  }

  /** The commit record of `b`, should it be written, stays away from the cells `lo..hi`. */
  predicate RecordApart(b: Block, lo: nat, hi: nat) {
    var hd := Parse(b).osHdAddr;
    IsLast(b) ==> (SectorStart(hd) + SECTOR <= lo && hd + IMG_LEN <= lo) || SectorStart(hd) >= hi
  }

  /** Cell `i` may be rewritten by the commit record of `b`. */
  predicate RecordTouches(b: Block, i: nat) {
    var hd := Parse(b).osHdAddr;
    IsLast(b) && (SectorStart(hd) <= i < SectorStart(hd) + SECTOR || hd <= i < hd + IMG_LEN)
  }

  lemma {:induction false} PayloadsLength(blocks: seq<Block>)
    requires FullButLast(blocks)
    ensures |Payloads(blocks)| == DATA_LEN * (|blocks| - 1) + |Payload(blocks[|blocks| - 1])|
  {
    if |blocks| > 1 {
      PayloadsLength(blocks[..|blocks| - 1]);
    } else {
      assert Payloads(blocks[..0]) == [];
    }
  }

  /** Only cells outside `lo..hi` that the commit record of `b` touches differ. */
  predicate Untouched(r: seq<bv8>, cells: seq<bv8>, lo: nat, hi: nat, b: Block) {
    |r| == |cells| && forall i :: 0 <= i < |cells| && !(lo <= i < hi) && !RecordTouches(b, i) ==> r[i] == cells[i]
  }

  predicate SameInside(r: seq<bv8>, cells: seq<bv8>, lo: nat, hi: nat) {
    |r| == |cells| && forall i :: lo <= i < hi && i < |cells| ==> r[i] == cells[i]
  }

  lemma CommitElsewhere(cells: seq<bv8>, b: Block, crc: nat, lo: nat, hi: nat)
    requires IsLast(b) && RecordApart(b, lo, hi)
    ensures var c := Committed(cells, CommitRecord(Parse(b), crc));
      SameInside(c, cells, lo, hi) && Untouched(c, cells, lo, hi, b)
  {
    hide Parse, IsLast, ImgBytes, SectorStart;
  }

  // ------------------------------------------------------------------------------------------------
  // Cells outside the image area.

  /** The call writes its commit record. */
  predicate Commits(step: CrcStep, s: Ota, c: Call) {
    InRange(AddressOf(s, c)) && IsLast(c.src) && Crc(step, Summed(c.src), if c.block == 0 then 0 else s.crc) == Trailer(c.src)
  }

  /** Cell `i` is neither in the image area nor one the commit record may rewrite. */
  predicate Foreign(step: CrcStep, s: Ota, c: Call, i: nat) {
    !InRange(i) && !(Commits(step, s, c) && RecordTouches(c.src, i))
  }

  /** The call leaves all foreign cells alone. */
  ghost predicate StaysInside(step: CrcStep, s: Ota, c: Call) {
    var r := Store(step, s, c.block, c.src).cells;
    forall i :: 0 <= i < |s.cells| && Foreign(step, s, c, i) ==> r[i] == s.cells[i]
  }

  /** What a foreign cell holds after the call. */
  function ForeignCell(s: Ota, c: Call, i: nat): bv8
    requires i < |s.cells|
  {
    var a := AddressOf(s, c);
    if InRange(a) then
      if a <= i < a + |Payload(c.src)| then s.cells[i] & Payload(c.src)[i - a] else s.cells[i]
    else if a % SECTOR == 0 && a <= i < a + SECTOR then ERASED
    else s.cells[i]
  }

  lemma ForeignCellIs(step: CrcStep, s: Ota, c: Call, i: nat)
    requires i < |s.cells| && Foreign(step, s, c, i)
    ensures Store(step, s, c.block, c.src).cells[i] == ForeignCell(s, c, i)
  {
    hide Store, Checked, Crc, IsLast, Parse, RecordTouches, EraseOnEntry, Programmed, Payload, Summed, Trailer, SectorStart;
    var a := AddressOf(s, c);
    SectorApart(a, i);
    EntryCell(s.cells, a, i);
    StoreIs(step, s, c);
    if InRange(a) {
      var w := Programmed(EraseOnEntry(s.cells, a), a, Payload(c.src));
      ProgramCell(EraseOnEntry(s.cells, a), a, Payload(c.src), i);
      CheckedCell(step, Ota(w, a, if c.block == 0 then 0 else s.crc, s.commits), c.src, i);
    }
  }

  lemma StoreIs(step: CrcStep, s: Ota, c: Call)
    ensures var a, e := AddressOf(s, c), EraseOnEntry(s.cells, AddressOf(s, c));
            Store(step, s, c.block, c.src).cells ==
              if InRange(a)
              then Checked(step, Ota(Programmed(e, a, Payload(c.src)), a, if c.block == 0 then 0 else s.crc, s.commits), c.src).cells
              else e
  {
    hide Checked, Crc, IsLast, Parse, EraseOnEntry, Programmed, Payload;
  }

  lemma ProgramCell(cells: seq<bv8>, a: nat, d: seq<bv8>, i: nat)
    requires i < |cells|
    ensures Programmed(cells, a, d)[i] == if a <= i < a + |d| then cells[i] & d[i - a] else cells[i]
  {
  }

  /** The sector of an aligned address in range is in range, and that of one out of range is not. */
  lemma SectorApart(a: nat, i: nat)
    ensures a % SECTOR == 0 && a <= i < a + SECTOR ==> (InRange(i) <==> InRange(a))
  {
  }

  lemma EntryCell(cells: seq<bv8>, a: nat, i: nat)
    requires i < |cells|
    ensures EraseOnEntry(cells, a)[i] == if a % SECTOR == 0 && a <= i < a + SECTOR then ERASED else cells[i]
  {
    if a % SECTOR == 0 {
      assert SectorStart(a) == a;
    }
  }

  lemma CheckedCell(step: CrcStep, s: Ota, src: Block, i: nat)
    requires i < |s.cells|
    requires IsLast(src) && Crc(step, Summed(src), s.crc) == Trailer(src) ==> !RecordTouches(src, i)
    ensures Checked(step, s, src).cells[i] == s.cells[i]
  {
    hide Parse, IsLast, ImgBytes, Crc, Summed, Trailer;
  }

  /** A call leaves every cell outside the image area and its record alone if and only if it starts in
      range and what of the payload lies beyond the area clears no bit there, or it starts out of range
      and, if on a sector boundary, in a sector that is erased already. */
  lemma StaysInsideExactlyIf(step: CrcStep, s: Ota, c: Call)
    ensures var a, d := AddressOf(s, c), Payload(c.src);
            StaysInside(step, s, c) <==>
              if InRange(a) then
                forall i :: FLASH_HI <= i < a + |d| && i < |s.cells| && Foreign(step, s, c, i) ==> s.cells[i] & d[i - a] == s.cells[i]
              else
                a % SECTOR == 0 ==> forall i :: a <= i < a + SECTOR && i < |s.cells| ==> s.cells[i] == ERASED
  {
    hide Store, Payload, Commits, AddressOf, RecordTouches;
    forall i | 0 <= i < |s.cells| && Foreign(step, s, c, i)
      ensures Store(step, s, c.block, c.src).cells[i] == ForeignCell(s, c, i)
    {
      ForeignCellIs(step, s, c, i);
    }
    var a := AddressOf(s, c);
    if !InRange(a) && a % SECTOR == 0 {
      forall i | a <= i < a + SECTOR
        ensures Foreign(step, s, c, i)
      {
        SectorApart(a, i);
        OutOfRangeCommitsNothing(step, s, c);
      }
    }
  }

  lemma OutOfRangeCommitsNothing(step: CrcStep, s: Ota, c: Call)
    requires !InRange(AddressOf(s, c))
    ensures !Commits(step, s, c)
  {
  }

  /** A block out of range is not stored: the address and the checksum stay, nothing is committed, and at
      most the sector that begins at the address is erased. */
  lemma OutOfRangeStores(step: CrcStep, s: Ota, c: Call, a: nat)
    requires a == (if c.block == 0 then Le(c.src[20..24]) else s.dataAddr) && !(0x27000 <= a < 0x200000)
    ensures var r := Store(step, s, c.block, c.src);
      && r.dataAddr == a && r.crc == (if c.block == 0 then 0 else s.crc) && r.commits == s.commits
      && |r.cells| == |s.cells|
      && forall i :: 0 <= i < |s.cells| ==> r.cells[i] == if a % 4096 == 0 && a <= i < a + 4096 then 0xFF else s.cells[i]
  {
    hide EraseOnEntry, Programmed, Le, Checked;
    forall i | 0 <= i < |s.cells|
      ensures EraseOnEntry(s.cells, a)[i] == if a % 4096 == 0 && a <= i < a + 4096 then 0xFF else s.cells[i]
    {
      EntryCell(s.cells, a, i);
    }
  }

  /** A caller need only see to it that the block lies in the area, or misses both it and the sectors. */
  lemma InsideIsSafe(step: CrcStep, s: Ota, c: Call)
    requires var a := AddressOf(s, c); if InRange(a) then a + |Payload(c.src)| <= FLASH_HI else a % SECTOR != 0
    ensures StaysInside(step, s, c)
  {
    StaysInsideExactlyIf(step, s, c);
  }

  /** A first block whose header is all zeros names address 0: the first sector of the chip is erased. */
  lemma FirstSectorErased(step: CrcStep, s: Ota)
    requires s.cells != [] && s.cells[0] != ERASED
    ensures var c := Call(0, seq(PKT_HD_LEN, _ => 0));
            AddressOf(s, c) == 0 && Store(step, s, 0, c.src).cells == SectorErased(s.cells, 0) && !StaysInside(step, s, c)
  {
    var c := Call(0, seq(PKT_HD_LEN, _ => 0));
    assert AddressOf(s, c) == 0 by { ZeroNumber(c.src[20..24]); }
    StaysInsideExactlyIf(step, s, c);
  }

  lemma ZeroNumber(d: seq<bv8>)
    requires d == [0, 0, 0, 0]
    ensures Le(d) == 0
  {
    LeOfFour(d);
  }

  // ------------------------------------------------------------------------------------------------
  // One image in flash.

  /** What storing a block does to the cells: append the payload, and perhaps commit. */
  ghost predicate Stored(cells: seq<bv8>, a: nat, b: Block, r: seq<bv8>) {
    || r == Append(cells, a, Payload(b))
    || (IsLast(b) && exists crc :: r == Committed(Append(cells, a, Payload(b)), CommitRecord(Parse(b), crc)))
  }

  lemma StoreCells(step: CrcStep, m: Ota, c: Call)
    requires InRange(AddressOf(m, c))
    ensures Store(step, m, c.block, c.src).dataAddr == AddressOf(m, c) + |Payload(c.src)|
    ensures Stored(m.cells, AddressOf(m, c), c.src, Store(step, m, c.block, c.src).cells)
  {
    var crc := Crc(step, Summed(c.src), if c.block == 0 then 0 else m.crc);
    var w := Append(m.cells, AddressOf(m, c), Payload(c.src));
    var r := Store(step, m, c.block, c.src).cells;
    if IsLast(c.src) && crc == Trailer(c.src) {
      assert r == Committed(w, CommitRecord(Parse(c.src), crc));
    }
  }

  lemma StillHolds(w: seq<bv8>, c: seq<bv8>, base: nat, content: seq<bv8>, hi: nat)
    requires Holds(w, base, content) && SectorEnd(base + |content|) <= hi && SameInside(c, w, base, hi)
    ensures Holds(c, base, content)
  {
    hide SectorEnd;
  }

  lemma SectorInside(a: nat, hi: nat)
    requires a < hi && hi % SECTOR == 0
    ensures SectorStart(a) + SECTOR <= hi
  {
  }

  /** One more block of the image. */
  lemma NextStored(cells: seq<bv8>, b: Block, base: nat, content: seq<bv8>, hi: nat, r: seq<bv8>)
    requires Holds(cells, base, content) && base + |content| + |Payload(b)| <= |cells|
    requires base % SECTOR == 0 && |content| % DATA_LEN == 0 && |b| <= BLOCK_LEN
    requires hi % SECTOR == 0 && base + |content| + DATA_LEN <= hi && RecordApart(b, base, hi)
    requires Stored(cells, base + |content|, b, r)
    ensures Holds(r, base, content + Payload(b))
    ensures Untouched(r, cells, base, hi, b)
  {
    hide Holds, Append, Committed, RecordTouches, RecordApart, Parse, IsLast, SameOutside, Untouched;
    hide SectorStart, SectorEnd;
    var a, d := base + |content|, Payload(b);
    var w := Append(cells, a, d);
    Appended(cells, base, content, d);
    Aligned(base, |content|);
    RoomInSector(a, |d|);
    SectorInside(a, hi);
    if r == w {
      UntouchedAppend(cells, w, r, base, hi, a, b);
    } else {
      var crc :| r == Committed(w, CommitRecord(Parse(b), crc));
      CommitElsewhere(w, b, crc, base, hi);
      StillHolds(w, r, base, content + d, hi);
      UntouchedAppend(cells, w, r, base, hi, a, b);
    }
  }

  lemma UntouchedAppend(cells: seq<bv8>, w: seq<bv8>, r: seq<bv8>, base: nat, hi: nat, a: nat, b: Block)
    requires SameOutside(w, cells, a, SectorStart(a) + SECTOR) && base <= a && SectorStart(a) + SECTOR <= hi
    requires r == w || Untouched(r, w, base, hi, b)
    ensures Untouched(r, cells, base, hi, b)
  {
    hide SectorStart, RecordTouches;
  }

  /** What the flash is to be after storing `blocks` when it was `was` before. */
  ghost predicate ImageIn(was: seq<bv8>, r: seq<bv8>, blocks: seq<Block>, base: nat, hi: nat)
  {
    && |r| == |was|
    && Holds(r, base, Payloads(blocks))
    && forall i :: 0 <= i < |was| && !(base <= i < hi) && (forall b :: b in blocks ==> !RecordTouches(b, i)) ==>
         r[i] == was[i]
  }

  lemma NothingYet(was: seq<bv8>, base: nat, hi: nat)
    requires base % SECTOR == 0 && base <= |was|
    ensures ImageIn(was, was, [], base, hi)
  {
  }

  lemma ImageGrows(was: seq<bv8>, m: seq<bv8>, before: seq<Block>, base: nat, hi: nat, b: Block, r: seq<bv8>)
    requires ImageIn(was, m, before, base, hi) && |r| == |m|
    requires Holds(r, base, Payloads(before) + Payload(b)) && Untouched(r, m, base, hi, b)
    ensures ImageIn(was, r, before + [b], base, hi)
  {
    assert (before + [b])[..|before|] == before;
    assert b in before + [b];
    assert forall x :: x in before ==> x in before + [b];
  }

  /** One more block of an image that has got as far as `before`. */
  lemma ImageStep(step: CrcStep, was: seq<bv8>, m: Ota, before: seq<Block>, c: Call, base: nat, hi: nat)
    requires ImageIn(was, m.cells, before, base, hi) && AddressOf(m, c) == base + |Payloads(before)|
    requires InRange(AddressOf(m, c)) && AddressOf(m, c) + |Payload(c.src)| <= |m.cells|
    requires base % SECTOR == 0 && |Payloads(before)| % DATA_LEN == 0 && |c.src| <= BLOCK_LEN
    requires hi % SECTOR == 0 && AddressOf(m, c) + DATA_LEN <= hi && RecordApart(c.src, base, hi)
    ensures var r := Store(step, m, c.block, c.src);
            ImageIn(was, r.cells, before + [c.src], base, hi) && r.dataAddr == AddressOf(m, c) + |Payload(c.src)|
  {
    hide Store, Stored, Holds, RecordTouches, RecordApart, Untouched;
    StoreCells(step, m, c);
    var r := Store(step, m, c.block, c.src);
    NextStored(m.cells, c.src, base, Payloads(before), hi, r.cells);
    ImageGrows(was, m.cells, before, base, hi, c.src, r.cells);
  }

  /** The end-to-end statement for the flash: whatever it held before, once the blocks of an image that
      starts on a sector have been stored, it holds exactly the concatenated payloads from the base
      address on; outside the sectors of the image and of commit records no cell has changed. */
  lemma {:induction false} ImageStored(step: CrcStep, s: Ota, blocks: seq<Block>, hi: nat)
    requires Fits(blocks) && Base(blocks) % SECTOR == 0 && |s.cells| >= FLASH_HI
    requires hi % SECTOR == 0 && Base(blocks) + DATA_LEN * |blocks| <= hi
    requires forall i :: 0 <= i < |blocks| ==> RecordApart(blocks[i], Base(blocks), hi)
    ensures Run(step, s, Numbered(blocks)).dataAddr == Base(blocks) + |Payloads(blocks)|
    ensures ImageIn(s.cells, Run(step, s, Numbered(blocks)).cells, blocks, Base(blocks), hi)
  {
    hide Store, ImageIn, RecordApart, Payload, Parse, Payloads;
    var n := |blocks| - 1;
    var base := Base(blocks);
    var before, b := blocks[..n], blocks[n];
    assert Numbered(blocks)[..n] == Numbered(before) && before + [b] == blocks;
    var m := Run(step, s, Numbered(before));
    PayloadsLength(blocks);
    if n > 0 {
      ImageStored(step, s, before, hi);
      PayloadsLength(before);
      FullPayload(blocks[n - 1]);
    } else {
      NothingYet(s.cells, base, hi);
      assert Payloads([]) == [] by { NoPayloads(); }
    }
    PayloadBound(b);
    ImageStep(step, s.cells, m, before, Numbered(blocks)[n], base, hi);
  }

  lemma NoPayloads()
    ensures Payloads([]) == []
  {
  }

  lemma FullPayload(b: Block)
    requires |b| == BLOCK_LEN
    ensures |Payload(b)| == DATA_LEN
  {
  }

  lemma PayloadBound(b: Block)
    requires |b| <= BLOCK_LEN
    ensures |Payload(b)| <= DATA_LEN
  {
  }
}
