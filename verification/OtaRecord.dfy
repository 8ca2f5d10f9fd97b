/** The commit record in flash, byte for byte (beken378/app/tftp/tftpclient.c, `store_block`): what is
    said here refers to the bytes of the blocks and to the cells alone. */
module OtaRecord {
  import opened Flash
  import opened LittleEndian
  import opened StoreBlock
  import opened OtaImage

  /** The record that a block commits: address and length of the image, the addresses of its parts, the
      checksum, the status 1, and an unused word. */
  function RecordBytes(src: seq<bv8>): (r: seq<bv8>)
    requires |src| >= 24
    ensures |r| == 32
  {
    src[20..24] + src[..4] + src[8..12] + src[16..20] + src[12..16] + src[|src| - 4..] + [1, 0, 0, 0] + [0, 0, 0, 0]
  }

  /** The address in the block's header at which the record is to stand. */
  function RecordAt(src: seq<bv8>): nat
    requires |src| >= 24
  {
    Le(src[12..16])
  }

  /** The record fits its sector and the chip. */
  predicate RecordFits(cells: seq<bv8>, src: seq<bv8>)
    requires |src| >= 24
  {
    RecordAt(src) % 4096 + 32 <= 4096 && RecordAt(src) + 32 <= |cells|
  }

  /** The record stands in flash, alone in its sector. */
  ghost predicate RecordStands(cells: seq<bv8>, src: seq<bv8>)
    requires |src| >= 24
  {
    var hd := RecordAt(src);
    && ReadRange(cells, hd, 32) == RecordBytes(src)
    && forall i :: hd - hd % 4096 <= i < hd - hd % 4096 + 4096 && i < |cells| && !(hd <= i < hd + 32) ==> cells[i] == 0xFF
  }

  /** The block is in range, says it is the last, and ends in the checksum of what was stored since block
      0 and of itself without those four bytes. */
  predicate IsRight(step: CrcStep, s: Ota, c: Call) {
    var a, n := if c.block == 0 then Le(c.src[20..24]) else s.dataAddr, |c.src| - 4;
    0x27000 <= a < 0x200000 && c.src[4..6] == c.src[6..8] &&
    Crc(step, c.src[..n], if c.block == 0 then 0 else s.crc) == Le(c.src[n..])
  }

  lemma RightCommits(step: CrcStep, s: Ota, c: Call)
    ensures IsRight(step, s, c) <==> Commits(step, s, c)
    ensures IsRight(step, s, c) <==> Store(step, s, c.block, c.src).commits != s.commits
  {
    hide Le, Crc;
    LeInjective(c.src[4..6], c.src[6..8]);
  }

  lemma StatusBytes()
    ensures Le32Bytes(1) == [1, 0, 0, 0] && Le32Bytes(0) == [0, 0, 0, 0]
  {
  }

  lemma RecordIs(src: Block)
    ensures ImgBytes(CommitRecord(Parse(src), Le(src[|src| - 4..]))) == RecordBytes(src)
  {
    hide Le, Le32Bytes;
    StatusBytes();
    BytesOfLe(src[20..24]);
    BytesOfLe(src[..4]);
    BytesOfLe(src[8..12]);
    BytesOfLe(src[16..20]);
    BytesOfLe(src[12..16]);
    BytesOfLe(src[|src| - 4..]);
  }

  lemma CommittedStands(cells: seq<bv8>, src: Block)
    requires RecordFits(cells, src)
    ensures RecordStands(Committed(cells, CommitRecord(Parse(src), Le(src[|src| - 4..]))), src)
  {
    hide Le, ImgBytes, RecordBytes, SectorErased, Programmed;
    RecordIs(src);
    var hd, e := RecordAt(src), SectorErased(cells, RecordAt(src));
    forall i | hd - hd % 4096 <= i < hd - hd % 4096 + 4096 && i < |cells|
      ensures e[i] == 0xFF
    {
      SectorCell(cells, hd, i);
    }
    WriteThenRead(e, hd, RecordBytes(src), 0, 32);
    assert RecordBytes(src)[0..32] == RecordBytes(src);
  }

  /** A call commits if and only if its block is right, and then the record stands in flash. */
  lemma StoredRecordStands(step: CrcStep, s: Ota, c: Call)
    requires IsRight(step, s, c) && RecordFits(s.cells, c.src)
    ensures RecordStands(Store(step, s, c.block, c.src).cells, c.src)
  {
    hide Le, Crc, Programmed, EraseOnEntry, Committed, RecordStands, CommitRecord;
    RightCommits(step, s, c);
    StoreIs(step, s, c);
    var w := Programmed(EraseOnEntry(s.cells, AddressOf(s, c)), AddressOf(s, c), Payload(c.src));
    CommittedStands(w, c.src);
  }

  /** A first block goes to the address in the last four bytes of its header. */
  lemma FirstBlockAt(step: CrcStep, s: Ota, src: Block)
    requires var a := Le(src[20..24]); 0x27000 <= a < 0x200000 && a % 4096 == 0 && a + |src| - 24 <= |s.cells|
    requires |src| <= 24 + 1024 && src[4..6] != src[6..8]
    ensures var a, r := Le(src[20..24]), Store(step, s, 0, src);
            ReadRange(r.cells, a, |src| - 24) == src[24..] && r.dataAddr == a + |src| - 24
  {
    hide Le, Crc, Programmed, EraseOnEntry;
    var c, a := Call(0, src), Le(src[20..24]);
    RightCommits(step, s, c);
    StoreIs(step, s, c);
    var e := EraseOnEntry(s.cells, a);
    forall i | a <= i < a + |src| - 24
      ensures e[i] == ERASED
    {
      EntryCell(s.cells, a, i);
    }
    WriteThenRead(e, a, src[24..], 0, |src| - 24);
    assert src[24..][0..|src| - 24] == src[24..];
  }
}
