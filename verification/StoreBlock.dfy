/** Storing the blocks of a firmware image (beken378/app/tftp/tftpclient.c, `store_block`).

    Every block is a 24-byte header and a payload.  The payloads go to consecutive flash addresses, the
    sectors being erased as they are entered; a checksum runs over the blocks; the last block ends in
    the checksum it must have, and only then a commit record is written. */
module StoreBlock {
  import opened Flash
  import opened LittleEndian

  const PKT_HD_LEN := 24
  const ALL_CRC_LEN := 4
  const DATA_LEN := 1024
  const BLOCK_LEN := DATA_LEN + PKT_HD_LEN
  const FLASH_LO := 0x27000
  const FLASH_HI := 0x200000

  type Block = b: seq<bv8> | |b| >= PKT_HD_LEN witness seq(PKT_HD_LEN, i => 0)

  datatype Header = Header(totalLen: nat, seqNo: nat, totalSeq: nat, os0ExAddr: nat, osHdAddr: nat,
                           os0FlashAddr: nat, os1FlashAddr: nat)

  /** The commit record `IMG_HEAD`. */
  datatype ImgHead = ImgHead(bkupAddr: nat, bkupLen: nat, exAddr: nat, osAddr: nat, hdAddr: nat, crc: nat,
                             status: nat, bk: nat)

  const IMG_LEN := 32

  function Parse(src: Block): Header {
    Header(Le(src[..4]), Le(src[4..6]), Le(src[6..8]), Le(src[8..12]), Le(src[12..16]), Le(src[16..20]), Le(src[20..24]))
  }

  function ImgBytes(r: ImgHead): (d: seq<bv8>)
    ensures |d| == IMG_LEN
  {
    Le32Bytes(r.bkupAddr) + Le32Bytes(r.bkupLen) + Le32Bytes(r.exAddr) + Le32Bytes(r.osAddr)
    + Le32Bytes(r.hdAddr) + Le32Bytes(r.crc) + Le32Bytes(r.status) + Le32Bytes(r.bk)
  }

  function CommitRecord(h: Header, crc: nat): ImgHead {
    ImgHead(h.os1FlashAddr, h.totalLen, h.os0ExAddr, h.os0FlashAddr, h.osHdAddr, crc, 1, 0)
  }

  /** One byte through the checksum; `co_crc32` is any such function folded over the bytes. */
  type CrcStep = (nat, bv8) -> nat

  function Crc(step: CrcStep, d: seq<bv8>, crc: nat): nat {
    if d == [] then crc else Crc(step, d[1..], step(crc, d[0]))
  }

  lemma {:induction false} CrcChains(step: CrcStep, d: seq<bv8>, e: seq<bv8>, crc: nat)
    ensures Crc(step, d + e, crc) == Crc(step, e, Crc(step, d, crc))
  {
    if d == [] {
      assert d + e == e;
    } else {
      assert (d + e)[1..] == d[1..] + e;
      CrcChains(step, d[1..], e, step(crc, d[0]));
    }
  }

  /** The bytes go through one after the other, the first one first. */
  lemma CrcNext(step: CrcStep, d: seq<bv8>, b: bv8, crc: nat)
    ensures Crc(step, [], crc) == crc
    ensures Crc(step, d + [b], crc) == step(Crc(step, d, crc), b)
  {
    CrcChains(step, d, [b], crc);
  }

  // ------------------------------------------------------------------------------------------------
  // What storing a block means.

  /** `commits` are the commit records written so far. */
  datatype Ota = Ota(cells: seq<bv8>, dataAddr: nat, crc: nat, commits: seq<ImgHead>)

  function Payload(b: Block): seq<bv8> {
    b[PKT_HD_LEN..]
  }

  predicate IsLast(b: Block) {
    Parse(b).seqNo == Parse(b).totalSeq
  }

  function Trailer(b: Block): nat {
    Le(b[|b| - ALL_CRC_LEN..])
  }

  /** The part of a block the checksum runs over. */
  function Summed(b: Block): seq<bv8> {
    if IsLast(b) then b[..|b| - ALL_CRC_LEN] else b
  }

  predicate InRange(addr: nat) {
    FLASH_LO <= addr < FLASH_HI
  }

  function EraseOnEntry(cells: seq<bv8>, addr: nat): (r: seq<bv8>)
    ensures |r| == |cells|
  {
    if addr % SECTOR == 0 then SectorErased(cells, addr) else cells
  }

  function Committed(cells: seq<bv8>, r: ImgHead): (c: seq<bv8>)
    ensures |c| == |cells|
  {
    Programmed(SectorErased(cells, r.hdAddr), r.hdAddr, ImgBytes(r))
  }

  /** The checksum part: a last block whose checksum is right commits. */
  function Checked(step: CrcStep, s: Ota, src: Block): (r: Ota)
    ensures |r.cells| == |s.cells|
  {
    var crc := Crc(step, Summed(src), s.crc);
    if IsLast(src) && crc == Trailer(src) then
      var record := CommitRecord(Parse(src), crc);
      s.(cells := Committed(s.cells, record), crc := crc, commits := s.commits + [record])
    else
      s.(crc := crc)
  }

  function Store(step: CrcStep, s: Ota, block: nat, src: Block): (r: Ota)
    ensures |r.cells| == |s.cells|
  {
    var addr := if block == 0 then Parse(src).os1FlashAddr else s.dataAddr;
    var crc := if block == 0 then 0 else s.crc;
    var cells := EraseOnEntry(s.cells, addr);
    if InRange(addr) then
      Checked(step, Ota(Programmed(cells, addr, Payload(src)), addr, crc, s.commits), src)
        .(dataAddr := addr + |Payload(src)|)
    else
      Ota(cells, addr, crc, s.commits)
  }

  // ------------------------------------------------------------------------------------------------
  // The code.

  class OtaStore {
    const chip: FlashChip
    const step: CrcStep
    var osDataAddr: nat
    var tftpCrc: nat
    var commits: seq<ImgHead>

    ghost function Model(): Ota
      reads this, chip.cells
    {
      Ota(chip.cells[..], osDataAddr, tftpCrc, commits)
    }

    constructor (chip: FlashChip, step: CrcStep)
      ensures this.chip == chip && this.step == step && osDataAddr == 0x8C000 && tftpCrc == 0 && commits == []
    {
      this.chip := chip;
      this.step := step;
      osDataAddr, tftpCrc, commits := 0x8C000, 0, [];
    }

    method CoCrc32(d: seq<bv8>, crc: nat) returns (r: nat)
      ensures r == Crc(step, d, crc)
    {
      r := crc;
      for i := 0 to |d|
        invariant Crc(step, d, crc) == Crc(step, d[i..], r)
      {
        r := step(r, d[i]);
      }
    }

    /** The checksum part of `store_block`, and the commit record where it comes out right. */
    method Sum(sendHd: Header, src: Block)
      requires sendHd == Parse(src)
      modifies this`tftpCrc, this`commits, chip.cells
      ensures Model() == Checked(step, old(Model()), src)
    {
      if sendHd.seqNo != sendHd.totalSeq {
        tftpCrc := CoCrc32(src, tftpCrc);
      } else {
        var orCrc := Le(src[|src| - ALL_CRC_LEN..]);
        tftpCrc := CoCrc32(src[..|src| - ALL_CRC_LEN], tftpCrc);
        if tftpCrc == orCrc {
          var imgHd := ImgHead(sendHd.os1FlashAddr, sendHd.totalLen, sendHd.os0ExAddr, sendHd.os0FlashAddr,
                               sendHd.osHdAddr, orCrc, 1, 0);
          chip.EraseSector(sendHd.osHdAddr);
          chip.WriteData(ImgBytes(imgHd), sendHd.osHdAddr);
          commits := commits + [imgHd];
        }
      }
    }

    /** `store_block`.  The sector is erased before the address is found to be out of range; the
        read-back comparison only prints and is left out. */
    method StoreBlock(block: nat, src: Block)
      modifies this, chip.cells
      ensures Model() == Store(step, old(Model()), block, src)
    {
      hide Programmed, SectorErased, Le, Checked;
      ghost var s := Model();
      var sendHd := Parse(src);
      if block == 0 {
        osDataAddr := sendHd.os1FlashAddr;
        tftpCrc := 0;
      }
      if osDataAddr % SECTOR == 0 {
        chip.EraseSector(osDataAddr);
      }
      assert chip.cells[..] == EraseOnEntry(s.cells, osDataAddr);
      if osDataAddr >= FLASH_HI || osDataAddr < FLASH_LO {
        return;
      }
      chip.WriteData(src[PKT_HD_LEN..], osDataAddr);
      Sum(sendHd, src);
      osDataAddr := osDataAddr + |src| - PKT_HD_LEN;
    }
  }
}
