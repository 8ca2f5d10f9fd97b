/** From a TFTP transfer to flash: the blocks the client hands to `store_block` are the file cut at the
    block size, so a finished transfer leaves the image in flash. */
module TftpOta {
  import opened Flash
  import opened LittleEndian
  import opened StoreBlock
  import opened OtaImage
  import opened OtaRecord
  import opened HttpOta
  import opened Tftp

  /** What has been handed to `store_block`. */
  function Calls(stored: seq<Stored>): (c: seq<Call>)
    requires forall i :: 0 <= i < |stored| ==> |stored[i].payload| >= PKT_HD_LEN
    ensures |c| == |stored|
  {
    seq(|stored|, i requires 0 <= i < |stored| => Call(stored[i].index, stored[i].payload))
  }

  /** A finished transfer of at most 65535 blocks in blocks of 1048 bytes has stored the blocks of the
      file, numbered from 0. */
  lemma TransferIsRun(t: Transfer, run: seq<System>, i: nat)
    requires t.Conforming() && t.blk == BLOCK_LEN && IsRun(t, run) && i < |run| && run[i].client.done
    requires t.Count() < SEQUENCE_SIZE && AllBlocks(Blocks(t.file, BLOCK_LEN))
    ensures var stored := run[i].client.stored;
            (forall j :: 0 <= j < |stored| ==> |stored[j].payload| >= PKT_HD_LEN)
            && Calls(stored) == Numbered(AsBlocks(Blocks(t.file, BLOCK_LEN)))
  {
    hide IsRun, Blocks, Transfer.Block, Content, Fits;
    LockStep(t, run, i);
    var stored, b := run[i].client.stored, Blocks(t.file, BLOCK_LEN);
    ServedBlock(t, 0);
    forall j | 0 <= j < |stored|
      ensures stored[j].payload == b[j] && stored[j].index == j
    {
      assert stored[j].payload == t.Block(j + 1);
      ServedBlock(t, j);
      IndexIsPosition(t, run, i, j);
    }
  }

  /** The server's block `j + 1` is the block `j` of the file. */
  lemma ServedBlock(t: Transfer, j: nat)
    requires t.blk > 0 && j < t.Count()
    ensures |Blocks(t.file, t.blk)| == t.Count() && t.Block(j + 1) == Blocks(t.file, t.blk)[j]
  {
    RestLength(t.file, t.blk);
    assert |Blocks(t.file, t.blk)| == t.Count();
    SameSlice(t, j);
    BlockOfFile(t.file, t.blk, j);
  }

  lemma SameSlice(t: Transfer, j: nat)
    requires t.blk > 0
    ensures t.Block(j + 1) == Slice(t.file, j * t.blk, (j + 1) * t.blk)
  {
    assert j * t.blk <= (j + 1) * t.blk;
  }

  /** The end-to-end statement for TFTP: whatever the channel lost or doubled, once the client is done
      flash holds the payloads of the image. */
  lemma TransferredImage(step: CrcStep, s: Ota, t: Transfer, run: seq<System>, i: nat, hi: nat)
    requires t.Conforming() && t.blk == BLOCK_LEN && IsRun(t, run) && i < |run| && run[i].client.done
    requires t.Count() < SEQUENCE_SIZE && AllBlocks(Blocks(t.file, BLOCK_LEN)) && |s.cells| >= FLASH_HI
    requires var b := AsBlocks(Blocks(t.file, BLOCK_LEN));
      && Fits(b) && Base(b) % SECTOR == 0
      && hi % SECTOR == 0 && Base(b) + DATA_LEN * |b| <= hi
      && forall j :: 0 <= j < |b| ==> RecordApart(b[j], Base(b), hi)
    ensures var stored, b := run[i].client.stored, AsBlocks(Blocks(t.file, BLOCK_LEN));
      && (forall j :: 0 <= j < |stored| ==> |stored[j].payload| >= PKT_HD_LEN)
      && ImageIn(s.cells, Run(step, s, Calls(stored)).cells, b, Base(b), hi)
  {
    hide ImageIn, Fits, RecordApart, IsRun;
    TransferIsRun(t, run, i);
    ImageStored(step, s, AsBlocks(Blocks(t.file, BLOCK_LEN)), hi);
  }

  /** The same in bytes: payloads, record, and what stays, once the client is done. */
  lemma TransferredContent(step: CrcStep, s: Ota, t: Transfer, run: seq<System>, i: nat, hi: nat)
    requires t.Conforming() && t.blk == 1048 && IsRun(t, run) && i < |run| && run[i].client.done
    requires t.Count() < 65536 && ImageContent(t.file, hi)
    ensures var stored := run[i].client.stored;
      && (forall j :: 0 <= j < |stored| ==> |stored[j].payload| >= 24)
      && var r := Run(step, s, Calls(stored)).cells;
         && |r| == |s.cells| && (|r| >= 0x200000 ==> ImageCells(r, t.file))
         && (OneLast(t.file) && RecordFits(r, LastBlock(t.file)) ==>
               if ChecksumRight(step, t.file) then RecordStands(r, LastBlock(t.file))
               else UnchangedOutside(s.cells, r, Le(t.file[20..24]), hi))
  {
    hide IsRun, ImageContent, ImageCells, OneLast, ChecksumRight, RecordStands, UnchangedOutside, DeliveredAll, Blocks, Le;
    var o := Sink(s, 0, 0);
    ContentStored(step, o, t.file, hi, s.cells);
    TransferIsRun(t, run, i);
    DeliveredIsRun(step, o, Blocks(t.file, BLOCK_LEN));
  }
}
