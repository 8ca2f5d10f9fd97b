/** From network pieces to flash (beken378/app/http/utils_httpc.c): pieces of any length are gathered in
    a buffer, each full buffer is handed on, and what is left is handed on at the end. */
module HttpOta {
  import opened Flash
  import opened StoreBlock
  import opened LittleEndian
  import opened OtaImage
  import opened OtaRecord
  import opened Numbers
  import opened Pieces

  const HTTP_FLASH_ADDR := 0xff000

  // ------------------------------------------------------------------------------------------------
  // Cutting a stream.

  function FullBlocks(s: seq<bv8>, size: nat): (b: seq<seq<bv8>>)
    requires size > 0
    ensures forall i :: 0 <= i < |b| ==> |b[i]| == size
  {
    if |s| < size then [] else [s[..size]] + FullBlocks(s[size..], size)
  }

  function Rest(s: seq<bv8>, size: nat): (r: seq<bv8>)
    requires size > 0
    ensures |r| == |s| % size
  {
    if |s| < size then s else
      DivStep(|s[size..]|, size);
      Rest(s[size..], size)
  }

  /** All the blocks that are handed on for a stream, the last one being the remainder. */
  function Blocks(s: seq<bv8>, size: nat): (b: seq<seq<bv8>>)
    requires size > 0
    ensures |b| > 0
  {
    FullBlocks(s, size) + [Rest(s, size)]
  }

  /** Cutting loses nothing and the order is kept. */
  lemma {:induction false} BlocksMakeStream(s: seq<bv8>, size: nat)
    requires size > 0
    ensures Flatten(Blocks(s, size)) == s
  {
    hide Flatten;
    if |s| < size {
      FlattenFront(s, []);
      assert Flatten([]) == [] by { FlattenNothing(); }
      assert Blocks(s, size) == [s] + [];
    } else {
      BlocksMakeStream(s[size..], size);
      assert Blocks(s, size) == [s[..size]] + Blocks(s[size..], size);
      FlattenFront(s[..size], Blocks(s[size..], size));
      assert s == s[..size] + s[size..];
    }
  }

  /** More of the stream, as long as it fits the buffer. */
  lemma {:induction false} MoreStream(s: seq<bv8>, t: seq<bv8>, size: nat)
    requires size > 0 && |Rest(s, size)| + |t| <= size
    ensures |Rest(s, size)| + |t| < size ==>
              FullBlocks(s + t, size) == FullBlocks(s, size) && Rest(s + t, size) == Rest(s, size) + t
    ensures |Rest(s, size)| + |t| == size ==>
              FullBlocks(s + t, size) == FullBlocks(s, size) + [Rest(s, size) + t] && Rest(s + t, size) == []
  {
    if |s| >= size {
      MoreStream(s[size..], t, size);
      assert (s + t)[..size] == s[..size] && (s + t)[size..] == s[size..] + t;
    } else if |s| + |t| == size {
      assert (s + t)[..size] == s + t && (s + t)[size..] == [];
    }
  }

  lemma {:induction false} RestLength(s: seq<bv8>, size: nat)
    requires size > 0
    ensures |Rest(s, size)| == |s| % size && |FullBlocks(s, size)| == |s| / size
  {
    if |s| >= size {
      RestLength(s[size..], size);
      assert |s| == |s[size..]| + size;
      DivStep(|s[size..]|, size);
    }
  }

  lemma DivStep(n: nat, size: nat)
    requires size > 0
    ensures (n + size) % size == n % size && (n + size) / size == n / size + 1
  {
    var q, r := n / size, n % size;
    assert n + size == size * (q + 1) + r;
    DivUnique(n + size, size, q + 1, r);
  }

  /** The bytes `lo..hi` of a stream, as far as it goes. */
  function Slice(s: seq<bv8>, lo: nat, hi: nat): seq<bv8> {
    if lo <= hi <= |s| then s[lo..hi] else if lo <= |s| then s[lo..] else []
  }

  lemma SliceShifts(s: seq<bv8>, n: nat, lo: nat, hi: nat)
    requires n <= |s|
    ensures Slice(s[n..], lo, hi) == Slice(s, n + lo, n + hi)
  {
  }

  lemma FirstCut(s: seq<bv8>, size: nat)
    requires 0 < size <= |s|
    ensures Blocks(s, size) == [s[..size]] + Blocks(s[size..], size)
  {
  }

  /** The block `i` of a stream, counted from 0, and how many there are. */
  lemma {:induction false} BlockOfFile(s: seq<bv8>, size: nat, i: nat)
    requires size > 0 && i < |Blocks(s, size)|
    ensures Blocks(s, size)[i] == Slice(s, i * size, (i + 1) * size)
    decreases |s|
  {
    hide Blocks, Slice;
    if |s| < size {
      Uncut(s, size);
    } else {
      FirstCut(s, size);
      assert (i + 1) * size == i * size + size;
      if i > 0 {
        BlockOfFile(s[size..], size, i - 1);
        assert (i - 1) * size + size == i * size;
        SliceShifts(s, size, (i - 1) * size, i * size);
      } else {
        assert Slice(s, 0, size) == s[..size] by { Whole(s, size); }
      }
    }
  }

  lemma Uncut(s: seq<bv8>, size: nat)
    requires |s| < size
    ensures Blocks(s, size) == [s] && Slice(s, 0, size) == s
  {
  }

  lemma Whole(s: seq<bv8>, n: nat)
    requires n <= |s|
    ensures Slice(s, 0, n) == s[..n]
  {
  }

  // ------------------------------------------------------------------------------------------------
  // Where the blocks go.

  /** The two build variants: image blocks for `store_block`, or raw data from a fixed address on. */
  datatype Format = ImageBlocks | Raw

  function BufSize(f: Format): (n: nat)
    ensures n > 0
  {
    match f case ImageBlocks => BLOCK_LEN case Raw => 1024
  }

  datatype Sink = Sink(ota: Ota, block: nat, address: nat)

  predicate Deliverable(f: Format, d: seq<bv8>) {
    f.ImageBlocks? ==> |d| >= PKT_HD_LEN
  }

  /** `http_flash_wr` on the cells. */
  function RawWritten(cells: seq<bv8>, address: nat, d: seq<bv8>): (r: seq<bv8>)
    ensures |r| == |cells|
  {
    if InRange(address) then Append(cells, address, d) else EraseOnEntry(cells, address)
  }

  /** `d` is written at `a`: entering a sector erases it, and in range the data is ANDed into its cells. */
  predicate WrittenRaw(was: seq<bv8>, now: seq<bv8>, a: nat, d: seq<bv8>) {
    |now| == |was| && forall i :: 0 <= i < |was| ==> now[i] == RawCell(was[i], a, d, i)
  }

  function RawCell(was: bv8, a: nat, d: seq<bv8>, i: nat): bv8 {
    var e: bv8 := if a % 4096 == 0 && a <= i < a + 4096 then 0xFF else was;
    if 0x27000 <= a < 0x200000 && a <= i < a + |d| then e & d[i - a] else e
  }

  lemma RawCells(cells: seq<bv8>, a: nat, d: seq<bv8>)
    ensures WrittenRaw(cells, RawWritten(cells, a, d), a, d)
  {
    hide EraseOnEntry, Programmed;
    forall i | 0 <= i < |cells|
      ensures RawWritten(cells, a, d)[i] == RawCell(cells[i], a, d, i)
    {
      EntryCell(cells, a, i);
      ProgramCell(EraseOnEntry(cells, a), a, d, i);
    }
  }

  function Delivered(step: CrcStep, f: Format, s: Sink, d: seq<bv8>): Sink
    requires Deliverable(f, d)
  {
    match f
    case ImageBlocks => Sink(Store(step, s.ota, s.block, d), s.block + 1, s.address)
    case Raw => Sink(s.ota.(cells := RawWritten(s.ota.cells, s.address, d)), s.block,
                     if InRange(s.address) then s.address + |d| else s.address)
  }

  function DeliveredAll(step: CrcStep, f: Format, s: Sink, b: seq<seq<bv8>>): Sink
    requires forall i :: 0 <= i < |b| ==> Deliverable(f, b[i])
  {
    if b == [] then s else Delivered(step, f, DeliveredAll(step, f, s, b[..|b| - 1]), b[|b| - 1])
  }

  lemma DeliverOneMore(step: CrcStep, f: Format, s: Sink, b: seq<seq<bv8>>, d: seq<bv8>)
    requires (forall i :: 0 <= i < |b| ==> Deliverable(f, b[i])) && Deliverable(f, d)
    ensures DeliveredAll(step, f, s, b + [d]) == Delivered(step, f, DeliveredAll(step, f, s, b), d)
  {
    assert (b + [d])[..|b|] == b;
  }

  // ------------------------------------------------------------------------------------------------
  // An image as a content: what is said here refers to its bytes alone.

  /** Whether the record of block `k`, should it be the last, stays away from the cells `base..hi`. */
  predicate RecordElsewhere(content: seq<bv8>, k: nat, base: nat, hi: nat) {
    var o := 1048 * k;
    o + 24 <= |content| && content[o + 4..o + 6] == content[o + 6..o + 8] ==>
      var hd := Le(content[o + 12..o + 16]);
      (hd - hd % 4096 + 4096 <= base && hd + 32 <= base) || hd - hd % 4096 >= hi
  }

  /** The content is cut into blocks of 1048 bytes with headers of 24; the header of the first block names
      an aligned address from which the payloads fit the image area, and the sectors up to `hi`. */
  predicate ImageContent(content: seq<bv8>, hi: nat) {
    && |content| % 1048 >= 24
    && var base, n := Le(content[20..24]), |content| / 1048 + 1;
       && base % 4096 == 0 && 0x27000 <= base && base + 1024 * (n - 1) < 0x200000
       && hi % 4096 == 0 && base + 1024 * n <= hi
       && forall k :: 0 <= k < n ==> RecordElsewhere(content, k, base, hi)
  }

  /** Every payload byte of the content is in its cell. */
  ghost predicate ImageCells(cells: seq<bv8>, content: seq<bv8>) {
    |content| >= 24 && forall p :: 0 <= p < |content| && p % 1048 >= 24 ==> PayloadCell(cells, content, p)
  }

  predicate PayloadCell(cells: seq<bv8>, content: seq<bv8>, p: nat)
    requires 24 <= |content| && p < |content| && p % 1048 >= 24
  {
    var i := Le(content[20..24]) + 1024 * (p / 1048) + (p % 1048 - 24);
    i < |cells| && cells[i] == content[p]
  }

  /** Block `k` of the content, byte for byte. */
  lemma BlockBytes(content: seq<bv8>, k: nat)
    requires k <= |content| / 1048
    ensures |Blocks(content, 1048)| == |content| / 1048 + 1
    ensures 1048 * k <= |content|
    ensures Blocks(content, 1048)[k] == content[1048 * k..if k < |content| / 1048 then 1048 * k + 1048 else |content|]
  {
    hide Blocks;
    BlocksLength(content, 1048);
    BlockOfFile(content, 1048, k);
  }

  lemma BlocksLength(s: seq<bv8>, size: nat)
    requires size > 0
    ensures |Blocks(s, size)| == |s| / size + 1
  {
    RestLength(s, size);
  }

  /** A content that is an image meets the conditions of the theorem on blocks. */
  lemma ContentFits(content: seq<bv8>, hi: nat)
    requires ImageContent(content, hi)
    ensures AllBlocks(Blocks(content, 1048))
    ensures var b := AsBlocks(Blocks(content, 1048));
      && |b| == |content| / 1048 + 1 && Fits(b) && Base(b) == Le(content[20..24])
      && Base(b) % SECTOR == 0 && hi % SECTOR == 0 && Base(b) + DATA_LEN * |b| <= hi
      && forall k :: 0 <= k < |b| ==> RecordApart(b[k], Base(b), hi)
  {
    hide Blocks, Le;
    var s, n := Blocks(content, 1048), |content| / 1048 + 1;
    BlocksLength(content, 1048);
    forall k | 0 <= k < n
      ensures s[k] == content[1048 * k..if k < n - 1 then 1048 * k + 1048 else |content|] && |s[k]| >= 24
      ensures k < n - 1 ==> |s[k]| == 1048
      ensures k == n - 1 ==> |s[k]| == |content| % 1048
    {
      BlockBytes(content, k);
    }
    var b := AsBlocks(s);
    assert b[0][20..24] == content[20..24];
    forall k | 0 <= k < n
      ensures RecordApart(b[k], Base(b), hi)
    {
      assert RecordElsewhere(content, k, Base(b), hi);
      HeaderBytes(content, b[k], k);
      BlockApart(content, b[k], k, Base(b), hi);
    }
  }

  lemma HeaderBytes(content: seq<bv8>, b: seq<bv8>, k: nat)
    requires |b| >= 24 && 1048 * k + |b| <= |content| && b == content[1048 * k..1048 * k + |b|]
    ensures b[4..6] == content[1048 * k + 4..1048 * k + 6] && b[6..8] == content[1048 * k + 6..1048 * k + 8]
    ensures b[12..16] == content[1048 * k + 12..1048 * k + 16]
  {
    SliceOfSlice(content, 1048 * k, |b|, 4, 6);
    SliceOfSlice(content, 1048 * k, |b|, 6, 8);
    SliceOfSlice(content, 1048 * k, |b|, 12, 16);
  }

  lemma SliceOfSlice(s: seq<bv8>, o: nat, n: nat, lo: nat, hi: nat)
    requires lo <= hi <= n && o + n <= |s|
    ensures s[o..o + n][lo..hi] == s[o + lo..o + hi]
  {
    var a, b := s[o..o + n][lo..hi], s[o + lo..o + hi];
    assert |a| == |b|;
    forall i | 0 <= i < |a|
      ensures a[i] == b[i]
    {
      assert a[i] == s[o..o + n][lo + i] == s[o + (lo + i)] && b[i] == s[o + lo + i];
    }
  }

  lemma BlockApart(content: seq<bv8>, b: Block, k: nat, base: nat, hi: nat)
    requires RecordElsewhere(content, k, base, hi) && 1048 * k + 24 <= |content|
    requires b[4..6] == content[1048 * k + 4..1048 * k + 6] && b[6..8] == content[1048 * k + 6..1048 * k + 8]
    requires b[12..16] == content[1048 * k + 12..1048 * k + 16]
    ensures RecordApart(b, base, hi)
  {
    hide Le;
    LeInjective(b[4..6], b[6..8]);
  }

  /** Where the payload bytes of full blocks lie. */
  lemma {:induction false} PayloadByte(blocks: seq<Block>, k: nat, j: nat)
    requires FullButLast(blocks) && k < |blocks| && 24 + j < |blocks[k]|
    ensures 1024 * k + j < |Payloads(blocks)| && Payloads(blocks)[1024 * k + j] == blocks[k][24 + j]
  {
    PayloadsLength(blocks);
    var n := |blocks| - 1;
    if n > 0 {
      PayloadsLength(blocks[..n]);
      if k < n {
        PayloadByte(blocks[..n], k, j);
      }
    } else {
      assert Payloads(blocks[..0]) == [];
    }
  }

  /** Held payloads are the bytes of the content in their cells. */
  lemma HeldIsInCells(cells: seq<bv8>, content: seq<bv8>, hi: nat)
    requires ImageContent(content, hi) && AllBlocks(Blocks(content, 1048))
    requires Holds(cells, Le(content[20..24]), Payloads(AsBlocks(Blocks(content, 1048))))
    ensures ImageCells(cells, content)
  {
    hide Blocks, Le, RecordElsewhere;
    ContentFits(content, hi);
    var b := AsBlocks(Blocks(content, 1048));
    forall p | 0 <= p < |content| && p % 1048 >= 24
      ensures PayloadCell(cells, content, p)
    {
      var k, j := p / 1048, p % 1048 - 24;
      BlockBytes(content, k);
      assert b[k][24 + j] == content[p];
      PayloadByte(b, k, j);
    }
  }

  // ------------------------------------------------------------------------------------------------
  // The code.

  class HttpWriter {
    const format: Format
    const store: OtaStore
    const wrBuf: array<bv8>
    var wrLastLen: nat
    var otaWrBlock: nat
    var flashAddress: nat
    ghost var stream: seq<bv8>   // everything received so far
    ghost const origin: Sink     // where the download began

    ghost function Now(): Sink
      reads this, store, store.chip.cells
    {
      Sink(store.Model(), otaWrBlock, flashAddress)
    }

    ghost predicate Valid()
      reads this, wrBuf, store, store.chip.cells
    {
      && wrBuf.Length == BufSize(format) && wrBuf != store.chip.cells
      && origin.block == 0 && origin.address == HTTP_FLASH_ADDR && |origin.ota.cells| == store.chip.cells.Length
      && wrLastLen < BufSize(format)
      && wrBuf[..wrLastLen] == Rest(stream, BufSize(format))
      && Now() == DeliveredAll(store.step, format, origin, FullBlocks(stream, BufSize(format)))
    }

    /** `http_flash_init`; the buffer is taken to be allocated. */
    constructor (format: Format, store: OtaStore)
      ensures Valid() && stream == [] && fresh(wrBuf)
      ensures this.format == format && this.store == store && origin == Sink(store.Model(), 0, HTTP_FLASH_ADDR)
    {
      this.format := format;
      this.store := store;
      wrBuf := new bv8[BufSize(format)];
      wrLastLen, otaWrBlock, flashAddress := 0, 0, HTTP_FLASH_ADDR;
      stream := [];
      origin := Sink(store.Model(), 0, HTTP_FLASH_ADDR);
    }

    method HttpFlashWr(src: seq<bv8>)
      modifies this`flashAddress, store.chip.cells
      ensures store.chip.cells[..] == RawWritten(old(store.chip.cells[..]), old(flashAddress), src)
      ensures flashAddress == if 0x27000 <= old(flashAddress) < 0x200000 then old(flashAddress) + |src| else old(flashAddress)
      ensures WrittenRaw(old(store.chip.cells[..]), store.chip.cells[..], old(flashAddress), src)
    {
      hide SectorErased, Programmed, WrittenRaw;
      RawCells(store.chip.cells[..], flashAddress, src);
      if flashAddress % SECTOR == 0 {
        store.chip.EraseSector(flashAddress);
      }
      if flashAddress >= FLASH_HI || flashAddress < FLASH_LO {
        return;
      }
      store.chip.WriteData(src, flashAddress);
      flashAddress := flashAddress + |src|;
    }

    /** One full buffer handed on. */
    method Deliver(src: seq<bv8>)
      requires Deliverable(format, src)
      modifies this`otaWrBlock, this`flashAddress, store, store.chip.cells
      ensures Now() == Delivered(store.step, format, old(Now()), src)
    {
      if format.ImageBlocks? {
        store.StoreBlock(otaWrBlock, src);
        otaWrBlock := otaWrBlock + 1;
      } else {
        HttpFlashWr(src);
      }
    }

    /** One turn of the loop of `http_wr_to_flash`: a piece that fits the buffer. */
    method Take(piece: seq<bv8>)
      requires Valid() && wrLastLen + |piece| <= wrBuf.Length
      modifies this`wrLastLen, this`otaWrBlock, this`flashAddress, this`stream, wrBuf, store, store.chip.cells
      ensures Valid() && stream == old(stream) + piece
    {
      hide Delivered, DeliveredAll, FullBlocks, Rest, Store;
      ghost var held := wrBuf[..wrLastLen];
      forall k | 0 <= k < |piece| { wrBuf[wrLastLen + k] := piece[k]; }
      assert wrBuf[..wrLastLen + |piece|] == held + piece;
      MoreStream(stream, piece, wrBuf.Length);
      ghost var before := FullBlocks(stream, wrBuf.Length);
      stream := stream + piece;
      wrLastLen := wrLastLen + |piece|;
      if wrLastLen >= wrBuf.Length {
        Deliver(wrBuf[..wrLastLen]);
        DeliverOneMore(store.step, format, origin, before, wrBuf[..wrLastLen]);
        wrLastLen := 0;
      }
    }

    /** `http_wr_to_flash`: however much comes, what was handed on is the stream cut at the buffer size
        and what is left of it is in the buffer. */
    method Feed(page: seq<bv8>)
      requires Valid()
      modifies this`wrLastLen, this`otaWrBlock, this`flashAddress, this`stream, wrBuf, store, store.chip.cells
      ensures Valid() && stream == old(stream) + page
    {
      hide Delivered, DeliveredAll, FullBlocks, Rest, Store;
      var i := 0;
      while i < |page|
        invariant 0 <= i <= |page|
        invariant Valid() && stream == old(stream) + page[..i]
      {
        var room := wrBuf.Length - wrLastLen;
        var wL := if |page| - i < room then |page| - i else room;
        Take(page[i..i + wL]);
        assert page[..i] + page[i..i + wL] == page[..i + wL];
        i := i + wL;
      }
      assert page[..i] == page;
    }

    /** The end of the content: the remainder is handed on, even an empty one. */
    method Finish()
      requires Valid() && Deliverable(format, Rest(stream, BufSize(format)))
      modifies this`otaWrBlock, this`flashAddress, store, store.chip.cells
      ensures Now() == DeliveredAll(store.step, format, origin, Blocks(stream, BufSize(format)))
    {
      Deliver(wrBuf[..wrLastLen]);
      DeliverOneMore(store.step, format, origin, FullBlocks(stream, BufSize(format)), wrBuf[..wrLastLen]);
    }

    /** A whole download, however its content comes in pieces.  In the image format the payload bytes of an
        image are in their cells, and the record of the last block stands in flash if the checksum is right;
        otherwise no cell outside the image's sectors has changed.  In the raw format the content is in
        flash byte for byte.  `hi` is any bound of the image's sectors. */
    method Download(pieces: seq<seq<bv8>>, ghost hi: nat)
      requires Valid() && stream == []
      requires format.ImageBlocks? ==> |Flatten(pieces)| % 1048 >= 24
      modifies this, wrBuf, store, store.chip.cells
      ensures Now() == DeliveredAll(store.step, format, origin, Blocks(Flatten(pieces), BufSize(format)))
      ensures format.ImageBlocks? && ImageContent(Flatten(pieces), hi) && store.chip.cells.Length >= 0x200000 ==>
                ImageCells(store.chip.cells[..], Flatten(pieces))
      ensures format.ImageBlocks? && ImageContent(Flatten(pieces), hi) && OneLast(Flatten(pieces))
              && RecordFits(store.chip.cells[..], LastBlock(Flatten(pieces))) ==>
                if ChecksumRight(store.step, Flatten(pieces)) then
                  RecordStands(store.chip.cells[..], LastBlock(Flatten(pieces)))
                else
                  UnchangedOutside(old(store.chip.cells[..]), store.chip.cells[..], Le(Flatten(pieces)[20..24]), hi)
      ensures format.Raw? && 0xff000 + |Flatten(pieces)| <= 0x200000 <= store.chip.cells.Length ==>
                forall p :: 0 <= p < |Flatten(pieces)| ==> store.chip.cells[..][0xff000 + p] == Flatten(pieces)[p]
    {
      hide Delivered, DeliveredAll, FullBlocks, Rest, Blocks, Flatten, ImageContent, ImageCells, OneLast, ChecksumRight;
      ghost var was := store.chip.cells[..];
      AtTheBeginning();
      assert pieces[..0] == [] && Flatten([]) == [] by { FlattenNothing(); }
      for i := 0 to |pieces|
        invariant Valid() && stream == Flatten(pieces[..i])
      {
        Feed(pieces[i]);
        FlattenNext(pieces, i);
      }
      assert pieces[..|pieces|] == pieces;
      ghost var content := Flatten(pieces);
      RestLength(content, BufSize(format));
      Finish();
      if format.ImageBlocks? && ImageContent(content, hi) {
        ContentStored(store.step, origin, content, hi, was);
      }
      if format.Raw? && 0xff000 + |content| <= 0x200000 <= store.chip.cells.Length {
        DownloadedRaw(store.step, origin, content);
        RawBytes(store.chip.cells[..], content);
      }
    }

    /** Before the first piece nothing has been handed on. */
    lemma AtTheBeginning()
      requires Valid() && stream == []
      ensures Now() == origin
    {
    }
  }

  // ------------------------------------------------------------------------------------------------
  // What a download leaves in the flash.

  /** The byte count `store_block` passes on, a 32-bit difference. */
  function PayloadCount(len: nat): nat {
    (len - PKT_HD_LEN) % 0x1_0000_0000
  }

  /** The remainder of a content is stored as a block of at most 1024 bytes exactly when it is at least
      as long as a block header; otherwise, for instance when nothing remains, the count that is
      written wraps around. */
  lemma RemainderStorable(stream: seq<bv8>)
    ensures PayloadCount(|Rest(stream, BLOCK_LEN)|) <= DATA_LEN <==> PKT_HD_LEN <= |stream| % BLOCK_LEN
    ensures AllBlocks(Blocks(stream, BLOCK_LEN)) <==> PKT_HD_LEN <= |stream| % BLOCK_LEN
  {
    RestLength(stream, BLOCK_LEN);
    var b := Blocks(stream, BLOCK_LEN);
    assert b[|b| - 1] == Rest(stream, BLOCK_LEN);
  }

  ghost predicate AllBlocks(b: seq<seq<bv8>>) {
    forall i :: 0 <= i < |b| ==> |b[i]| >= PKT_HD_LEN
  }

  function AsBlocks(b: seq<seq<bv8>>): (r: seq<Block>)
    requires AllBlocks(b)
    ensures |r| == |b| && forall i :: 0 <= i < |b| ==> r[i] == b[i]
  {
    seq(|b|, i requires 0 <= i < |b| => b[i])
  }

  lemma {:induction false} DeliveredIsRun(step: CrcStep, s: Sink, b: seq<seq<bv8>>)
    requires AllBlocks(b) && s.block == 0
    ensures var r := DeliveredAll(step, ImageBlocks, s, b);
      r.ota == Run(step, s.ota, Numbered(AsBlocks(b))) && r.block == |b|
  {
    hide Store;
    if b != [] {
      var n := |b| - 1;
      DeliveredIsRun(step, s, b[..n]);
      assert Numbered(AsBlocks(b))[..n] == Numbered(AsBlocks(b[..n]));
    }
  }

  /** A download that is a well-formed image: flash holds the payloads of the image, end to end. */
  lemma DownloadedImage(step: CrcStep, s: Sink, stream: seq<bv8>, hi: nat)
    requires s.block == 0 && |s.ota.cells| >= FLASH_HI
    requires AllBlocks(Blocks(stream, BLOCK_LEN))
    requires var b := AsBlocks(Blocks(stream, BLOCK_LEN));
      && Fits(b) && Base(b) % SECTOR == 0
      && hi % SECTOR == 0 && Base(b) + DATA_LEN * |b| <= hi
      && forall i :: 0 <= i < |b| ==> RecordApart(b[i], Base(b), hi)
    ensures var b := AsBlocks(Blocks(stream, BLOCK_LEN));
      ImageIn(s.ota.cells, DeliveredAll(step, ImageBlocks, s, Blocks(stream, BLOCK_LEN)).ota.cells, b, Base(b), hi)
  {
    var b := AsBlocks(Blocks(stream, BLOCK_LEN));
    DeliveredIsRun(step, s, Blocks(stream, BLOCK_LEN));
    ImageStored(step, s.ota, b, hi);
  }

  // ------------------------------------------------------------------------------------------------
  // When a download is committed.

  /** Only the last block calls itself the last one. */
  ghost predicate Sequenced(b: seq<Block>) {
    forall i :: 0 <= i < |b| ==> (IsLast(b[i]) <==> i == |b| - 1)
  }

  lemma {:induction false} FedWhileFull(step: CrcStep, s: Ota, b: seq<Block>)
    requires Fits(b) && forall i :: 0 <= i < |b| - 1 ==> !IsLast(b[i])
    ensures var n := |b| - 1; var m := Run(step, s, Numbered(b[..n]));
      && AddressOf(m, Numbered(b)[n]) == Base(b) + DATA_LEN * n
      && m.commits == s.commits
      && Fed(step, s, Numbered(b[..n])) == Flatten(b[..n])
  {
    hide Checked, IsLast, Parse;
    var n := |b| - 1;
    if n > 0 {
      var before, c := b[..n], b[n - 1];
      FedWhileFull(step, s, before);
      assert before[..n - 1] == b[..n - 1];
      assert Numbered(before)[..n - 1] == Numbered(b[..n - 1]);
      var m := Run(step, s, Numbered(b[..n - 1]));
      NotLast(step, m, Numbered(before)[n - 1]);
    }
  }

  lemma NotLast(step: CrcStep, m: Ota, c: Call)
    requires InRange(AddressOf(m, c)) && !IsLast(c.src) && |c.src| == BLOCK_LEN
    ensures var r := Store(step, m, c.block, c.src);
      r.commits == m.commits && r.dataAddr == AddressOf(m, c) + DATA_LEN && Summed(c.src) == c.src
  {
  }

  /** The end-to-end statement for the commit record: it is written exactly when the checksum over the
      whole content without its last four bytes is those four bytes. */
  lemma CommittedIff(step: CrcStep, s: Ota, b: seq<Block>)
    requires Fits(b) && Sequenced(b)
    ensures |Flatten(b)| >= ALL_CRC_LEN
    ensures var stream := Flatten(b);
            var n := |stream| - ALL_CRC_LEN;
            Run(step, s, Numbered(b)).commits == s.commits +
              if Crc(step, stream[..n], 0) == Le(stream[n..])
              then [CommitRecord(Parse(b[|b| - 1]), Le(stream[n..]))] else []
  {
    hide Store, Run, Crc, Fed, Le, CommitRecord, Fits, IsLast, Sequenced, Parse, Numbered, Flatten, Summed;
    hide Trailer, Begun, InRange, AddressOf;
    var k := |b| - 1;
    BeforeLast(step, s, b);
    var calls, c, last := Numbered(b)[..k], Numbered(b)[k], b[k];
    CommitOnlyWhenSummed(step, s, calls, c);
    FedLast(step, s, calls, c);
    LastParts(last);
    Tail(Flatten(b[..k]), last);
    assert b[..k + 1] == b;
    FlattenNext(b, k);
  }

  lemma LastParts(last: Block)
    requires IsLast(last)
    ensures Summed(last) == last[..|last| - ALL_CRC_LEN] && Trailer(last) == Le(last[|last| - ALL_CRC_LEN..])
  {
    hide Parse, Le;
  }

  lemma BeforeLast(step: CrcStep, s: Ota, b: seq<Block>)
    requires Fits(b) && Sequenced(b)
    ensures var k := |b| - 1; k >= 0 && var calls, c := Numbered(b)[..k], Numbered(b)[k];
      && calls + [c] == Numbered(b) && Begun(calls + [c]) && (c.block == 0 ==> calls == []) && c.src == b[k] && IsLast(b[k])
      && InRange(AddressOf(Run(step, s, calls), c))
      && Run(step, s, calls).commits == s.commits
      && Fed(step, s, calls) == Flatten(b[..k])
  {
    var k := |b| - 1;
    assert Numbered(b)[..k] == Numbered(b[..k]);
    FedWhileFull(step, s, b);
    assert Numbered(b)[0].block == 0;
  }

  lemma Tail(s: seq<bv8>, last: Block)
    ensures var t := s + last;
            var n := |t| - ALL_CRC_LEN;
            t[n..] == last[|last| - ALL_CRC_LEN..] && t[..n] == s + last[..|last| - ALL_CRC_LEN]
  {
  }

  lemma FedLast(step: CrcStep, s: Ota, calls: seq<Call>, c: Call)
    requires InRange(AddressOf(Run(step, s, calls), c)) && (c.block == 0 ==> calls == [])
    ensures Fed(step, s, calls + [c]) == Fed(step, s, calls) + Summed(c.src)
  {
    assert (calls + [c])[..|calls|] == calls;
  }

  /** Once the last block of an image has been stored, its record stands in flash if the checksum over the
      whole content without its last four bytes is those four bytes. */
  lemma RecordAtTheEnd(step: CrcStep, s: Ota, b: seq<Block>)
    requires Fits(b) && Sequenced(b) && RecordFits(s.cells, b[|b| - 1])
    ensures |Flatten(b)| >= 4
    ensures var n := |Flatten(b)| - 4;
            Crc(step, Flatten(b)[..n], 0) == Le(Flatten(b)[n..]) ==>
              RecordStands(Run(step, s, Numbered(b)).cells, b[|b| - 1])
  {
    hide Store, Crc, Le, Flatten, CommitRecord, Fits, IsLast, Sequenced, Parse, RecordStands, IsRight, AddressOf, InRange,
      Begun, Fed, Run, Numbered;
    BeforeLast(step, s, b);
    CommittedIff(step, s, b);
    var k := |b| - 1;
    var calls, c := Numbered(b)[..k], Numbered(b)[k];
    var m := Run(step, s, calls);
    RunLast(step, s, calls, c);
    RightCommits(step, m, c);
    var n := |Flatten(b)| - 4;
    if Crc(step, Flatten(b)[..n], 0) == Le(Flatten(b)[n..]) {
      assert IsRight(step, m, c);
      StoredRecordStands(step, m, c);
    }
  }

  lemma RunLast(step: CrcStep, s: Ota, calls: seq<Call>, c: Call)
    ensures Run(step, s, calls + [c]) == Store(step, Run(step, s, calls), c.block, c.src)
  {
    hide Store;
    assert (calls + [c])[..|calls|] == calls;
  }

  predicate UnchangedOutside(was: seq<bv8>, now: seq<bv8>, lo: nat, hi: nat) {
    |now| == |was| && forall i :: 0 <= i < |was| && !(lo <= i < hi) ==> now[i] == was[i]
  }

  /** Storing a block without committing it changes no cell outside `base..hi`. */
  lemma UncommittedStays(step: CrcStep, m: Ota, c: Call, base: nat, hi: nat)
    requires InRange(AddressOf(m, c)) && !Commits(step, m, c) && hi % SECTOR == 0
    requires base <= AddressOf(m, c) && AddressOf(m, c) + |Payload(c.src)| <= hi && AddressOf(m, c) < hi
    ensures UnchangedOutside(m.cells, Store(step, m, c.block, c.src).cells, base, hi)
  {
    hide Crc, Parse, Summed, Trailer, Payload, Programmed, EraseOnEntry, Le;
    StoreIs(step, m, c);
    var a := AddressOf(m, c);
    forall i | 0 <= i < |m.cells| && !(base <= i < hi)
      ensures Store(step, m, c.block, c.src).cells[i] == m.cells[i]
    {
      EntryCell(m.cells, a, i);
      ProgramCell(EraseOnEntry(m.cells, a), a, Payload(c.src), i);
    }
  }

  lemma {:induction false} UncommittedImageStays(step: CrcStep, s: Ota, b: seq<Block>, hi: nat)
    requires Fits(b) && Sequenced(b) && hi % SECTOR == 0 && Base(b) + DATA_LEN * |b| <= hi
    requires Run(step, s, Numbered(b)).commits == s.commits
    ensures UnchangedOutside(s.cells, Run(step, s, Numbered(b)).cells, Base(b), hi)
  {
    hide Store, IsLast, Parse, Crc, Flatten, Fed;
    UnchangedUpTo(step, s, b, hi, |b| - 1);
    var k := |b| - 1;
    BeforeLast(step, s, b);
    var m, c := Run(step, s, Numbered(b)[..k]), Numbered(b)[k];
    assert Numbered(b)[..k] == Numbered(b[..k]);
    FedWhileFull(step, s, b);
    RightCommits(step, m, c);
    UncommittedStays(step, m, c, Base(b), hi);
  }

  /** The blocks before the last one commit nothing. */
  lemma {:induction false} UnchangedUpTo(step: CrcStep, s: Ota, b: seq<Block>, hi: nat, k: nat)
    requires Fits(b) && Sequenced(b) && hi % SECTOR == 0 && Base(b) + DATA_LEN * |b| <= hi && k < |b|
    ensures UnchangedOutside(s.cells, Run(step, s, Numbered(b[..k])).cells, Base(b), hi)
  {
    hide Store, Parse, Crc, Flatten, Fed, IsLast;
    if k > 0 {
      UnchangedUpTo(step, s, b, hi, k - 1);
      var before := b[..k];
      assert Numbered(before)[..k - 1] == Numbered(b[..k - 1]) && before[..k - 1] == b[..k - 1];
      FedWhileFull(step, s, before);
      var m, c := Run(step, s, Numbered(b[..k - 1])), Numbered(before)[k - 1];
      assert !Commits(step, m, c);
      UncommittedStays(step, m, c, Base(b), hi);
    }
  }

  // The same for a content, in bytes.

  /** The last block of a content. */
  function LastBlock(content: seq<bv8>): (b: seq<bv8>)
    requires |content| % 1048 >= 24
    ensures |b| >= 24
  {
    content[1048 * (|content| / 1048)..]
  }

  /** Exactly the last block says that it is the last. */
  predicate OneLast(content: seq<bv8>) {
    forall k :: 0 <= k <= |content| / 1048 ==> LastExactlyIf(content, k)
  }

  predicate LastExactlyIf(content: seq<bv8>, k: nat) {
    var o := 1048 * k;
    o + 24 <= |content| && (content[o + 4..o + 6] == content[o + 6..o + 8] <==> k == |content| / 1048)
  }

  predicate ChecksumRight(step: CrcStep, content: seq<bv8>) {
    var n := |content| - 4;
    n >= 0 && Crc(step, content[..n], 0) == Le(content[n..])
  }

  lemma ContentSequenced(content: seq<bv8>, hi: nat)
    requires ImageContent(content, hi) && OneLast(content) && AllBlocks(Blocks(content, 1048))
    ensures var b := AsBlocks(Blocks(content, 1048));
            |b| == |content| / 1048 + 1 && Sequenced(b) && b[|b| - 1] == LastBlock(content)
  {
    hide Blocks, Le, RecordElsewhere;
    BlocksLength(content, 1048);
    var b := AsBlocks(Blocks(content, 1048));
    forall k | 0 <= k < |b|
      ensures IsLast(b[k]) <==> k == |b| - 1
    {
      assert LastExactlyIf(content, k);
      BlockBytes(content, k);
      HeaderBytes(content, b[k], k);
      LeInjective(b[k][4..6], b[k][6..8]);
    }
    BlockBytes(content, |b| - 1);
  }

  /** The end-to-end statement for a content: payloads, record, and what stays. */
  lemma ContentStored(step: CrcStep, s: Sink, content: seq<bv8>, hi: nat, was: seq<bv8>)
    requires ImageContent(content, hi) && s.block == 0 && s.ota.cells == was
    ensures AllBlocks(Blocks(content, BLOCK_LEN))
    ensures var r := DeliveredAll(step, ImageBlocks, s, Blocks(content, BLOCK_LEN)).ota.cells;
      && |r| == |was| && (|was| >= FLASH_HI ==> ImageCells(r, content))
      && (OneLast(content) && RecordFits(was, LastBlock(content)) ==>
            if ChecksumRight(step, content) then RecordStands(r, LastBlock(content))
            else UnchangedOutside(was, r, Le(content[20..24]), hi))
  {
    hide Blocks, Le, ImageCells, OneLast, RecordFits, RecordStands, Flatten, Crc, Holds, DeliveredAll, UnchangedOutside;
    ContentFits(content, hi);
    var b := AsBlocks(Blocks(content, 1048));
    DeliveredIsRun(step, s, Blocks(content, 1048));
    BlocksMakeStream(content, 1048);
    SameFlat(Blocks(content, 1048));
    if |was| >= FLASH_HI {
      ImageStored(step, s.ota, b, hi);
      HeldIsInCells(Run(step, s.ota, Numbered(b)).cells, content, hi);
    }
    if OneLast(content) && RecordFits(was, LastBlock(content)) {
      ContentSequenced(content, hi);
      RecordAtTheEnd(step, s.ota, b);
      CommittedIff(step, s.ota, b);
      if !ChecksumRight(step, content) {
        UncommittedImageStays(step, s.ota, b, hi);
      }
    }
  }

  lemma SameFlat(b: seq<seq<bv8>>)
    requires AllBlocks(b)
    ensures Flatten(AsBlocks(b)) == Flatten(b)
  {
    var c: seq<seq<bv8>> := AsBlocks(b);
    assert c == b;
  }

  lemma RawBytes(cells: seq<bv8>, content: seq<bv8>)
    requires Holds(cells, 0xff000, content)
    ensures 0xff000 + |content| <= |cells| && forall p :: 0 <= p < |content| ==> cells[0xff000 + p] == content[p]
  {
    forall p | 0 <= p < |content|
      ensures cells[0xff000 + p] == content[p]
    {
      var i := 0xff000 + p;
      assert cells[i] == content[i - 0xff000];
    }
  }

  // ------------------------------------------------------------------------------------------------
  // The raw variant.

  lemma {:induction false} RawStored(step: CrcStep, s: Sink, b: seq<seq<bv8>>)
    requires b != [] && (forall i :: 0 <= i < |b| - 1 ==> |b[i]| == 1024) && |b[|b| - 1]| <= 1024
    requires s.address % SECTOR == 0 && FLASH_LO <= s.address && |s.ota.cells| >= FLASH_HI
    requires s.address + 1024 * (|b| - 1) + |b[|b| - 1]| <= FLASH_HI
    ensures |Flatten(b)| == 1024 * (|b| - 1) + |b[|b| - 1]|
    ensures var r := DeliveredAll(step, Raw, s, b);
      && Holds(r.ota.cells, s.address, Flatten(b)) && |r.ota.cells| == |s.ota.cells|
      && (|b[|b| - 1]| == 1024 ==> r.address == s.address + |Flatten(b)|)
  {
    hide Holds, Append, EraseOnEntry;
    var n := |b| - 1;
    var before, d := b[..n], b[n];
    var m := DeliveredAll(step, Raw, s, before);
    if n > 0 {
      RawStored(step, s, before);
    } else {
      assert Flatten(before) == [] && m == s;
      assert Holds(s.ota.cells, s.address, []) by { NothingYet(s.ota.cells, s.address, s.address); }
    }
    var a := s.address + |Flatten(before)|;
    if InRange(a) {
      Appended(m.ota.cells, s.address, Flatten(before), d);
    } else {
      assert d == [] && a == FLASH_HI && Flatten(b) == Flatten(before);
      BeyondTheEnd(m.ota.cells, s.address, Flatten(before));
    }
  }

  lemma BeyondTheEnd(cells: seq<bv8>, base: nat, content: seq<bv8>)
    requires Holds(cells, base, content) && base + |content| == FLASH_HI
    ensures Holds(EraseOnEntry(cells, FLASH_HI), base, content)
  {
    assert SectorStart(FLASH_HI) == FLASH_HI;
  }

  /** A raw download of any length that fits is in the flash byte for byte. */
  lemma DownloadedRaw(step: CrcStep, s: Sink, stream: seq<bv8>)
    requires s.address == HTTP_FLASH_ADDR && |s.ota.cells| >= FLASH_HI && HTTP_FLASH_ADDR + |stream| <= FLASH_HI
    ensures Holds(DeliveredAll(step, Raw, s, Blocks(stream, 1024)).ota.cells, HTTP_FLASH_ADDR, stream)
  {
    RestLength(stream, 1024);
    BlocksMakeStream(stream, 1024);
    RawStored(step, s, Blocks(stream, 1024));
    assert Flatten(Blocks(stream, 1024)) == stream;
  }
}
