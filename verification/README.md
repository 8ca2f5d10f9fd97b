# Verified model of the BK7231 firmware kit

This project models the parts of the firmware that have algorithms and state of their own, and proves what
they promise. It follows the C sources file by file: code that changes things in place is a class or a
method with the same loops and branches, proved against specification functions; concurrent code is a state
machine over its atomic steps; the properties of whole runs are lemmas about those functions and machines.
`dafny verify dfyconfig.toml` checks all of it.

| files | what they model |
|---|---|
| `DoublyList`, `Intc` | intrusive circular lists, and the interrupt controller whose service routines are nodes of one |
| `Flash`, `StoreBlock`, `OtaImage`, `OtaRecord`, `HttpOta`, `LittleEndian`, `Pieces` | firmware update: network pieces, blocks, sectors, checksum and commit record, down to the cells of a NOR flash |
| `Tftp`, `TftpOta` | the TFTP receiver against a server and channels that lose and duplicate, and what it leaves in flash |
| `AirKiss`, `Crc8` | the channel scheduler with its list sorted inside the array being scanned, and the address checksum |
| `RingQueue`, `Numbers`, `Kfifo`, `RingBuffer`, `RingInterleaving` | byte queues in a ring, free-running counters, and one reader and one writer at once |
| `DmaWords`, `DmaWriteRing`, `DmaReadRing` | the rings whose other side is a DMA channel |
| `Sfifo`, `Ftp` | the FTP server's queue and its file and listing pumps |
| `ConfigSearch`, `CoreQueue`, `Base64` | nested configuration records, the core thread's message queue, the credential encoder |

## What the proofs found

Where the code does not keep a promise it might be taken to make, the exact condition is proved.

- Registering an interrupt line again with another priority overwrites its record before the list is walked.
  `Intc.Safe` is the exact condition under which that is harmless; without it no ring through the header is
  left (`Intc.Controller.Register`, `Intc.UnsafeRequest`). Runs with one priority per line are always safe.
- The last block of an update is stored properly exactly if at least 24 bytes remain; a content that is a
  multiple of 1048 bytes hands on an empty block and the byte count wraps (`HttpOta.RemainderStorable`). A
  TFTP file that is a multiple of the block size ends the same way.
- `store_block` erases the sector of an address before it checks the range of the address, and checks only the
  first address of a block. When cells outside the image area are safe is `OtaImage.StaysInsideExactlyIf`; a
  first block that names address 0 erases the first sector (`OtaImage.FirstSectorErased`).
- From the 65536th TFTP block on the index handed to the store is no longer the position, and block 65537
  makes the store start over (`Tftp.IndexIsPosition`). The receiver stores the blocks in order exactly as long
  as every packet repeats the number before or has the next one (`Tftp.InOrderExactlyIfSteady`); a channel that
  exchanges two packets makes it store a block twice (`Tftp.StaleBlockIsStored`). The timeouts are counted over
  the whole transfer; once ten have passed before the server has begun, nothing will ever be sent again, and in
  every other state the transfer can still be finished (`Tftp.FinishableExactlyIf`).
- `rb_write` publishes the write position before its second copy. Positions and unread bytes are safe in
  every interleaving, and every byte read is right but for those read before that copy has come to them, which
  are old (`RingInterleaving.UntornReadsAreRight`, `RingInterleaving.EarlyByteIsOld`,
  `RingInterleaving.TornReadsAreWrong`).
- `httpclient_base64enc` reads signed characters, `char` being signed in this build (application.mk:434). Its
  output is the standard encoding exactly if every byte of 0x80 or more begins a group of three or finds only
  ones in the accumulator (`Base64.StandardExactlyIfClean`, `Base64.AccentIsMisencoded`); seven-bit credentials
  are always encoded correctly (`Base64.AsciiIsClean`).
- Clearing a DMA ring does not move the channel; it is sound exactly if the channel stands at the start
  (`DmaWriteRing.ClearNeedsStart`, `DmaReadRing.ClearNeedsStart`).
- `bmsg_rx_sender` counts before it pushes and does not take the count back; two failed pushes silence it for
  good (`CoreQueue.Starved`, `CoreQueue.StarvationIsReachable`).
- `sfifo_init` does not end for requests of 2^30 and more (`Sfifo.SearchEnds`), and its failure is ignored:
  without a buffer files and listings are read, lost, and reported as sent (`Ftp.FileConserved`,
  `Ftp.ListConserved`). A reply that does not fit the control queue is dropped (`Ftp.SendMsg`).
- The configuration search adds record lengths in 32 bits. It runs for ever exactly if it comes to an address
  a second time (`ConfigSearch.EndsExactlyIf`), as it does for a length of 2^32 - 8
  (`ConfigSearch.WrappingLengthStands`); other lengths that wrap may end (`ConfigSearch.WrappingLengthMayEnd`).

## Model

| member | source | states |
|---|---|---|
| `DoublyList.ListAdd` | beken378/common/doubly_list.h:38-44 | the effect on the links of any three nodes, aliased or not; between neighbours of a ring that does not hold the node, the ring grows by it |
| `DoublyList.ListAddHead` | beken378/common/doubly_list.h:54-57 | the node stands right behind the given one, everything else in its order |
| `DoublyList.ListAddTail` | beken378/common/doubly_list.h:67-70 | the node stands last; a node that is in the same ring already, further on, leaves no ring through the header at all |
| `DoublyList.ListDel` | beken378/common/doubly_list.h:91-94 | the ring without the element, whose own links dangle unchanged |
| `DoublyList.ListDelInit` | beken378/common/doubly_list.h:100-104 | the ring without the element, which becomes a ring of its own |
| `DoublyList.ListMove` | beken378/common/doubly_list.h:111-115 | one element relocated behind the header of another ring or of its own; the ring it leaves stays well formed |
| `DoublyList.ListMoveTail` | beken378/common/doubly_list.h:122-127 | one element relocated to the end of another ring or of its own; the ring it leaves stays well formed |
| `DoublyList.EmptyMeansAlone` | beken378/common/doubly_list.h:133-136 | the emptiness test is true exactly of a header alone |
| `DoublyList.ListSplice` | beken378/common/doubly_list.h:157-161 | all elements of the source stand, in order, in front of those of the destination |
| `DoublyList.ListSpliceInit` | beken378/common/doubly_list.h:170-177 | the same, and the source is a well-formed empty list |
| `DoublyList.ListSize` | beken378/common/doubly_list.h:214-222 | the loop counts exactly the elements |
| `DoublyList.LinkedIn` | beken378/common/doubly_list.h:38-44 | a ring cut open with both ends tied to a new node is a ring with the node at that place |
| `DoublyList.LinkedOut` | beken378/common/doubly_list.h:79-83 | links that bypass an element make the ring without it |
| `DoublyList.LinkedTogether` | beken378/common/doubly_list.h:138-150 | the four links of a splice make one ring of two |
| `DoublyList.TwistedRing` | beken378/common/doubly_list.h:67-70 | after inserting a node that is linked further on, no sequence of nodes through the header is a ring |
| `Intc.Controller.constructor` | beken378/driver/intc/intc.c:37-39 | an empty table, an empty mask and a well-formed empty list |
| `Intc.Controller.Register` | beken378/driver/intc/intc.c:75-135 | for a safe request the table becomes what the specification says and ring, order and mask agree; a rejected request, re-registration included, leaves every link, record and mask bit as it was; an unsafe one leaves no ring through the header |
| `Intc.Controller.SearchAndLink` | beken378/driver/intc/intc.c:89-112 | the walk finds the place by priority and links the node, or finds the priority taken and links nothing |
| `Intc.Controller.HandleEntry` | beken378/driver/intc/intc.c:41-73 | one dispatch calls exactly the registered routines whose line is pending, once each, in priority order, and leaves no masked bit set |
| `Intc.Controller.Irq` | beken378/driver/intc/intc.c:223-239 | clears exactly the pending lines below 16 and calls exactly the registered routines of those, by priority |
| `Intc.Controller.Fiq` | beken378/driver/intc/intc.c:241-250 | clears exactly the pending lines from 16 on and calls exactly the registered routines of those, by priority |
| `Intc.Controller.ChangeHandler` | beken378/driver/intc/intc.c:137-179 | only the routine of that line changes, and only if the line is listed |
| `Intc.SearchResult` | beken378/driver/intc/intc.c:83-104 | what the walk says about the table although the record of the line being registered is already overwritten: taken, place found, or unsafe |
| `Intc.NowListed` | beken378/driver/intc/intc.c:106-120 | putting a new line at its place keeps ascending order and the agreement of table, mask and list |
| `Intc.UnsafeRequest` | beken378/driver/intc/intc.c:83-87 | two registrations and a third request for which the guarantee fails |
| `Intc.Controller.RegisterRun` | beken378/driver/intc/intc.c:75-135 | the code run over any sequence of requests with one priority per line leaves a well-formed list of exactly the first request for each priority, in priority order |
| `Intc.FirstRequestWins` | beken378/driver/intc/intc.c:75-135 | over every run in which each line keeps one priority, every request is safe and the table holds exactly the first request for each priority, ascending |
| `Intc.PriorityTaken` | beken378/driver/intc/intc.c:93-104 | in such a run every priority that was asked for is taken |
| `Intc.RequestOf` | beken378/driver/intc/intc.c:75-135 | in such a run every entry of the table is the first request for its priority |
| `Intc.FirstIsListed` | beken378/driver/intc/intc.c:75-135 | in such a run the first request for a priority is in the table |
| `Intc.RunAscends` | beken378/driver/intc/intc.c:75-135 | after any run of registrations the table ascends strictly |
| `Intc.ServedOnce` | beken378/driver/intc/intc.c:47-71 | the calls for a status word are exactly the pending entries, each once, ascending by priority |
| `Intc.HalvesServeAll` | beken378/driver/intc/intc.c:223-250 | the two entry points together serve what one dispatch of the whole word would, and nothing twice |
| `Intc.ServedStep` | beken378/driver/intc/intc.c:47-71 | each list element adds its call exactly if its line is pending |
| `Flash.FlashChip.EraseSector` | beken378/driver/flash/flash.c:424-436 | exactly the 4 KiB sector that holds the address reads erased |
| `Flash.FlashChip.ReadData` | beken378/driver/flash/flash.c:452-492 | any address and length, through whole units: exactly the wanted bytes, nothing else of the buffer touched |
| `Flash.FlashChip.WriteUnit` | beken378/driver/flash/flash.c:507-540 | one unit programmed changes only the cells of the data it carries |
| `Flash.FlashChip.WriteData` | beken378/driver/flash/flash.c:494-542 | any address and length: the data is ANDed into exactly its cells although whole units are programmed |
| `Flash.SectorCell` | beken378/driver/flash/flash.c:424-436 | the sector of an address is the 4096 bytes with the same quotient by 4096; its bytes become 0xFF and no other changes |
| `Flash.UnitProgram` | beken378/driver/flash/flash.c:507-533 | a unit that repeats what the cells hold around the data programs just the data |
| `Flash.ProgramAppend` | beken378/driver/flash/flash.c:494-542 | two adjacent writes are one |
| `Flash.ProgramTwice` | beken378/driver/flash/flash.c:494-542 | writing the same data again changes nothing |
| `Flash.WriteThenRead` | beken378/driver/flash/flash.c:452-542 | on erased cells every sub-range of a write reads back, and every other cell keeps its value |
| `StoreBlock.CrcChains` | beken378/app/tftp/tftpclient.c:535-546 | the checksum of two stretches is the checksum of the second begun with that of the first |
| `StoreBlock.CrcNext` | beken378/app/tftp/tftpclient.c:535-546 | the bytes of a stretch go through the checksum one after the other, the first one first |
| `StoreBlock.OtaStore.Sum` | beken378/app/tftp/tftpclient.c:535-564 | the checksum part of a block: with a right trailer the record is programmed into the erased sector it names |
| `StoreBlock.OtaStore.StoreBlock` | beken378/app/tftp/tftpclient.c:464-568 | cells, running address, running checksum and commit records after a block, out-of-range blocks included |
| `OtaImage.Appended` | beken378/app/tftp/tftpclient.c:497-515 | a block behind a stored content of whole 1024-byte stretches: content and block stand end to end, the rest of the sector is erased, nothing else changed |
| `OtaImage.CrcOfRun` | beken378/app/tftp/tftpclient.c:490-546 | over every run the running checksum is that of exactly the stored blocks since the last block 0, less trailers |
| `OtaImage.CommitOnlyWhenSummed` | beken378/app/tftp/tftpclient.c:535-564 | over every run a call adds a commit record, with status 1, if and only if its block is in range, calls itself the last and its trailer is the checksum of all that was stored since block 0 |
| `OtaImage.CommitElsewhere` | beken378/app/tftp/tftpclient.c:548-562 | a commit record away from the image leaves the image alone |
| `OtaImage.StaysInsideExactlyIf` | beken378/app/tftp/tftpclient.c:480-514 | for every state and block: all cells outside the image area and the record keep their value if and only if the block starts in range and what reaches beyond the area clears no bit, or starts out of range and not on the boundary of a sector that is not erased |
| `OtaImage.InsideIsSafe` | beken378/app/tftp/tftpclient.c:497-514 | a block inside the area, or out of range and off the sector boundaries, is such a block |
| `OtaImage.OutOfRangeStores` | beken378/app/tftp/tftpclient.c:497-510 | a block out of range leaves address, checksum and records alone, and erases at most the sector that begins at the address |
| `OtaImage.FirstSectorErased` | beken378/app/tftp/tftpclient.c:497-510 | a first block that names address 0 erases the first sector of the chip |
| `OtaImage.NextStored` | beken378/app/tftp/tftpclient.c:464-568 | one more block keeps what is stored and adds its payload, commit record or not |
| `OtaImage.ImageStored` | beken378/app/tftp/tftpclient.c:464-568 | for an aligned base in range and full blocks but the last, flash holds exactly the concatenated payloads, whatever it held before; cells outside the image and commit sectors keep their value |
| `OtaRecord.RightCommits` | beken378/app/tftp/tftpclient.c:500-546 | a call commits if and only if its block is in range, has equal sequence numbers, and ends in the checksum of what was stored since block 0 and of itself less those four bytes |
| `OtaRecord.StoredRecordStands` | beken378/app/tftp/tftpclient.c:548-562 | after such a call the 32 bytes at the address in bytes 12 to 15 of the block are bytes 20-23, 0-3, 8-11, 16-19, 12-15 and the last four of the block, 1 and 0; the rest of their sector is erased |
| `OtaRecord.FirstBlockAt` | beken378/app/tftp/tftpclient.c:488-514 | a first block is stored at the address in bytes 20 to 23 of its header, payload for payload, and the next one goes behind it |
| `OtaRecord.CommittedStands` | beken378/app/tftp/tftpclient.h:52-63 | the fields of the record, little-endian, are those bytes in that order |
| `LittleEndian.LeInverts` | beken378/app/net_work/app_drone.c:392-396 | a 32-bit number survives its four bytes |
| `LittleEndian.BytesOfLe` | beken378/app/tftp/tftpclient.h:40-63 | four bytes survive the number they stand for |
| `HttpOta.BlocksMakeStream` | beken378/app/http/utils_httpc.c:529-554 | the blocks handed on, joined, are the stream |
| `HttpOta.MoreStream` | beken378/app/http/utils_httpc.c:529-554 | a piece more completes at most one block, and the rest is what is buffered |
| `HttpOta.HttpWriter.constructor` | beken378/app/http/utils_httpc.c:483-515 | nothing buffered, nothing handed on, block 0 |
| `HttpOta.HttpWriter.HttpFlashWr` | beken378/app/http/utils_httpc.c:435-480 | cell by cell: entering a sector erases it, in range the data is ANDed into its cells, out of range nothing is written; the address advances only in range |
| `HttpOta.HttpWriter.Take` | beken378/app/http/utils_httpc.c:535-552 | one turn of the loop keeps the cut: what was handed on is the stream cut at the buffer size, what is left is in the buffer |
| `HttpOta.HttpWriter.Feed` | beken378/app/http/utils_httpc.c:529-554 | the same for a page of any length |
| `HttpOta.HttpWriter.Finish` | beken378/app/http/utils_httpc.c:746-752 | the remainder is handed on as the last block, even an empty one |
| `HttpOta.HttpWriter.Download` | beken378/app/http/utils_httpc.c:529-554 | however the content comes in pieces: of an image, cell base + 1024 k + j is content byte 1048 k + 24 + j for every payload byte, and the last block's record stands in flash if the checksum is right, else no cell outside the image's sectors has changed; a raw content is in flash from 0xff000 on, byte for byte |
| `HttpOta.RemainderStorable` | beken378/app/http/utils_httpc.c:746-752 | the remainder is a storable block if and only if at least 24 bytes remain; otherwise the byte count wraps |
| `HttpOta.DeliveredIsRun` | beken378/app/http/utils_httpc.c:541-544 | the blocks handed on are a run of block stores numbered from 0 |
| `HttpOta.DownloadedImage` | beken378/app/http/utils_httpc.c:529-554 | end to end: pieces in, the payloads of the image in flash |
| `HttpOta.FedWhileFull` | beken378/app/tftp/tftpclient.c:535-546 | until the last block the checksum has run over the content so far and nothing is committed |
| `HttpOta.CommittedIff` | beken378/app/tftp/tftpclient.c:535-564 | end to end: a commit record is written if and only if the checksum of the whole content less its last four bytes is those four bytes |
| `HttpOta.RecordAtTheEnd` | beken378/app/tftp/tftpclient.c:535-564 | at the end of a whole image the record of its last block stands in flash, byte for byte, if the checksum of the whole content less its last four bytes is those four bytes |
| `HttpOta.UncommittedImageStays` | beken378/app/tftp/tftpclient.c:464-568 | an image that does not commit changes no cell outside its sectors |
| `HttpOta.BlockBytes` | beken378/app/http/utils_httpc.c:529-554 | block k of a content is its bytes from 1048 k on, 1048 of them or the rest |
| `HttpOta.ContentStored` | beken378/app/http/utils_httpc.c:529-554 | the same as a statement about the bytes of the content and the cells alone |
| `HttpOta.RawStored` | beken378/app/http/utils_httpc.c:435-480 | without the image format the pieces stand in flash byte for byte |
| `HttpOta.DownloadedRaw` | beken378/app/http/utils_httpc.c:435-480 | the same for a whole download of any length that fits |
| `Tftp.TftpClient.Send` | beken378/app/tftp/tftpclient.c:66-139 | which packet is sent in which state |
| `Tftp.TftpClient.Handler` | beken378/app/tftp/tftpclient.c:161-307 | once an answer has come, packets of other ports change nothing; errors, requests and acknowledgements never do; a first block other than 1 is neither stored nor acknowledged; every other block is acknowledged, and stored at its number less one unless it repeats the number before; a short one ends the transfer |
| `Tftp.TftpClient.Timeout` | beken378/app/tftp/tftpclient.c:318-334 | the packet of the state is sent again if fewer than ten timeouts came before, and nothing otherwise |
| `Tftp.TenRequests` | beken378/app/tftp/tftpclient.c:318-334 | n timeouts of a client that nobody answers send exactly min(n, 10) requests |
| `Tftp.ReceiveKeeps` | beken378/app/tftp/tftpclient.c:161-307 | a received packet keeps the lock-step invariant |
| `Tftp.TimeoutKeeps` | beken378/app/tftp/tftpclient.c:318-334 | a client timeout keeps it |
| `Tftp.StrangerKeeps` | beken378/app/tftp/tftpclient.c:169-173 | once the client has begun, whatever anybody sends it from another port changes nothing |
| `Tftp.ServerKeeps` | beken378/app/tftp/tftpclient.c:160-307 | a step of a conforming server keeps it |
| `Tftp.DisturbanceKeeps` | beken378/app/tftp/tftpclient.c:160-307 | loss and duplication keep it |
| `Tftp.StepKeeps` | beken378/app/tftp/tftpclient.c:160-334 | every step keeps it |
| `Tftp.RunKeeps` | beken378/app/tftp/tftpclient.c:160-334 | it holds throughout every run |
| `Tftp.ShortBlock` | beken378/app/tftp/tftpclient.c:300-306 | a block is shorter than the block size exactly if it is the last |
| `Tftp.ContentOf` | beken378/app/tftp/tftpclient.c:283-292 | what is stored is a prefix of the file, and the whole file once the client is done |
| `Tftp.LockStep` | beken378/app/tftp/tftpclient.c:160-334 | over every run: the stored blocks are the first blocks of the file, each once, in order; every acknowledgement under way is for a stored block; the client is done if and only if it has all, and then it has the file |
| `Tftp.IndexIsPosition` | beken378/app/tftp/tftpclient.c:290-290 | the index handed to the store is the position of the block exactly for the first 65535 blocks; block 65537 starts over |
| `Tftp.Delivering` | beken378/app/tftp/tftpclient.c:160-334 | from a packet of the server on, without loss, every transfer runs to its end |
| `Tftp.FinishableExactlyIf` | beken378/app/tftp/tftpclient.c:160-334 | from every reachable state the transfer can still be finished, if and only if the server has begun, a request is under way, or one of the ten timeouts is left |
| `Tftp.DeliveredIs` | beken378/app/tftp/tftpclient.c:262-292 | whatever data packets reach a receiving client, it stores exactly those whose number differs from the one before |
| `Tftp.InOrderExactlyIfSteady` | beken378/app/tftp/tftpclient.c:262-292 | a receiving client stores the blocks in order, each once, if and only if every packet that reaches it repeats the number before or has the next one |
| `Tftp.StaleBlockIsStored` | beken378/app/tftp/tftpclient.c:262-292 | for every file of at least three blocks there is a run in which one exchange of two packets makes the client store block 1 again behind block 2 |
| `TftpOta.TransferIsRun` | beken378/app/tftp/tftpclient.c:283-292 | a finished transfer of at most 65535 blocks of 1048 bytes has stored the blocks of the file, numbered from 0 |
| `TftpOta.TransferredImage` | beken378/app/tftp/tftpclient.c:160-568 | end to end: whatever was lost or doubled, once the client is done the payloads of the image are in flash |
| `TftpOta.TransferredContent` | beken378/app/tftp/tftpclient.c:160-568 | the same in bytes of the file and cells: payloads, record, and what stays |
| `AirKiss.AddedDescends` | beken378/app/airkiss/airkiss_main.c:207-238 | inserting a later channel keeps the stable descending order and adds exactly it |
| `AirKiss.SelectedIsSort` | beken378/app/airkiss/airkiss_main.c:207-276 | after any sweep the list is ordered by descending count, ties in scan order, and is a permutation of the eligible channels |
| `AirKiss.EligiblesAre` | beken378/app/airkiss/airkiss_main.c:207-214 | eligible are exactly the channels with at least four data packets and one beacon, with their counts |
| `AirKiss.SelectedComplete` | beken378/app/airkiss/airkiss_main.c:207-276 | every such channel is in the list, and none comes before a better one |
| `AirKiss.SelectedEntry` | beken378/app/airkiss/airkiss_main.c:207-276 | every entry of the list is such a channel with the count of the sweep |
| `AirKiss.SortIsUnique` | beken378/app/airkiss/airkiss_main.c:207-276 | there is only one such order |
| `AirKiss.DwellTime` | beken378/app/airkiss/airkiss_main.c:193-205 | a second for every four packets counted, at least one second and at most five |
| `AirKiss.Scanner.constructor` | beken378/app/airkiss/airkiss_main.c:175-191 | a full scan is about to begin |
| `AirKiss.Scanner.SetScanAllChannel` | beken378/app/airkiss/airkiss_main.c:175-191 | a full scan is about to begin, from any state |
| `AirKiss.Scanner.CountPacket` | beken378/app/airkiss/airkiss_main.c:124-173 | only the counter of the current channel moves, modulo 256, and the invariant stays |
| `AirKiss.Scanner.AddChannel` | beken378/app/airkiss/airkiss_main.c:207-238 | the list becomes the insertion of the channel, grows by at most one entry, and no entry beyond it changes |
| `AirKiss.Scanner.Sweep` | beken378/app/airkiss/airkiss_main.c:258-262 | the swept entry joins the selection although the list is built inside the array being scanned; later entries are intact |
| `AirKiss.Scanner.SwitchChannelCallback` | beken378/app/airkiss/airkiss_main.c:240-307 | indices stay in range; the period is 50 ms in a sweep, and then a second for every four packets counted on the channel tuned to, one to five; the first channel after a sweep is the best of those with four data packets and a beacon, and another sweep begins if and only if there is none; each selected channel is visited once in list order, and a measure falls until a fresh full scan begins |
| `AirKiss.Scanner.DoingTimeoutCallback` | beken378/app/airkiss/airkiss_main.c:309-326 | a fresh full scan from any state |
| `Crc8.CalcrcByte` | beken378/app/airkiss/airkiss_main.c:95-113 | the loop of eight shifts is the recursive register |
| `Crc8.CalcrcBytes` | beken378/app/airkiss/airkiss_main.c:115-123 | the loop over the bytes is the recursive fold |
| `Crc8.StepIsShiftRegister` | beken378/app/airkiss/airkiss_main.c:100-110 | one turn of the loop is a shift with conditional feedback |
| `Crc8.Basis` | beken378/app/airkiss/airkiss_main.c:95-113 | the checksums of the eight bytes with one bit, which by linearity are the whole table |
| `Crc8.CrcByteLinear` | beken378/app/airkiss/airkiss_main.c:95-113 | the byte step is linear over exclusive or |
| `Crc8.CrcByteInjective` | beken378/app/airkiss/airkiss_main.c:95-113 | and a permutation of the bytes |
| `Crc8.CrcBytesNext` | beken378/app/airkiss/airkiss_main.c:115-123 | a byte more is put on the register by exclusive or, and the sum goes through the byte step |
| `Crc8.RegisterMatters` | beken378/app/airkiss/airkiss_main.c:115-123 | two registers that differ stay different over any message |
| `Crc8.SingleByteDetected` | beken378/app/airkiss/airkiss_main.c:115-123 | changing any one byte of a message of any length changes its checksum |
| `Crc8.Residue` | beken378/app/airkiss/airkiss_main.c:115-123 | the checksum over a message and one more byte is 0 exactly if the byte is the checksum of the message |
| `RingQueue.WriteAppends` | beken378/common/fifo.h:103-123 | writing into the free slots behind a queue appends to it |
| `RingQueue.AdvanceDrops` | beken378/common/fifo.h:137-157 | moving the start on drops the head |
| `Numbers.PowerTest` | beken378/common/fifo.h:38-38 | the test with size and size - 1 recognises exactly the powers of two |
| `Numbers.AndMask` | beken378/common/fifo.h:113-113 | masking with a power of two less one is the remainder |
| `Numbers.MaskAdvances` | beken378/common/fifo.h:103-157 | a masked 32-bit counter advances like a slot even where it wraps |
| `Numbers.CounterMoves` | beken378/common/fifo.h:159-167 | moving one of two wrapping counters changes their distance by as much |
| `Kfifo.KFifo.constructor` | beken378/common/fifo.h:33-51 | an empty queue; the size is a power of two |
| `Kfifo.KFifo.Put` | beken378/common/fifo.h:103-123 | the longest prefix that fits is appended, for every position of the free-running counters |
| `Kfifo.KFifo.Get` | beken378/common/fifo.h:137-157 | the head of the queue is moved out, as far as it goes |
| `Kfifo.KFifo.DataSize` | beken378/common/fifo.h:159-162 | the length of the queue |
| `Kfifo.KFifo.Unused` | beken378/common/fifo.h:164-167 | with the data size it adds up to the size, always |
| `Kfifo.KFifo.CopyOut` | beken378/common/fifo.h:169-185 | bytes from any offset of the queue, which does not change |
| `Kfifo.KFifo.OutPeek` | beken378/common/fifo.h:187-199 | what a get would return, and the queue does not change |
| `RingBuffer.ReadTakes` | beken378/driver/audio/ring_buffer.c:43-104 | a read takes as much as is wanted and there, and moves the start of the queue by as much |
| `RingBuffer.WriteLengthens` | beken378/driver/audio/ring_buffer.c:119-169 | a write is done exactly if it is at most the free size, begins behind the queue, and leaves valid positions and a queue longer by it |
| `RingBuffer.FillAndFree` | beken378/driver/audio/ring_buffer.c:177-193 | fill and free size add up to the capacity less the gap |
| `RingBuffer.Rb.constructor` | beken378/driver/audio/ring_buffer.c:13-23 | an empty queue |
| `RingBuffer.Rb.Clear` | beken378/driver/audio/ring_buffer.c:25-33 | an empty queue |
| `RingBuffer.Rb.Read` | beken378/driver/audio/ring_buffer.c:35-107 | the head of the queue is moved out, as far as it goes |
| `RingBuffer.Rb.Write` | beken378/driver/audio/ring_buffer.c:109-175 | all of the data is appended, or nothing, according to the free size |
| `RingBuffer.Rb.GetFillSize` | beken378/driver/audio/ring_buffer.c:177-184 | the length of the queue |
| `RingBuffer.Rb.GetFreeSize` | beken378/driver/audio/ring_buffer.c:186-193 | with the length it adds up to the capacity less the gap |
| `RingInterleaving.PositionMoves` | beken378/driver/audio/ring_buffer.c:121-169 | a write computed from an old read position still ends behind the present one |
| `RingInterleaving.PublishKeeps` | beken378/driver/audio/ring_buffer.c:121-160 | publishing the write position keeps the index invariant, however old the snapshot |
| `RingInterleaving.ReadKeeps` | beken378/driver/audio/ring_buffer.c:43-104 | planning a read from an old write position keeps it |
| `RingInterleaving.ConsumeKeeps` | beken378/driver/audio/ring_buffer.c:53-101 | publishing the read position keeps it |
| `RingInterleaving.StepKeeps` | beken378/driver/audio/ring_buffer.c:35-175 | every step of reader or writer keeps it |
| `RingInterleaving.IndexSafety` | beken378/driver/audio/ring_buffer.c:35-175 | in every interleaving, at every moment: the number of bytes in the ring is what the fill formula says and at most the capacity less the gap, and no read passes the published write position |
| `RingInterleaving.NoOverwrite` | beken378/driver/audio/ring_buffer.c:121-160 | a copy of the writer, however old its snapshot, touches no byte that is published and unread |
| `RingInterleaving.UntornReadsAreRight` | beken378/driver/audio/ring_buffer.c:35-175 | in every interleaving, the copies going byte by byte, every byte a reader has copied is the right one, oldest first, but for those the writer owed at that moment |
| `RingInterleaving.EarlyByteIsOld` | beken378/driver/audio/ring_buffer.c:138-142 | a byte copied while it is owed is what the cell held before, and right if and only if the writer is to put the same byte there |
| `RingInterleaving.SomeDataIsWrong` | beken378/driver/audio/ring_buffer.c:138-142 | wherever a byte can be copied while it is owed, some data makes it wrong |
| `RingInterleaving.TornReadsAreWrong` | beken378/driver/audio/ring_buffer.c:138-142 | a complete run from the empty ring in which such a read delivers a wrong byte |
| `DmaWriteRing.HaltsWhenFull` | beken378/driver/audio/ring_buffer_dma_write.c:126-136 | the channel stands at its pause address exactly if, as far as it knows, the ring is full |
| `DmaWriteRing.ChannelSparesUnread` | beken378/driver/audio/ring_buffer_dma_write.c:53-138 | a word of the channel falls on no unread byte |
| `DmaWriteRing.PauseKeepsIndex` | beken378/driver/audio/ring_buffer_dma_write.c:126-134 | setting the pause address, in either wrap case, keeps the index invariant |
| `DmaWriteRing.StepKeeps` | beken378/driver/audio/ring_buffer_dma_write.c:53-138 | every step of channel or processor keeps indices and bytes |
| `DmaWriteRing.RunIsQueue` | beken378/driver/audio/ring_buffer_dma_write.c:18-138 | in every interleaving, the copy taken byte by byte: what the processor takes is what the channel wrote, in order and without loss; at most the capacity less the gap is unread; the channel overwrites no unread byte |
| `DmaWriteRing.ClearNeedsStart` | beken378/driver/audio/ring_buffer_dma_write.c:37-51 | a clear leaves an empty ring if and only if the channel stands at the start |
| `DmaWriteRing.SizesAreRight` | beken378/driver/audio/ring_buffer_dma_write.c:140-172 | the two sizes are the unread bytes and what is left of the capacity less the gap |
| `DmaWriteRing.RbDmaWrite.constructor` | beken378/driver/audio/ring_buffer_dma_write.c:18-35 | positions at the start, pause address a gap before the end |
| `DmaWriteRing.RbDmaWrite.Read` | beken378/driver/audio/ring_buffer_dma_write.c:53-138 | bytes, position and pause address of a read for any position the channel reports |
| `DmaWriteRing.RbDmaWrite.GetFillSize` | beken378/driver/audio/ring_buffer_dma_write.c:140-154 | in every state the protocol keeps, the number of unread bytes; with the free size it adds up to the capacity less the gap |
| `DmaWriteRing.RbDmaWrite.GetFreeSize` | beken378/driver/audio/ring_buffer_dma_write.c:156-172 | in every state the protocol keeps, the capacity less the gap and the unread bytes |
| `DmaReadRing.HaltsWhenEmpty` | beken378/driver/audio/ring_buffer_dma_read.c:127-130 | the channel stands at its pause address exactly if it has read all it was given |
| `DmaReadRing.MovedPosition` | beken378/driver/audio/ring_buffer_dma_read.c:76-125 | a write computed from an old position of the channel moves the write position on by the data and never rests on the capacity |
| `DmaReadRing.ChannelKeeps` | beken378/driver/audio/ring_buffer_dma_read.c:55-133 | a word read by the channel is the next one it was given |
| `DmaReadRing.StepKeeps` | beken378/driver/audio/ring_buffer_dma_read.c:55-133 | every step of channel or processor keeps indices and bytes |
| `DmaReadRing.RunIsQueue` | beken378/driver/audio/ring_buffer_dma_read.c:19-133 | in every interleaving: what the channel has read is what it was given, in order and without loss; it halts exactly when nothing is left; at most the capacity less the gap is on its way |
| `DmaReadRing.ClearNeedsStart` | beken378/driver/audio/ring_buffer_dma_read.c:38-52 | a clear leaves an empty ring if and only if the channel stands at the start |
| `DmaReadRing.SizesAreRight` | beken378/driver/audio/ring_buffer_dma_read.c:135-167 | the two sizes are the unread bytes and what is left of the capacity less the gap |
| `DmaReadRing.RbDmaRead.constructor` | beken378/driver/audio/ring_buffer_dma_read.c:19-36 | positions and pause address at the start |
| `DmaReadRing.RbDmaRead.Write` | beken378/driver/audio/ring_buffer_dma_read.c:55-133 | all or nothing: bytes, position and pause address for any position the channel reports |
| `DmaReadRing.RbDmaRead.GetFillSize` | beken378/driver/audio/ring_buffer_dma_read.c:135-149 | in every state the protocol keeps between writes, the number of unread bytes; with the free size it adds up to the capacity less the gap |
| `DmaReadRing.RbDmaRead.GetFreeSize` | beken378/driver/audio/ring_buffer_dma_read.c:151-167 | in every state the protocol keeps between writes, the capacity less the gap and the unread bytes |
| `Sfifo.UsedIsDistance` | beken378/app/ftp/ftpd.c:254-257 | the masked difference is the distance around the ring, also for a negative difference and for positions at the size |
| `Sfifo.SearchEnds` | beken378/app/ftp/ftpd.c:284-287 | the search for a size ends if and only if the request is below 2^30 |
| `Sfifo.Fifo.constructor` | beken378/app/ftp/ftpd.c:264-293 | an empty queue whose size is the least power of two above the request, with or without a buffer |
| `Sfifo.Fifo.Write` | beken378/app/ftp/ftpd.c:305-334 | the longest prefix that fits is appended; without a buffer an error and no change |
| `Ftp.Advanced` | beken378/app/ftp/ftpd.c:407-427 | the bytes offered to the connection are the head of the queue, and dropping them is moving the position, also across the end |
| `Ftp.SendData` | beken378/app/ftp/ftpd.c:386-428 | whatever the connection refuses: what it accepted is the head of the queue and the rest is still queued; accepted in full if nothing is refused; no length is truncated |
| `Ftp.SendMsg` | beken378/app/ftp/ftpd.c:1200-1260 | a reply is queued as a whole, or dropped |
| `Ftp.FileConserved` | beken378/app/ftp/ftpd.c:430-482 | over every run of callbacks: accepted and queued bytes are the file as far as it was read; 226 is sent only when the whole file is accepted, if and only if the queue has a buffer or the file is empty |
| `Ftp.FileProgress` | beken378/app/ftp/ftpd.c:430-482 | every callback in which the file and the connection give something brings the end nearer, so at most twice the length and two are needed |
| `Ftp.FileTransfer.SendFile` | beken378/app/ftp/ftpd.c:430-482 | the code is a step of that run, for any read count and any answers of the connection |
| `Ftp.ListConserved` | beken378/app/ftp/ftpd.c:484-558 | over every run of callbacks: accepted and queued bytes are the lines so far, and 226 is sent only when all lines are accepted, if and only if the queue has a buffer or the listing is empty |
| `Ftp.ListProgress` | beken378/app/ftp/ftpd.c:484-558 | every callback in which the connection accepts something brings the end nearer, if every line fits an empty queue |
| `Ftp.LongLineBlocks` | beken378/app/ftp/ftpd.c:499-503 | a line that does not fit is never passed: 226 is never sent |
| `Ftp.ListTransfer.SendNextDirectory` | beken378/app/ftp/ftpd.c:484-558 | the loop is a step of that run |
| `ConfigSearch.EndsExactlyIf` | beken378/app/net_work/app_drone.c:394-403 | the 32-bit search of any flash contents ends if and only if it ends within as many rounds as there are addresses before the end, and if and only if it comes to no address twice |
| `ConfigSearch.SearchByType` | beken378/app/net_work/app_drone.c:385-411 | wherever the search ends, wrapping lengths included: the address it stops at, 0 if that is the end |
| `ConfigSearch.ReachableEnds` | beken378/app/net_work/app_drone.c:394-408 | where no address wraps the search ends, at the first record of the type |
| `ConfigSearch.WrappingLengthStands` | beken378/app/net_work/app_drone.c:395-403 | a length of 2^32 - 8 in a record that is not the wanted one keeps the search at that record for ever |
| `ConfigSearch.WrappingLengthMayEnd` | beken378/app/net_work/app_drone.c:395-403 | a length that wraps around to an earlier record of the type ends there |
| `ConfigSearch.FindsFirst` | beken378/app/net_work/app_drone.c:385-411 | among encoded records the search stays within the container and finds the first of the type, 0 exactly if it is absent |
| `ConfigSearch.ReadsBack` | beken378/app/net_work/app_drone.c:392-396 | an encoded record reads back as its type, length and value |
| `ConfigSearch.HeadIs` | beken378/app/net_work/app_drone.c:85-89 | the head of a record is its type and its length, four bytes each, the lowest first |
| `ConfigSearch.GetParameter` | beken378/app/net_work/app_drone.c:424-438 | on the encoding of any nested configuration: the value of the first item of the type in the first class of the type; none if no class has the type, or the first such class no such item |
| `CoreQueue.StepKeeps` | beken378/app/app.c:117-410 | every step of senders, callers and the core thread keeps the counter, the references and the payloads accounted for |
| `CoreQueue.RunIsSafe` | beken378/app/app.c:117-410 | in every interleaving: queued, handled and unpushed receive messages are at most the counter, which is at most 2, and equal to it while no push has failed; every queued buffer has a reference of its own, every queued payload is live |
| `CoreQueue.ReleasesAreReal` | beken378/app/app.c:136-160 | whatever is released is there to be released: no double free, and the counter is positive when it is taken back |
| `CoreQueue.OneReferenceEach` | beken378/app/app.c:136-160 | coalescing and releasing together give back exactly the message's reference, on every path |
| `CoreQueue.NothingLeft` | beken378/app/app.c:117-410 | once all is handled only what the callers hold is left: every reference given back once, every payload freed once |
| `CoreQueue.FullQueueLeaks` | beken378/app/app.c:342-368 | a failed push raises the counter for good |
| `CoreQueue.Starved` | beken378/app/app.c:342-368 | after two failed pushes no receive message is ever queued again |
| `CoreQueue.StarvationIsReachable` | beken378/app/app.c:342-368 | such a run exists |
| `CoreQueue.CounterComesBack` | beken378/app/app.c:117-129 | with no receive message about, the counter is 0 if and only if no push has failed |
| `CoreQueue.WifiCore.RxSender` | beken378/app/app.c:342-368 | the call is the two steps of the protocol: past the counter, then the push, whose failure is not taken back |
| `CoreQueue.WifiCore.TxSender` | beken378/app/app.c:370-389 | the call is two steps of the protocol; the reference taken is in the queue, or given back |
| `CoreQueue.WifiCore.TxRawSender` | beken378/app/app.c:391-410 | the call is two steps of the protocol; the payload is in the queue, or freed |
| `CoreQueue.WifiCore.RxHandler` | beken378/app/app.c:117-129 | the call is the step of the protocol |
| `CoreQueue.WifiCore.TxHandler` | beken378/app/app.c:136-160 | the call is two steps of the protocol; one reference less on every path, and no coalesced buffer left over |
| `CoreQueue.WifiCore.TxRawHandler` | beken378/app/app.c:162-215 | the call is the step of the protocol; the payload freed on every path, a node handed on or freed |
| `CoreQueue.WifiCore.Round` | beken378/app/app.c:519-586 | one round is a run of the protocol that takes the first message, releases what it owned, counts it down if it is a receive message, and keeps the invariant |
| `Base64.RoundTrip` | beken378/app/http/utils_httpc.c:63-82 | the decoder of section 4 of RFC 4648 inverts its encoder, for every sequence of bytes, so that the output tells what is heard |
| `Base64.Alphabet` | beken378/app/http/utils_httpc.c:65-65 | the 64 letters are those of table 1 of RFC 4648 in its order |
| `Base64.Vectors` | beken378/app/http/utils_httpc.c:63-82 | the encoder gives the vectors of section 10 of RFC 4648 |
| `Base64.EncodeLength` | beken378/app/http/utils_httpc.c:63-82 | four letters for every three bytes begun, none of them a terminator |
| `Base64.EncodeSplits` | beken378/app/http/utils_httpc.c:68-73 | whole groups are encoded on their own |
| `Base64.ShiftInIs` | beken378/app/http/utils_httpc.c:69-69 | shift and or with a signed character: a byte of 0x80 or more replaces all that stands above it by ones |
| `Base64.NextByte` | beken378/app/http/utils_httpc.c:69-72 | a byte shifted into the accumulator brings out exactly the letters of the byte and of what then stands above it |
| `Base64.StandardExactlyIfClean` | beken378/app/http/utils_httpc.c:68-80 | the output is the encoding of RFC 4648 if and only if every byte of 0x80 or more begins a group or finds only ones in the accumulator |
| `Base64.AsciiIsClean` | beken378/app/http/utils_httpc.c:68-80 | seven-bit text is encoded as the standard says |
| `Base64.AccentIsMisencoded` | beken378/app/http/utils_httpc.c:68-80 | two bytes whose output is not the standard encoding, and is that of two others |
| `Base64.Ending` | beken378/app/http/utils_httpc.c:74-80 | the last letter and the padding complete the encoding of the bytes as they are heard |
| `Base64.EncodeBytes` | beken378/app/http/utils_httpc.c:68-73 | after the loop the output is that of the whole groups and of the bytes begun, as they are heard |
| `Base64.Base64Enc` | beken378/app/http/utils_httpc.c:63-82 | the buffer holds a terminated text that decodes to the bytes with the bits lost to signed characters set; it is the encoding of section 4 of RFC 4648 if and only if the bytes are clean |
| `Base64.SendAuth` | beken378/app/http/utils_httpc.c:231-255 | for accepted credentials both fixed buffers are long enough, newline and terminator included, and the line is the standard encoding if and only if the text is clean |

## Left out

- Register-level drivers, flash status registers, quad mode, clocks and busy polling: the flash controller is
  taken as atomic read, program and erase operations, and cells beyond the chip read as erased.
- The service routines called by the dispatcher do not change the table or the mask while it walks.
- `list_switch` and the entry iteration macros, which would add only easy members.
- `store_block`'s read-back comparison and its checks of header sequence numbers, which only print, and the
  failure of its scratch allocation.
- 32-bit wrap-around of flash addresses in a commit record: addresses are unbounded.
- `co_crc32` is any function folded over bytes; its polynomial is not part of this model.
- The allocation of the update buffer is taken to succeed.
- HTTP headers and content-length handling, sockets and timers; the pieces of content are inputs.
- TFTP packets are values: the bytes of requests and option acknowledgements, and the parsing of a block size
  from text, are not modelled, and the server is any that conforms to RFC 1350 with one block size.
- A client that nobody has answered takes whoever answers first for its server, as `Tftp.TftpClient.Handler`
  says; in the runs of the system only the server answers the request.
- AirKiss: the table of MAC addresses, the closed receive library and the channel lock; only the channel list,
  its counters and the scheduler are kept. The modes other than the two scanning ones set no channel.
- The barrier-free memory model of a multiprocessor: the steps of the rings are atomic and ordered.
- Interrupt locks around single assignments of the rings, which are single steps here.
- The first copy of a ring write is a single step: its cells are no unread ones (`RingInterleaving.NoOverwrite`), so
  the reader cannot tell.
- DMA transfers and the capacities of the DMA rings are whole words, and a channel wraps at the capacity;
  the registers of the DMA driver are not part of this model.
- `kfifo_alloc` and `kfifo_free`, and a kfifo of size 0. `kfifo_alloc` hands its size on without rounding it up,
  contrary to its comment, so its callers must give a power of two.
- FTP commands, the formatting of directory lines, and the FatFs layer: a file is a sequence of bytes that
  gives any number of those asked for, a directory is the lines it yields until it ends, and a read error of
  the directory is its end.
- The core thread's power-save messages, which own nothing, are one kind of message; a push that waits is a
  push that comes later.
- ConfigSearch.SearchByType: requires that the search ends, the exact condition for which is proved, because
  otherwise the code does not return.
- StoreBlock.OtaStore.StoreBlock: requires at least the 24 bytes of a header, because with less the byte count
  wraps and the code reads beyond its buffer.
- Sfifo.Fifo.constructor: requires a request below 2^30, because above the code does not end.
- HttpOta.HttpWriter.Finish: requires, in the image format, a remainder of at least a block header, because with
  less the byte count wraps.
- HttpOta.HttpWriter.Download: requires the same of the whole content.
- RingBuffer.Rb.Write: requires a length that does not wrap when the gap is added; no buffer is as long as 2^32 - 4.
- DmaReadRing.RbDmaRead.Write: requires the same.
- DmaWriteRing.RbDmaWrite.constructor: requires room for the gap, because with less the pause address lies
  before the buffer.
- `utils_timer.c`, `package.c`, the operating system wrappers, demos and command lines.
