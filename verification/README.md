# Verified model of the Remora firmware core

Remora turns an STM32F446 board with a WIZnet Ethernet chip into a motion-control slave
of LinuxCNC. This project models its hardest parts in Dafny and proves what they are for:

* **Checksums.** The hand-unrolled Thumb-2 one's-complement sum, the table-driven CRC-32,
  the bit-serial CRC-32, and the byte-at-a-time CRC with a stored accumulator
  (modules `Checksum`, `Crc32`, `Crc32Theory`). The references are section 2 of RFC 1071
  and polynomial long division as section 8 of RFC 1952 defines the CRC.
* **Configuration delivery.** From the JSON file on the host to the string the board loads
  at its next boot: image building, lock-step TFTP (sections 2, 4, 5 and 6 of RFC 1350) over
  a network that loses, duplicates and reorders, flash programming, checking, moving,
  clearing, rebooting (modules `LittleEndian`, `Uploader`, `Flash`, `Board`, `Tftp`,
  `TftpProtocol`, `Config`, `Delivery`, `Sessions`).
* **The UF2 and Intel HEX converter.** An image survives the formats (modules `Uf2`,
  `Uf2RoundTrip`, `Hex`, `HexImage`).
* **Real-time exchange.** Ping-pong buffers, the state machine and the two threads, one
  statement at a time with interrupts between the statements (modules `Exchange`,
  `Scheduler`, `CallOrder`, `ModuleBase`), the console's receive ring under an interrupt
  (`RingBuffer`), the framing to and from the Ethernet chip (`Frames`), and the word-wise
  memory copy (`Memcpy`).

Code that the sources run as loops over mutable state is written here as methods and classes
whose postconditions equate the new state with a specification function; the lemmas are
about those functions. The concurrent parts are state machines whose events are single
statements and interrupts, and the results hold over every sequence of enabled events.

## Where the code and its intention differ

Each of these is proved in the model: the exact condition under which the code does what it
is meant to do, and a lemma with an input or a run on which it does not.

* The global `crc32` is never reset, so `checkJson` accepts a genuine image if and only if the
  accumulator is zero (`Delivery.GenuineAcceptedIff`), that is, after any sequence of checks
  since boot, if and only if the payloads whose CRC was computed have together CRC zero
  (`Delivery.AfterChecks`; a check that stops at the length computes none, as on a blank upload
  area, `Delivery.BlankIsRejected`).
* `checkJson` adds the padding to the byte length in 32 bits. From 2^32 - 3 on the sum wraps to
  zero, nothing is read, and the upload is accepted if and only if its CRC word is the
  accumulator (`Delivery.WrappedLength`, `Delivery.NothingAccepted`).
* A write request erases `JSON_SECTOR`, which holds the stored configuration, and not the
  upload area. So a boot during any upload runs the default configuration
  (`Delivery.BootDuringUpload`), and an upload is stored faithfully if and only if no bit it
  needs had been cleared before (`TftpProtocol.UploadExact`, `TftpProtocol.UploadLost`).
* The accumulator and the upload area together, over any number of uploads, finished or given
  up, without a restart: `Sessions.NextUpload` says exactly when the next genuine upload is
  stored and when it is then accepted. If an upload arrives with its CRC word damaged to ones
  and is rejected, the genuine upload after it is stored exactly and rejected too
  (`Sessions.GenuineRejected`, for every file whose CRC is neither zero nor all ones;
  `Sessions.OrdinaryFile` gives one). If the word is damaged to zeros, no upload of the file
  after it can be stored (`Sessions.GenuineLost`).
* `moveJson` writes the length before the bytes: a power failure in between boots a file
  whose missing part reads as 0xFF bytes, and that is the right file if and only if the
  missing part is 0xFF (`Delivery.TornMoveExact`, `Delivery.TornMoveBootsWrong`).
* `GetSector` takes the last byte of sectors 1 to 7 for sector 0 (`Flash.GetSectorExact`,
  `Flash.GetSectorLastByte`). No caller passes such an address.
* `FLASH_If_Write` returns 0 also when its guard stopped it. A result of 0 means that all words
  were written if and only if the data end before the last word of the flash does
  (`Flash.FlashIfWrite`, `Flash.GuardExact`, `Flash.WriteLastWord`).
* The loop of `ST_RESET` clears the command buffer in place. The base thread sees one whole
  buffer, the last command or the zeros of a reset, unless it runs after that loop has cleared a
  non-zero byte and before it has cleared all of them (`Exchange.WholeBufferExact`,
  `Exchange.WholeCommandExact`, `Exchange.HalfClearedSeen`).
* A servo tick is dropped if and only if it finds `execute` set: from the tick that requested
  a run up to the statement that clears the flag, which is the last but one of the run
  (`Scheduler.TickDroppedExact`, `Scheduler.SecondTickIsDropped`).
* `convert_from_uf2` reads a written file if and only if its blocks have no hole: the padding
  loop appends integers to a list of byte strings and the final join fails
  (`Uf2RoundTrip.ReadBack`, `Uf2RoundTrip.HoleIsNotRead`).
* `convert_from_hex_to_uf2` takes the empty string after a final line feed for a line. A text
  that ends in a line feed is read if and only if it has an end-of-file record and no record
  before it is too short; a text that does not needs no end-of-file record
  (`HexImage.TextParsesExact`, `HexImage.FinalLineFeedMatters`).
* A slow module asked for `s` updates in `f` calls makes exactly `s` if and only if
  `f % s < f / s`, and more otherwise (`ModuleBase.SlowRate`, `ModuleBase.RateMissed`).
* `EthernetTasks` passes the number of all waiting bytes as the limit of one frame, so no
  frame is ever dropped as too long, and the frame fits in the buffer of 1500 bytes if and
  only if it has at most 1500 bytes, its Ethernet header included
  (`Frames.CallerLosesNothing`, `Frames.LongFrameDoesNotFit`).

## What the code relies on

The lemmas state these as preconditions: 512 bytes of metadata and the file fit in the
64 KiB between the upload and the storage address; an upload that passes the length test,
genuine or not, has its padded payload inside the flash; the upload area is blank before a
session where a result is about a faithful upload (an accepted upload restores this,
`Delivery.CycleDelivers`); an upload is one write request, and its data port receives only data
packets of at most 516 bytes; command datagrams have exactly 64 bytes; the ring's size is a
power of two; a packet sent fits in the transmit frame, and a frame that is received in the
buffer it is received into.

## Model

| member | source | states |
|---|---|---|
| Checksum.Thumb2Checksum | Src/arch/checksum.c:31-125 | for every buffer, length and start address, aligned or not, the unrolled carry-chained sum with its double fold and byte swap is the one's-complement sum of section 2 of RFC 1071 |
| Checksum.SumWords | Src/arch/checksum.c:73-99 | the two summing loops lose no carry: the register stays congruent modulo 65535 to the bytes consumed, zero only with them, and at most one byte is left |
| Checksum.OnesSumIsWordSum | Src/arch/checksum.c:17-25 | the reference sum with end-around carry is congruent modulo 65535 to the even-index bytes plus 256 times the odd-index bytes, and zero only with it |
| Checksum.ZeroSumExact | Src/arch/checksum.c:17-25 | either sum is zero if and only if every byte is |
| Checksum.Canonical | Src/arch/checksum.c:108-115 | 16 bits leave exactly one representative of a one's-complement value |
| Checksum.TotalSwapped | Src/arch/checksum.c:51-57 | summing from an odd address, first byte in the high position, gives the reference sum up to one byte swap |
| Checksum.FoldTwice | Src/arch/checksum.c:108-115 | two folds bring any 32-bit register to 16 bits without changing its one's-complement value |
| Checksum.OneFoldFallsShort | Src/arch/checksum.c:108-115 | one fold is not enough: two words whose register folds to 17 bits |
| Crc32.GenerateTable | Inc/crc32.h:7-24 | after the nested loops, entry i is eight polynomial steps of i for all 256 entries |
| Crc32.Update | Inc/crc32.h:26-35 | the table-driven update of a stored result by a buffer is the bit-serial CRC register run over it |
| Crc32.EthernetFrameCrc | Src/w5x00_lwip.c:163-184 | the bit-serial loop, with the octet shifted beside the register, computes the same function as the table-driven update from 0 |
| Crc32.TableStep | Inc/crc32.h:30-33 | eight bit steps of the register mixed with a byte are one table entry mixed with the register shifted by eight |
| Crc32.ShiftNLinear | Inc/crc32.h:13-21 | the polynomial steps are linear over GF(2) |
| Crc32.ShiftNInjective | Inc/crc32.h:13-21 | no two registers become equal after any number of steps |
| Crc32.FoldInjective | Inc/crc32.h:28-33 | no message merges two different registers |
| Crc32.Streaming | Src/remora.cpp:207-213 | feeding a buffer in two pieces through the stored result is feeding it at once, for all pieces and all initial values |
| Crc32.CrcFromAccumulator | Src/remora.cpp:144-144 | a running accumulator gives the CRC of a buffer if and only if it was zero |
| Crc32Theory.FoldIsFoldBits | Src/w5x00_lwip.c:167-181 | the byte register is the bit register over the message bits, least significant first |
| Crc32Theory.FoldIsShift | Src/w5x00_lwip.c:167-181 | up to 32 message bits act as if they had been added to the register at once |
| Crc32Theory.WindowInjective | Inc/crc32.h:26-35 | two different strings of at most 32 bits never lead to the same register |
| Crc32Theory.BurstDetected | Src/remora.cpp:208-225 | two messages that differ, but only within 32 consecutive bits anywhere, never have the same CRC |
| Crc32Theory.ThirtyThreeBitsEscape | Inc/crc32.h:9-9 | from every register, the generator's 33 bits lead where 33 zeros lead |
| Crc32Theory.FoldBitsLinear | Inc/crc32.h:26-35 | the register after a message is linear over GF(2) in the message and the initial register together |
| Crc32Theory.BurstEscapes | Inc/crc32.h:26-35 | the window of 32 bits is the longest: for every message and every 33 consecutive bits in it there is a different message, equal outside them, with the same CRC for every initial value |
| Crc32Theory.RegisterIsDivision | Inc/crc32.h:13-21 | the register after any bits is the remainder of schoolbook division by the generator |
| Crc32Theory.CrcIsLongDivision | Inc/crc32.h:26-35 | the CRC is the complemented remainder of section 8 of RFC 1952 |
| LittleEndian.Value32OfBytes32 | LinuxCNC_Configs/NucleoHat/upload_config.py:58-65 | four little-endian bytes read back as the number they were made from |
| LittleEndian.WordValueOfBytes | LinuxCNC_Configs/NucleoHat/upload_config.py:54-57 | the same for a 32-bit register |
| LittleEndian.AllOnesValue | Src/remora.cpp:294-297 | four bytes read as the empty marker if and only if all of them are 0xFF |
| Uploader.BuildImage | LinuxCNC_Configs/NucleoHat/upload_config.py:27-66 | the script's padding, CRC and in-place metadata writes give, byte by byte: the CRC of everything behind the metadata, the length in words, the length in bytes, zeros up to 512, the file, and zeros up to a multiple of four |
| Uploader.ImageLayout | LinuxCNC_Configs/NucleoHat/upload_config.py:38-66 | the same of the image that the other results speak of |
| LittleEndian.Bytes32Digits | LinuxCNC_Configs/NucleoHat/upload_config.py:58-65 | the four bytes are the number's digits to base 256, the least significant first |
| LittleEndian.Bytes32OfValue32 | Src/remora.cpp:180-180 | every four bytes are those of the number they read as |
| Crc32Theory.WordBytesBits | LinuxCNC_Configs/NucleoHat/upload_config.py:54-57 | the four bytes of a register are its 32 bits, the least significant first |
| Flash.ProgramBlank | Src/tftpserver.cpp:185-190 | programming blank cells stores the data and changes nothing else |
| Flash.ProgramConcat | Src/tftpserver.cpp:185-190 | adjacent programming operations compose to one, whatever the cells held |
| Flash.ErasedCells | Src/flash_if.cpp:167-172 | erasing a sector sets exactly the cells that lie in it |
| Flash.GetSectorExact | Src/flash_if.cpp:33-134 | the decision chain names the right sector if and only if the address is in sector 0 or not the last byte of its sector |
| Flash.GetSectorLastByte | Src/flash_if.cpp:61-64 | a concrete wrong answer: the last byte of the upload sector is taken for sector 0 |
| Flash.FlashIfErase | Src/flash_if.cpp:153-181 | succeeds if and only if unlocked and the address is at most the last page's, and erases exactly the sector that GetSector names |
| Flash.FlashIfWrite | Src/flash_if.cpp:192-219 | whatever it returns, a contiguous prefix of the words has been programmed and read back, the address stands behind it, and nothing else has changed but one word more in case 2; 0 means that it stopped at DataLength or at the guard, at DataLength if and only if the data end before the last word of the flash does, 1 that the flash was locked, 2 that the cells could not take that word |
| Flash.GuardExact | Src/flash_if.cpp:196-196 | aligned words all pass the guard if and only if they end before the last word of the flash does |
| Flash.WriteLastWord | Src/flash_if.cpp:196-218 | one word at the last word's address: 0 is returned and nothing is written |
| Flash.FlashDevice.ProgramAt | Src/tftpserver.cpp:186-187 | the contract of the HAL call: cells are ANDed when unlocked, and hits on non-blank cells are counted |
| Tftp.DataPacketBlock | Src/tftpserver.cpp:70-98 | the block number survives encoding and extraction for all 16-bit numbers |
| Tftp.AckPacketBlock | Src/tftpserver.cpp:108-147 | the acknowledgement carries its opcode and block number |
| Tftp.PacketLayout | Src/tftpserver.cpp:82-127 | byte by byte, the packets of section 5 of RFC 1350: zero, opcode, block number with the most significant byte first, data |
| Tftp.ShortPacketEnds | Src/tftpserver.cpp:169-224 | any packet shorter than a full block ends the connection and announces a file, also one that is not the next block and is not stored |
| Tftp.ProgramBlock | Src/tftpserver.cpp:184-191 | the half-word loop is one programming of all 512 bytes, and overwrites nothing if those cells are blank |
| Tftp.WrqRecvCallback | Src/tftpserver.cpp:158-230 | the whole new state for every packet (next, repeated, early, empty, last, fragmented) is the transition Receive, and the reply acknowledges the block the state then stands at |
| Tftp.ProcessWrite | Src/tftpserver.cpp:239-286 | a write request leaves block 0, the upload address, the storage sector erased and acknowledgement 0 |
| Tftp.RecvCallback | Src/tftpserver.cpp:298-336 | anything but a write request leaves every global, the write address and the flash with its lock unchanged and gets no answer; a write request is answered by acknowledgement 0 and the start state |
| TftpProtocol.ReceiveOther | Src/tftpserver.cpp:169-212 | a full block that is not the next one, repeated or early, changes nothing in flash or state |
| TftpProtocol.StepKeepsInv | Src/tftpserver.cpp:158-286 | every delivery of any packet ever sent keeps client and receiver at most one block apart and the flash equal to the accepted blocks |
| TftpProtocol.UploadIsLockStep | Src/tftpserver.cpp:158-286 | over every run with loss, duplication and reordering the flash is the blocks accepted so far, each zero-filled, tot_bytes is the number of file bytes in them, and newJson is set if and only if the last block (possibly empty) was accepted |
| TftpProtocol.DoneMeansDelivered | Src/tftpserver.cpp:211-224 | a client that has its last acknowledgement can rely on the whole file being in flash |
| TftpProtocol.DeliveryIsSafe | Src/tftpserver.cpp:169-196 | in every reachable state the receiver can take every packet in flight, and leaves the flash outside the upload area as it was |
| TftpProtocol.SomeRunCompletes | Src/tftpserver.cpp:158-230 | for every file that fits and every flash contents there is a run that finishes |
| TftpProtocol.UploadExact | Src/tftpserver.cpp:266-280 | on flash that was not blank, a finished upload holds the file if and only if every bit the file needs set was still set |
| TftpProtocol.UploadLost | Src/tftpserver.cpp:264-280 | on every flash that lacks a bit the file needs there is a run that finishes as usual and does not leave the file there |
| Config.CheckJson | Src/remora.cpp:178-231 | the byte-at-a-time loop computes the CRC of the whole padded payload from the accumulator, accepts exactly on a match with the metadata, always clears newJson, and the length test, which comes before the payload is read, leaves the accumulator alone |
| Config.LengthTestLimits | Src/remora.cpp:187-193 | lengths up to 0x2FFFF words pass the test and lengths from 0x30000 on do not |
| Config.ShortLengthWraps | Src/remora.cpp:239-258 | of a longer file only the part beyond a multiple of 64 KiB is moved |
| Config.MoveJson | Src/remora.cpp:234-271 | the storage sector becomes the length word and the copied bytes, and no programming hits a cell that is not blank |
| Config.ClearJsonUploadArea | Src/remora.cpp:273-282 | exactly sector 6, the upload area's, is erased |
| Config.JsonFromFlash | Src/remora.cpp:285-326 | the stored bytes, or the default configuration if the length word is empty, are appended to the string, and staticConfig is cleared in the first case only |
| Config.InstallNewJson | Src/remora.cpp:672-688 | the board reboots if and only if a new file was announced and passed the check; otherwise the flash is unchanged |
| Delivery.ImageReadsBack | Src/remora.cpp:180-213 | the metadata and padding computed on the board agree with what the uploader wrote, for every file that fits |
| Delivery.GenuineAcceptedIff | Src/remora.cpp:208-230 | a genuine image is accepted if and only if the accumulator is zero |
| Delivery.BurstRejected | Src/remora.cpp:208-225 | after damage confined to 32 consecutive bits of the payload the file is rejected whenever the intact one is accepted |
| Delivery.BlankIsRejected | Src/remora.cpp:188-193 | a blank upload area is rejected at the length test and leaves the accumulator alone |
| Delivery.WrappedLength | Src/remora.cpp:196-213 | a byte length whose padded length wraps to zero has nothing read, and is accepted if and only if the CRC word is the accumulator |
| Delivery.NothingAccepted | Src/remora.cpp:196-225 | twelve bytes with such a length are accepted at the first check since boot |
| Delivery.ChecksAccumulate | Src/remora.cpp:207-213 | the accumulator after any sequence of checks is the CRC of their payloads end to end, those stopped at the length left out |
| Delivery.AfterChecks | Src/remora.cpp:187-225 | after any sequence of checks since boot a genuine image is accepted if and only if the payloads read so far have together CRC zero |
| Sessions.LeavesWritten | Src/tftpserver.cpp:158-286 | every run of a session that accepted k blocks leaves the same flash, whatever the network did |
| Sessions.AttemptRuns | Src/tftpserver.cpp:158-286 | every number of accepted blocks, on every flash, is reached by some run |
| Sessions.UploadArea | Src/tftpserver.cpp:264-280 | after any uploads, finished or given up, each byte of the upload area is its first content and what every one of them programmed there, ANDed |
| Sessions.StoredExact | Src/tftpserver.cpp:264-280 | the next finished upload of a configuration leaves its image in flash if and only if no bit it needs has been cleared by then |
| Sessions.NextUpload | Src/remora.cpp:672-688 | after any uploads since boot of which none was accepted, the next one is stored if and only if no bit it needs has been cleared, and then accepted if and only if the payloads checked so far have together CRC zero |
| Sessions.DamagedRejected | Src/remora.cpp:219-225 | over a blank upload area, an image whose CRC word arrives wrong is stored as it arrived and rejected, and leaves the file's CRC in the accumulator |
| Sessions.GenuineRejected | Src/remora.cpp:211-225 | two sessions in a row: an image whose CRC word arrives as ones is rejected, and the genuine image sent after it is stored exactly and rejected, though the first check since boot would accept it |
| Sessions.OrdinaryFile | Src/remora.cpp:219-225 | there is a file whose CRC is neither zero nor all ones |
| Sessions.GenuineLost | Src/tftpserver.cpp:264-280 | an image whose CRC word arrives as zeros is rejected, and no run of the genuine upload after it leaves the genuine image in flash |
| Delivery.CopyStores | Src/remora.cpp:261-267 | on blank storage the copy loop stores the payload and leaves every other cell as it was |
| Delivery.MovedSoFarParts | Src/remora.cpp:247-267 | after any number of copied bytes the storage area is the length, that prefix of the file, and blank cells, and everything below is untouched |
| Delivery.BootDuringMove | Src/remora.cpp:253-267 | a boot after i copied bytes loads those bytes followed by 0xFF; a length that fits is never the empty marker |
| Delivery.BootAfterErase | Src/remora.cpp:247-253 | a boot between the erase and the length word loads the default configuration |
| Delivery.TornMoveExact | Src/remora.cpp:253-267 | an interrupted move boots the intended file if and only if everything missing is 0xFF |
| Delivery.TornMoveBootsWrong | Src/remora.cpp:253-267 | a move that stops before the last byte of a file that does not end in 0xFF boots something else |
| Delivery.BootDuringUpload | Src/tftpserver.cpp:264-277 | from the write request on, in every reachable state, a boot loads the default configuration |
| Delivery.ProgramsBlankCells | Src/tftpserver.cpp:179-194 | in every reachable state of a session on a blank upload area, the cells of the next block lie in that area and are blank: nothing is programmed twice |
| Delivery.FinishedCells | Src/tftpserver.cpp:158-230 | cell by cell, after a finished session on a blank upload area: the file, zeros to the end of its last block, blank cells |
| Delivery.SessionDelivers | Src/tftpserver.cpp:158-230 | a finished session on a blank upload area leaves the uploader's image there and the program sectors untouched |
| Delivery.CycleDelivers | Src/remora.cpp:678-683 | after move and clear the next boot loads exactly the file, and the upload area is blank again |
| Delivery.EndToEnd | LinuxCNC_Configs/NucleoHat/upload_config.py:27-72 | host file to booted configuration over every network run: accepted if and only if the accumulator is zero, loaded byte for byte, ready for the next upload |
| Uf2.ConvertToUf2 | uf2conv.py:119-140 | gives the blocks of the file's pages, or fails, which EncodableExact and FileLayout make precise |
| Uf2RoundTrip.EncodableExact | uf2conv.py:132-134 | it fails exactly when some field of some block's header does not fit in 32 bits |
| Uf2RoundTrip.FileLayout | uf2conv.py:126-139 | every block of a written file holds, byte by byte, the magic words, the family flag, the page's address, 256, its own number, the number of blocks, the family, the page, zeros and the final magic word |
| Uf2.ConvertFromUf2 | uf2conv.py:35-107 | the loop with its families, addresses, padding and failures is the reader Read, for every input |
| Uf2RoundTrip.NoFlashIsSkipped | uf2conv.py:52-54 | a block with the no-flash bit is passed over whatever else it holds |
| Uf2RoundTrip.BadBlocksFail | uf2conv.py:49-57 | a block without the magic words, or with more than 476 bytes of data, ends the reading |
| Uf2RoundTrip.TwoFamilies | uf2conv.py:59-106 | of a file with two families, a reader set to one gets its page and address, a reader set to another gets nothing, and a reader set to none gets nothing and the address 0 |
| Uf2.JoinItems | uf2conv.py:107-107 | the loop gives the concatenation, and succeeds if and only if every element is a byte string |
| Uf2RoundTrip.ReadWritten | uf2conv.py:48-84 | reading one written block adds its page, preceded by one integer for each byte of the gap before it, and fails on gaps that are negative, not a multiple of four, or longer than 10 MiB |
| Uf2RoundTrip.ReadBack | uf2conv.py:35-107 | reading a written file succeeds if and only if its pages have no hole, and then gives their bytes and first address |
| Uf2RoundTrip.HoleIsNotRead | uf2conv.py:73-75 | two written pages with an empty one between them are not read back |
| Uf2RoundTrip.DataOfPages | uf2conv.py:126-136 | the pages of a file are the file filled with zeros to a multiple of 256 |
| Uf2RoundTrip.RoundTrip | uf2conv.py:35-140 | converting a non-empty file and converting it back gives the file filled to a multiple of 256 and restores appstartaddr, for every family |
| Uf2RoundTrip.WrittenIsUf2 | uf2conv.py:22-24 | what the script writes consists of 512-byte blocks and is recognized as UF2 |
| Hex.ParseRecord | uf2conv.py:170-174 | the character loop reads the digit pairs of a line and stops before a lone last character |
| Hex.StoreByte | uf2conv.py:188-191 | in-place writes into the current block object, or a new one, are the page operation Put; other blocks keep their contents |
| Hex.EncodeBlocks | uf2conv.py:147-159 | each block encodes to the same 512 bytes as convert_to_uf2 would give its page, numbered among its fellows as FileLayout says |
| Hex.StoreRecord | uf2conv.py:182-193 | the loop over a data record turns the pages of the stores so far into the pages of those stores and the record's, through the shared block objects |
| Hex.ConvertFromHexToUf2 | uf2conv.py:161-198 | for every text, the loops over lines, digits and block objects give the file of the stores that the records of types 4, 2, 1 and 0 describe, or the failure of the first line that has one |
| Hex.PagedIsFaithful | uf2conv.py:187-193 | for data that never goes back to an earlier page: strictly increasing 256-aligned blocks, one for every touched page, every byte the one stored last at its address or 0 |
| Hex.IncreasingMeansNeverBack | uf2conv.py:188-190 | increasing blocks come only from such data |
| HexImage.LineParses | uf2conv.py:170-174 | a printed record, with or without carriage return, parses back to itself |
| HexImage.PairMeaning | uf2conv.py:173-173 | two hexadecimal digits of either case are 16 times the first plus the second |
| HexImage.RecordsLand | uf2conv.py:175-193 | after an address record of type 4 or 2 with value u, byte i of a data record at address a is stored at 0x10000 u + a + i, or 0x10 u + a + i; the first data record of a file sets appstartaddr |
| HexImage.OthersIgnored | uf2conv.py:168-182 | records of other types and lines that do not begin with a colon change nothing |
| HexImage.TextParses | uf2conv.py:167-193 | the text of any list of records, with or without a final line feed, is taken record by record up to the end-of-file record |
| HexImage.TextParsesExact | uf2conv.py:167-182 | the text is read if and only if an end-of-file record comes after records that are long enough for their types, or no line feed follows the last record and all records are long enough |
| HexImage.FinalLineFeedMatters | uf2conv.py:167-169 | a single data record converts without a line feed behind it and fails with one |
| HexImage.ImageSurvives | uf2conv.py:35-198 | reading back the blocks of any stores succeeds if and only if the pages are contiguous, and gives the memory image from the first page's base to the last page's end |
| HexImage.HexFileSurvives | uf2conv.py:35-198 | the same from any readable text of a HEX file to the image read back |
| Exchange.StepKeepsSim | Src/remora.cpp:805-877 | each statement, interrupt and datagram keeps the buffers related to the atomic exchange; a read takes effect at the TX swap, a write at the RX swap |
| Exchange.RunRefines | Src/remora.cpp:470-877 | every interleaving has the outcome of its requests, reports and resets done one after the other |
| Exchange.StepServes | Src/remora.cpp:805-877 | a datagram is pending from its arrival to the one statement at which it takes effect |
| Exchange.RunServes | Src/remora.cpp:805-877 | every datagram takes effect exactly once, in order of arrival |
| Exchange.OutcomeOfOps | Src/remora.cpp:599-629 | the command is the last write's payload, or zeros after start-up or reset; the counters count reads and writes |
| Exchange.ExchangeOverRuns | Src/remora.cpp:568-590 | over every run: what a base tick would read is the last write (or zeros), RX index is the parity of writes, TX index the parity of reads and writes wherever an interrupt can fire, and every reply sent answers its datagram, in order of arrival, with the report that stood at its swap: 64 bytes with the letters of data or ackn for a read or a write, nothing for any other |
| Exchange.AnswerAnswers | Src/remora.cpp:817-855 | the reply in bytes: a datagram that begins with the letters of read or writ gets data or ackn and the rest of the report, any other an empty reply |
| Exchange.HeaderOfWithHeader | Src/remora.cpp:833-851 | the header word written is the one read back, and nothing else of the report changes |
| Exchange.RepliesAnswer | Src/remora.cpp:805-877 | over every sequence of operations the k-th reply answers the k-th request with the report that stands when it is served |
| Exchange.FreshReportStands | Src/remora.cpp:826-847 | a report made since the last swap is the one that stands |
| Exchange.RunStateTable | Src/remora.cpp:470-597 | the statement-level machine makes the transitions of the state machine |
| Exchange.WholeCommandExact | Src/remora.cpp:578-587 | in every reachable state the base thread would read the last command if and only if it is not in the reset loop after a non-zero byte was cleared |
| Exchange.WholeBufferExact | Src/remora.cpp:578-587 | in every reachable state it would read one whole buffer, the last command or all zeros, if and only if it is not in the reset loop with a non-zero byte cleared and bytes still to clear |
| Exchange.HalfClearedSeen | Src/remora.cpp:578-587 | a run from power-on to a base tick that would read neither the last command nor zeros |
| Exchange.EnabledIsLegal | Src/remora.cpp:667-670 | no reachable state blocks an event other than by its own condition: indices and copies stay in range |
| Exchange.PingPong.UdpDataCallback | Src/remora.cpp:805-877 | the uninterrupted callback sends the bytes that AnswerAnswers describes, for the report that stands, and leaves the state of the atomic exchange |
| Exchange.PingPong.RunThreads | Src/remora.cpp:470-597 | the transitions of the state machine, with a reset zeroing the command and nothing else |
| Exchange.PingPong.ZeroCommand | Src/remora.cpp:576-588 | the downward loop leaves all zeros in the current RX buffer and the other buffer as it was |
| Scheduler.StepKeepsInv | Src/thread/pruThread.cpp:45-72 | every statement of run keeps: semaphore set exactly from entry to exit, execute set exactly while a request stands, and the calls made are whole schedules plus the part of the one in progress |
| Scheduler.NextKeepsInv | Src/thread/timer.cpp:26-32 | the same for two threads under both timers, with the base interrupt never finding an unserved base tick |
| Scheduler.TicksAccounted | Src/thread/timer.cpp:26-32 | every tick is a finished run, the standing request, or a tick dropped because a request already stood |
| Scheduler.TickDroppedExact | Src/thread/timer.cpp:26-32 | in every reachable state a servo tick is dropped if and only if it finds execute set |
| Scheduler.DroppedAreLate | Src/thread/timer.cpp:26-32 | over every interleaving the dropped ticks are the servo ticks that found execute set |
| Scheduler.SecondTickIsDropped | Src/thread/timer.cpp:26-32 | two servo ticks before the main loop polls: the second is dropped |
| Scheduler.SchedulerOverRuns | Src/thread/pruThread.cpp:45-72 | over every interleaving: the spin never waits, one base run a base tick, servo runs, ticks that found execute set and the pending tick add up to the servo ticks, with a tick before each run, and every run called every module once in order of registration, post modules last |
| Scheduler.RequestedRun | Src/thread/pruThread.cpp:45-72 | the statements of a requested run amount to one operation that appends the schedule and clears the request |
| Scheduler.CallsPerTick | Src/thread/pruThread.cpp:32-42 | a module of the base thread has been called once for each base tick and registration |
| CallOrder.CallsInOrder | Src/thread/pruThread.cpp:54-68 | over every interleaving, call by call: run k of a thread called its modules in order of registration and then its post modules, and outside the base interrupt there have been as many base runs as base ticks |
| Scheduler.PruThread.constructor | Src/thread/pruThread.cpp:11-20 | whatever the unset hasThreadPost holds, the new thread satisfies the invariant |
| Scheduler.PruThread.RegisterModule | Src/thread/pruThread.cpp:32-35 | appends in order and keeps the thread fresh |
| Scheduler.PruThread.RegisterModulePost | Src/thread/pruThread.cpp:38-42 | appends to the post modules and keeps the thread fresh |
| Scheduler.PruThread.Run | Src/thread/pruThread.cpp:45-72 | does what RequestedRun says if a request stands, and nothing otherwise |
| Scheduler.PruTimer.TimerTick | Src/thread/timer.cpp:26-32 | the base timer completes a run; the servo timer leaves a request |
| ModuleBase.Module.constructor | Src/modules/module.cpp:5-10 | a standard module starts with period 1 and no calls |
| ModuleBase.Module.Slow | Src/modules/module.cpp:13-20 | the divider is the truncated quotient, which fits in 32 bits |
| ModuleBase.Module.RunModule | Src/modules/module.cpp:25-36 | the counter is the number of calls modulo the period, never overflows, and the slow update leads every period-th call |
| ModuleBase.UpdateCounts | Src/modules/module.cpp:25-36 | n calls make n updates and one slow update for each full period |
| ModuleBase.SlowLeads | Src/modules/module.cpp:25-36 | the slow update of every period-th call comes right before its fast one, and there is none in any other call |
| ModuleBase.TruncationExact | Src/modules/module.cpp:18-18 | the quotient is the one whose remainder is smaller than the divisor and has the sign of the dividend |
| ModuleBase.SlowRate | Src/modules/module.cpp:13-36 | a module constructed for s slow updates in f calls makes at least s of them in f calls of runModule, exactly s if and only if f % s < f / s |
| ModuleBase.RateMissed | Src/modules/module.cpp:13-36 | asked for three slow updates in five calls, it makes five |
| ModuleBase.SlowUpdatesPerTick | Src/modules/module.cpp:25-36 | over every interleaving, a base module's updates and slow updates follow from the number of base ticks |
| RingBuffer.StepsRoundExact | Src/usb_serial.c:18-18 | masking with size - 1 goes round the buffer if and only if the size is a power of two |
| RingBuffer.NextKeepsInv | Src/usb_serial.c:44-58 | every statement of writer and reader, in any interleaving, keeps the ring a queue |
| RingBuffer.DropExact | Src/usb_serial.c:48-55 | a byte is dropped if and only if it finds size - 1 bytes in the queue |
| RingBuffer.RingIsFifo | Src/usb_serial.c:44-58 | over every interleaving: taken and held bytes are the kept bytes in the order offered, BUFCOUNT is the number held and below the size, overflow is set between calls if and only if a byte was ever dropped |
| RingBuffer.RxBuffer.UsbBufferInput | Src/usb_serial.c:44-58 | an uninterrupted call keeps the longest prefix that fits and flags an overflow if and only if that is not all |
| Memcpy.Thumb2Memcpy | Src/arch/memcpy.c:27-59 | for every length, and regions that do not overlap or a destination below its source: byte i of the source arrives at byte i of the destination, and no other byte changes |
| Memcpy.CopiedMore | Src/arch/memcpy.c:36-54 | copying piece after piece from memory the copy has already changed is copying at once |
| Memcpy.OverlapRepeats | Src/arch/memcpy.c:49-54 | with the destination inside the source region it is not |
| Frames.NetifOutput | Src/w5x00_lwip.c:110-140 | the frame is the first packet of the queue, whole and alone, filled with zeros to exactly 60 bytes if it is shorter, whatever is queued behind it and however it is cut into buffers |
| Frames.StopsAtEnd | Src/w5x00_lwip.c:123-126 | where the gathering loop stops, nothing of the packet is missing; where it goes on, the packet has more buffers |
| Frames.OnWireLayout | Src/w5x00_lwip.c:90-93 | the two bytes before a frame are its length and two, the most significant byte first |
| Frames.Chip.RecvLwip | Src/w5x00_lwip.c:78-108 | each call delivers one whole payload or, if it is longer than the limit, drops one whole frame, and leaves the chip at the start of the next, even when the limit exceeds the buffer |
| Frames.EthernetTasks | Src/remora.cpp:731-762 | one pass hands on the first waiting frame whole, whatever waits behind it |
| Frames.RunKeepsSim | Src/w5x00_lwip.c:78-108 | every arrival and call keeps the chip's stream equal to the frames not yet consumed, and consumed and waiting frames equal to those that arrived |
| Frames.LinkOverRuns | Src/w5x00_lwip.c:78-108 | over every run of arrivals and calls with any limits: the chip stands at a frame boundary, each frame is consumed once in order of arrival, and delivered are those not longer than the limit of their call |
| Frames.CallerLosesNothing | Src/remora.cpp:731-762 | over every run of the network task with frames arriving before, between and after its question and its call: no frame is dropped, the delivered and the waiting frames are the arrived ones in order, and the next call writes the first waiting frame, so it stays inside the buffer if and only if that has at most 1500 bytes |
| Frames.LongFrameDoesNotFit | Src/remora.cpp:737-745 | for every longer frame there is a run in which the call writes more than the buffer holds |

## Left out

- HAL drivers, clocks, pins, DMA, UART, SPI transfers and PHY polling: the flash HAL calls have contracts here, and never fail except when locked; the rest is register configuration.
- lwIP and WIZnet internals: packet delivery is an event, a chain of buffers is a sequence, the chip's receive memory is a sequence of bytes to which a frame is added whole, between calls. Allocation failures are not modelled.
- TFTP retransmission timing, several write requests at a time, packets other than data on the data port, and liveness after a lost last acknowledgement: outside what the receiver tries to guarantee.
- RemoraComms.cpp, step generation, PWM, pin and blink modules: a base tick reads the current RX buffer and may leave any report in the current TX buffer; `getStatus()` is an arbitrary input, and `dataReceived()` is not part of this model.
- Servo modules' report: it is stored in one step; base ticks between its single writes are not modelled.
- `netif_output` also computes a CRC of the frame and does not use it; the capping of the length to the chip's transmit memory in `send_lwip` is not part of this model.
- ArduinoJson parsing, `configThreads` and `loadModules`: library plumbing; the default configuration is a parameter.
- Programming faults of the flash other than the lock (alignment, voltage), and the register clobbering of `thumb2_memcpy`.
- A negative length of `thumb2_checksum`, and its stack handling.
- Ring sizes above 65536, where `next_head` would be truncated to 16 bits; the reader of the ring is the usual one, since the repository has none.
- `uf2conv.py`: `is_hex` and the choice between the formats, drive discovery, the family list, printing, arguments, the C array output; in numbers, spellings that Python's `int` accepts beyond two hexadecimal digits.
- `PruThread` calls modules by number: what a call does to a module is `ModuleBase.Module`, and thread and module objects are joined only in `ModuleBase.SlowUpdatesPerTick`.
- Flash cells and ping-pong buffers are fields of type `seq` that the methods reassign, not arrays; the operations on them are the same, one cell or byte at a time where the code does it so.
- Uploader.BuildImage: writes each metadata word's four bytes in one step.
- Exchange.PingPong.UdpDataCallback: copies the datagram and the reply in one step; the byte-by-byte copies under interrupts are in the state machine.
