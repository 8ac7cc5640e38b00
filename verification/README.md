# A verified model of the flash writer

The flash writer is C firmware for RZ/G2 boards. Over a serial line it receives an image, as raw bytes or as
Motorola S-records, and writes it into serial NOR flash or into an eMMC card. It also trains the DDR reference
voltage and tests RAM. This project models the parts whose correctness is not visible from one function body and
proves what they promise, for every input, every device answer and every run.

The code works by changing things step by step, so the model does too: loops are loops, the driver objects are
classes, work RAM and scratch buffers are arrays, and each method is proved against a function or predicate whose
own properties are proved as lemmas. Devices are small abstract models that appear only through their effects.

| module | what it models |
|---|---|
| `Words` | bytes, 32-bit words and the mask operators of C, defined bit by bit |
| `HexText` | number text: hexadecimal both ways, and decimal by repeated subtraction |
| `SRecord`, `SRecordLoader` | the S-record streams: their meaning, a printer, and the loaders that fill work RAM |
| `NorFlash` | the NOR device (erase, AND-only page program that wraps inside its page, busy and write-enable bits) and its erase and program routines |
| `FlashUpdate`, `FlashCommand` | the flash update command: what it does to the flash, and the code that does it |
| `PageStream` | what the low-memory S-record loader does to flash and page slots, as a function, and when its image lands |
| `StreamWrite` | the low-memory commands themselves, which stream pages through two slots while the device is still busy |
| `MmcCommand` | the eMMC command engine and its polled event routine, under arbitrary register values at every poll |
| `CardRegister` | the stored CSD and CID registers and the bit fields cut out of them |
| `MmcDriver`, `EmmcWrite` | mounting, the EXT_CSD copy, partition selection, chunked writes, and the eMMC write command |
| `VrefSweep` | the DDR reference-voltage sweeps and the choice of the midpoint |
| `RamCheck` | the RAM march test, on a memory with an arbitrary address decoder and arbitrary stuck bits |

Main results:

- A flash update leaves the image at its address, FF up to the end of its last page, and every other byte as it was,
  on the erase path and on the already-blank path. It does so for every image and flash content exactly when the
  save address is page aligned; the input check demands less (dgmodul4.c:389). Two counterexamples are given: a page
  of zeros saved off a page boundary on a blank device, and one byte FF on a device of zeros.
- The streaming loader, from a page boundary onto blank flash and with a device that is ready at the end, lands the
  image for all data, all other flash content and all first slot contents if and only if a condition on the
  addresses and lengths of the records holds (`PageStream.Clean`): a run of records that starts inside a page must
  be closed by an address jump before that page ends, or, if it is the last run, its slot must hold FF from an
  earlier jump. Both directions are carried to the code: `XLoadClean` runs any clean stream through it and ends with
  the image in the flash, and `LoadFailing` runs, for every other shape, a printed stream of that shape through it
  and ends with a wrong image. Jumps to page boundaries are clean. On a clean stream the loader agrees with the one
  that goes through RAM at every image address and reports the same end. The code is modelled for every stream,
  backward jumps with their 32-bit wrap included.
- Loading inverts printing for every list of ascending S-records, in any hex case, with headers, text between
  records and either line end. The two RAM loaders agree on every byte that a record supplies, and differ exactly in
  the gaps. A final record of any kind without data ends a load normally; the '.' command cancels it, and then the
  flash update command leaves the flash alone, the eMMC write command leaves every area alone, and the streaming
  loader has programmed only the pages completed before it.
- From an idle driver, every command ends idle whatever the registers say, no command of any sequence is rejected as
  blocked, and `EMMC_SUCCESS` means that the response and the release of DAT0 were really seen. For a DMA command it
  also means that the channel's end was seen. For a PIO command it means that either the FIFO event was seen and the
  data moved, or no FIFO event was seen and a DMA event ended the wait, and then nothing moved. The mask that lets
  such an event through stays open after a DMA write (emmc_cmd.c:656-665), and under it the command is shown to end
  in success without moving a word. With no DMA event, success means that the data moved. Every failure code, in
  turn, is justified by the registers of one poll. Success does not mean that access end was seen: without it the
  code goes through the error state and still returns success (emmc_cmd.c:367-376, 394-397), and the model keeps
  that.
- Over any sequence of the driver's calls a mounted card is initialized, powered and selected. It is also clocked,
  provided that no mount of an already mounted card fails and no change of the clock on a mounted card finds the
  controller busy.
- The eMMC driver's results follow from what the card answered. Mounting, switching EXT_CSD, selecting a partition
  and writing send their commands in a fixed order up to the first that fails. They succeed exactly if every answer
  is good and, for a mount, if no check finds the controller busy and the card is one that the driver accepts; a
  failure has the code of the answer or check that caused it. The write command is complete exactly if, besides, the
  image is not empty and its sector count is right. The initialization sets the clock divisor of the TRAN_SPEED in
  the card's stored CSD.
- The RAM march test passes if and only if the address decoder is injective on the covered range and no bit there is
  stuck.
- Each VREF sweep visits its clipped interval exactly once although the loop overwrites its own counter, from every
  middle code in the interval or just below it, or below it with a range of 0, and from no other. For every middle
  code up to the upper bound (126 and 73) the setting chosen lies inside the interval whenever a visited setting
  passed; what it is chosen from are the settings with the nearest window edges, all ties in visiting order or the
  first 30; only from a middle code of 0 can the first sweep choose 1, one below its interval. From a middle code
  above the upper bound a sweep visits that code itself, and the choice lies between the lower bound, or 127 if that
  is less, and the code.

Assumptions about the devices are part of the models above: a program or erase command that reaches a busy or
write-protected NOR device is ignored; a busy NOR device becomes ready after finitely many status reads; EXT_CSD
changes only through CMD6 and CMD0; the status that CMD13 returns reports a rejected switch; a card area has fewer
than 2^32 sectors; a card that fails a multi-block write has stored some first part of the blocks, and one for which
CMD25 ends in success has stored all of them; the NOR device ignores what is programmed beyond its end, although
parts of at most 16 MB are sent only 24 address bits (rpcqspidrv.c:356), so for those the streams that leave the
device are not covered; and, in the driver layer, no DMA event is raised during CMD8, so that its success means that
EXT_CSD arrived.

## Model

| member | source | states |
|---|---|---|
| HexText.ChgLtl2Lrg | common.c:196-206 | Upper-cases the letters a to z of the C string in the buffer, in place, and nothing after its NUL. |
| HexText.HexAscii2Data | common.c:207-246 | The string in the buffer is upper-cased and nothing else changed, and the code and number are those of its text: 3 for a leading '@', 1 for a bad character or too many digits, else 0 and the digits' value. |
| HexText.HexOfIs | common.c:207-246 | Every outcome of reading, on the characters themselves: code 3 and 0 for a leading '@', code 1 at the first other character that is no digit, with the digits before it, or at one digit too many, modulo the word, else code 0 and the value. |
| HexText.DigitTable | common.c:222-281 | The sixteen digits, in upper and lower case, denote 0 to 15 and are printed for them. |
| HexText.HexValueJoins | common.c:222-235 | The value of a text is that of its upper part shifted by four bits for each digit of the lower part, plus that of the lower part. |
| HexText.ConvertDigits | common.c:220-244 | The digit loop returns the value of the whole text if all of it is hex digits, and otherwise fails with what it had gathered. |
| HexText.ConvertNext | common.c:222-243 | One turn shifts a digit in, with the bits that leave the word lost. |
| HexText.HexRoundTrip | common.c:207-286 | Reading back the digits of any value that fits n digits, in any mixture of cases, gives the value. |
| HexText.HexValueOfDigits | common.c:248-286 | The digits printed for v denote v. |
| HexText.Data2HexAscii | common.c:248-286 | Writes exactly the 2, 4, 8 or 16 upper-case digits of the low part of the value, then a NUL, for 32- and 64-bit words. |
| HexText.PrintAndRead | common.c:636-721 | Printing a value and reading the buffer gives back the value, for every supported width, also of the 64-bit pair. |
| HexText.DecimalIsCanonical | common.c:126-173 | The decimal text has no leading zero and denotes its number. |
| HexText.CountDown | common.c:149-154 | Repeated subtraction yields quotient and remainder by the power of ten. |
| HexText.Hex2DecAscii | common.c:126-173 | Emits the canonical decimal of any unsigned 32-bit value, with its length. |
| HexText.DecimalIsPadded | common.c:140-162 | Of the ten positions, those from the first non-zero one on are the canonical decimal. |
| SRecord.ScanInvertsPrint | dgmodul4.c:875-994 | Scanning a printed stream gives back exactly its records, for every list, any hex case, header lines, text between records, CR or LF ends. The end is normal for a final record of any kind but 0 to 3 (S7, S8, S9, but also S5 or an unknown one), cancelled for '.' with any text up to its CR, and a wait when nothing more is sent. |
| SRecord.LoadInvertsPrint | dgmodul4.c:863-994 | Loading a printed stream of ascending records that end at 2^32 or below assembles each record's bytes at base + (address - top), the fill byte everywhere else, over exactly the records' extent; the load ends normally exactly after a final record, and is cancelled exactly by a '.' command. |
| SRecord.AssembledImage | dgmodul4.c:962-980 | The assembled bytes of ascending records are, at each address, the byte that a record assigns there or the fill. |
| SRecord.AssignedFrom | dgmodul4.c:962-980 | Ascending records assign no byte below their first address. |
| SRecord.GapIs | dgmodul4.c:962-967 | The gap before a record is the one 32-bit number that leads from the expected address to the record's; backwards it is nearly 2^32. |
| SRecord.DataCountIs | dgmodul4.c:968-979 | The data loop runs once for each byte that the count leaves after address and checksum, and, for a count below the address width, nearly 2^32 times. |
| SRecord.LoadersAgreeExactlyOnData | dg_emmc_access.c:604-620 | The images of the flash and the eMMC loader have the same length and agree at an address exactly when a record assigns it a byte. |
| SRecordLoader.Loader.SeekHead | dgmodul4.c:876-948 | The head-seeking loops find what the scan of the stream finds. |
| SRecordLoader.Loader.GetStrByteCount | dgmodul1.c:47-65 | n digit pairs are received into the scratch buffer, followed by a NUL. |
| SRecordLoader.Loader.ReadField | dgmodul4.c:952-955 | A received field is converted to the number the scan gives it, bad digits included. |
| SRecordLoader.Loader.LeaveGap | dgmodul4.c:962-967 | The pointer moves on by the 32-bit address difference, and the gap holds the fill byte. |
| SRecordLoader.Loader.ReadData | dgmodul4.c:969-979 | The data loop stores exactly the record's bytes, and nothing else. |
| SRecordLoader.Loader.LoadRecord | dgmodul4.c:949-993 | One record leaves its gap and bytes at the pointer and the expected next address. |
| SRecordLoader.Loader.Load | dgmodul4.c:851-995 | A normal end leaves exactly the assembled image at the base, everything after it untouched, with minimum and maximum its first and last byte; a cancelled load leaves the same RAM; the other ends are the stream's. |
| SRecordLoader.LoadPrinted | dgmodul4.c:851-995 | After a printed stream of ascending records that fit, RAM holds each data byte at its address minus the top address, the fill byte in the gaps, and past the last record what it held before. The load ends normally exactly after a final record, and is cancelled exactly by a '.' command. |
| NorFlash.SavedAt | spiflash1drv.c:310-340 | From a page boundary, saving n pages ANDs the source bytes into their places and changes nothing else. |
| NorFlash.SavedSameSource | spiflash1drv.c:333-339 | Only the programmed pages of the source matter. |
| NorFlash.SkipBlankPages | dgmodul4.c:1303-1310 | Pages of FF may as well not be programmed. |
| NorFlash.Driver.WaitReady | spiflash1drv.c:202-209 | The poll loop ends with the device ready. |
| NorFlash.Driver.EraseAndWait | spiflash1drv.c:72-104 | A ready device is erased over exactly the unit of the address, and is ready afterwards. |
| NorFlash.Driver.PageProgramNoWait | spiflash1drv.c:133-165 | A ready device accepts the page; it may be busy afterwards. |
| NorFlash.Driver.PageProgramAndWait | spiflash1drv.c:170-210 | A ready device is programmed and is ready afterwards. |
| NorFlash.Driver.SaveData | spiflash1drv.c:310-340 | ceil(size / 256) pages are programmed in order, each accepted, for ranges that end below 2^32. |
| NorFlash.Driver.EraseUnits | spiflash1drv.c:382-388 | The erase loop covers exactly the units from the first top to the last, unless the last is the last below 2^32. |
| NorFlash.Driver.SectorErase | spiflash1drv.c:345-388 | Exactly the sectors from that of the first to that of the last address are erased, none if the range is reversed; for ranges that end before the last sector below 2^32. |
| NorFlash.Driver.ParameterSectorErase | spiflash1drv.c:393-420 | The same for 4 KB sectors. |
| NorFlash.SectorTop | spiflash1drv.c:352-353 | Masking with the negated sector size rounds an address down to its sector. |
| NorFlash.SectorLast | dgmodul4.c:797-801 | Or-ing the inverted mask gives the last address of the sector. |
| NorFlash.PageFloor | dgmodul4.c:490 | The mask FFFFFF00 keeps whole pages. |
| NorFlash.ParameterTop | spiflash1drv.c:401-402 | The mask FFFFF000 rounds down to 4 KB. |
| FlashUpdate.WrittenBack | dgmodul4.c:534-543 | Writing whole pages back at both ends of an erased run leaves FF between them and the old bytes elsewhere. |
| FlashUpdate.RestoredAt | dgmodul4.c:489-543 | Erasing and restoring leaves FF over the image's pages and every other byte of the sectors as it was. |
| FlashUpdate.UpdatedAt | dgmodul4.c:783-813 | After the update a byte is the image's, FF padding, or the old one. |
| FlashUpdate.UpdateIsExact | dgmodul4.c:783-813 | The update from a page boundary is exact, on both paths. |
| FlashUpdate.CommandIsExact | dgmodul4.c:797-813 | The command's own sector arithmetic meets the conditions of the exact update. |
| FlashUpdate.ExactIffPageAligned | dgmodul4.c:783-813 | For every save address inside the device, the update is exact for every image and every flash content if and only if the address is a multiple of 256. |
| FlashUpdate.UnalignedMisses | dgmodul4.c:389-397 | On a blank device, a page of zeros saved off a page boundary does not reach the next page. |
| FlashUpdate.HeadRestoreSpoils | dgmodul4.c:534-543 | On a device of zeros, restoring the bytes before one byte FF saved off a page boundary programs a zero over that byte. |
| FlashUpdate.SectorBounds | dgmodul4.c:797-803 | The covering sectors are whole pages and lie inside the device. |
| FlashCommand.FillData32Bit | ramckmdl.c:13-41 | The word is stored over whole 64-byte runs, at least one, and nothing else changes. |
| FlashCommand.Updater.ReadFlash | spiflash1drv.c:63-66 | Reading back copies the flash bytes into RAM. |
| FlashCommand.Updater.CkSpiFlashAllF | dgmodul4.c:463-477 | Reports whether some byte of the range is not FF. |
| FlashCommand.Updater.ClearSectors | dgmodul4.c:482-546 | Blank sectors are left alone; otherwise the operator's no changes nothing, and a yes erases and restores. |
| FlashCommand.Updater.EraseAndRestore | dgmodul4.c:534-543 | The sectors are erased, and the head and the whole pages of the tail written back from RAM. |
| FlashCommand.Updater.CoveringSectors | dgmodul4.c:797-803 | The two mask operations give the first and last address of the run of sectors that covers the image. |
| FlashCommand.Updater.LoadImage | dgmodul4.c:751-782 | Work RAM ends up holding the image and FF after it, up to the end of its last page; the load is cancelled exactly by a '.' command after records that fit. |
| FlashCommand.Updater.ImageRange | dgmodul4.c:783-785 | The 32-bit arithmetic gives the start, the last address and the size of the image. |
| FlashCommand.Updater.ProgramImage | dgmodul4.c:783-813 | Too large an image or a refusal changes nothing; otherwise the flash is the updated one and the reported addresses are right. |
| FlashCommand.Updater.XLoadSpiflash | dgmodul4.c:689-824 | The whole command, from any stream: outcome, flash content and reported range; an address error or failed load leaves the flash as it was, and the outcome is a cancelled load exactly for a stream with a '.' command after records that fit. |
| FlashCommand.UpdatePrinted | dgmodul4.c:689-995 | The command on any printed stream: '.' with any text and CR ends it as a cancelled load and leaves the flash alone; after a final record the flash is as the update leaves it for the image that holds each printed byte at its place. |
| StreamWrite.Streamer.StoreByte | dgmodul4.c:1120-1148 | Each received byte goes into the current slot; a full slot is programmed at a ready device at the next address, which wraps at 2^32, and the slots change places. |
| StreamWrite.Streamer.CloseGap | dgmodul4.c:1293-1322 | A jump fills a started slot up with FF and programs it, and moves the flash address on by the 32-bit gap, for every gap. |
| StreamWrite.Streamer.WriteBinary | dgmodul4.c:1113-1162 | The covering 4 KB sectors are erased, then exactly ceil(size / 256) pages programmed, each accepted, holding the bytes in order, also for a size of 0; the last page ends in stale bytes. |
| StreamWrite.Streamer.StreamRecord | dgmodul4.c:1280-1369 | One record is its jump, if its address is not the expected one, and then its data bytes. |
| StreamWrite.Streamer.Flush | dgmodul4.c:1264-1279 | The unpolled final page is programmed if and only if the device was idle or finishes in time; the end address is that of the last byte. |
| StreamWrite.Streamer.LoadAndWrite | dgmodul4.c:1177-1371 | For every stream a normal end leaves the flash that the records make of the flash and slots it started with, the last page included on a prompt device, and reports the 32-bit end address; a cancelled load leaves what the records before the '.' make of them, with nothing flushed; the other ends are the stream's. |
| StreamWrite.Streamer.XLoadStream | dgmodul4.c:1040-1042 | The same, after erasing the 4 KB sectors of the given size. |
| StreamWrite.Streamer.XLoadClean | dgmodul4.c:1040-1371 | Every clean stream from a page boundary ends, on a prompt device, with the image at its address, its last address reported, and the flash beyond its last page as the erase left it. |
| StreamWrite.LoadPrinted | dgmodul4.c:1177-1371 | A printed stream through the loader, onto a blank and prompt device and with any first slots: the flash, last page included, is what its records make of it, and after a '.' command only the pages they completed are programmed. |
| StreamWrite.LoadFailing | dgmodul4.c:1177-1371 | For lines whose shape is not clean, a printed stream with the same addresses and lengths that the loader writes wrongly. |
| StreamWrite.BytesAreSaved | dgmodul4.c:1120-1148 | Received bytes fill and program whole pages in order, and the rest waits in the slot. |
| PageStream.LandsIffClean | dgmodul4.c:1177-1371 | The image lands for every data, flash and slot content if and only if the record addresses and lengths are clean. |
| PageStream.CleanLoadLands | dgmodul4.c:1177-1371 | A clean load leaves the image at its address, reports its last address, touches nothing beyond its last page, and without a ready device loses only the last page. |
| PageStream.FaultyLoad | dgmodul4.c:1293-1322 | For every shape that is not clean, data and first slot contents for which a byte of the image is wrong. |
| PageStream.FailingStream | dgmodul4.c:1177-1371 | The same with a printed stream: lines with the given addresses and lengths whose load goes wrong. |
| PageStream.PageGapsAreClean | dgmodul4.c:1293-1322 | Jumps that all land on page boundaries are clean. |
| PageStream.CleanWithoutPageGaps | dgmodul4.c:1293-1322 | Three one-byte records whose second starts inside a page that the third leaves are clean too. |
| StreamWrite.DownloadLands | dgmodul4.c:1113-1162 | From a page boundary: the image at its address, FF in the rest of the erased sectors except the stale end of the last page, every other byte untouched. |
| StreamWrite.StreamMatchesUpdate | dgmodul4.c:1177-1371 | On a clean stream the streaming load and the load through RAM leave the same byte at every image address and report the same end. |
| CardRegister.ResponseBytes | emmc_cmd.c:510-517 | They are the 128-bit register that the four response registers show, with its CRC byte zero. |
| CardRegister.GatheredValue | emmc_utility.c:280-295 | Up to four bytes are put together as one big-endian number. |
| CardRegister.FieldIsBits | emmc_utility.c:273-300 | A field that spans at most four bytes is read as bits top..bottom of the register. |
| CardRegister.FieldExactIffFourBytes | emmc_utility.c:273-300 | For fields under 32 bits wide that holds for every register if and only if the span is at most four bytes. |
| CardRegister.FifthByteIsLost | emmc_utility.c:292-295 | A register for which a field over five bytes is read wrong. |
| CardRegister.ResponseField | emmc_utility.c:273-300 | Reading an R2 response and cutting out a field above the CRC byte gives the register's bits. |
| MmcCommand.CommandWord | include/emmc_hal.h:106-126 | For every command word: it is a data command if and only if bits 14..12 are at least 3, and its response type is bits 11..8. |
| MmcCommand.DataWords | include/emmc_hal.h:170-198 | The words of CMD8 and CMD25 are data commands with an R1 response. |
| MmcCommand.DecodeIs | emmc_interrupt.c:53-218 | Which branch the event routine takes, by the bit numbers of the masked registers: errors (0 to 6 and 15), FIFO (8 and 9), DMA channels (16, 17), response end (0), access end (2). |
| MmcCommand.CheckedIs | emmc_cmd.c:541-601 | A response is rejected, by bits: an R1 or R1b status that shares a bit with the error mask, or an R4 status with bit 15 set. |
| MmcCommand.Engine.TransSector | emmc_interrupt.c:232-294 | The whole remaining size moves once between buffer and FIFO, or, in a wrong state or without a buffer, nothing does. |
| MmcCommand.Engine.FifoEvent | emmc_interrupt.c:85-139 | The FIFO branch moves the data once and unblocks, or masks everything and forces termination; the size shrinks by 512 and the pointer moves on by 512 32-bit words in any case. |
| MmcCommand.Engine.ChannelEvent | emmc_interrupt.c:141-189 | A DMA channel that ended clears the transfer flags, one that failed raises the error flag; both unblock. |
| MmcCommand.Engine.ErrorsAfter | emmc_interrupt.c:53-71 | Under a mask that covers the error bits no error goes unseen; a FIFO event needs its mask and its register bit, and every event that unblocks a driver shows in the register of the poll. |
| MmcCommand.Engine.Interrupt | emmc_interrupt.c:45-218 | The effect of one poll on flags, masks and data, by the first branch that its masked registers select. |
| MmcCommand.Engine.Poll | emmc_cmd.c:107-118 | A poll keeps the loop invariant while blocked, and when it unblocks leaves the waiting state what its event means. |
| MmcCommand.Engine.IssueCommand | emmc_cmd.c:122-167 | A busy card ends the call idle; otherwise the response events are unmasked and the driver waits. |
| MmcCommand.Engine.FinishWithoutResponse | emmc_cmd.c:169-195 | A command without response ends on its response-end event, or in an error state. |
| MmcCommand.Engine.ReadResponse | emmc_cmd.c:493-528 | A long response is stored as the 16 bytes of the register that the four response words show, any other as its 32-bit word. |
| MmcCommand.Engine.CheckResponse | emmc_cmd.c:541-601 | An R1 or R1b status fails exactly if it shares a bit with the error mask, an R4 status exactly if its bit 15 is set, and no other does; the card state becomes bits 12..9 of an R1 status. |
| MmcCommand.Engine.Receive | emmc_cmd.c:197-246 | The error code and next state of the response checks; success only after a response end without error bits. |
| MmcCommand.Engine.ReceiveResponse | emmc_cmd.c:197-246 | Those checks keep the invariant, with the pass recorded as evidence. |
| MmcCommand.Engine.WaitReleased | emmc_cmd.c:248-265 | An R1b command goes on only when DAT0 was seen released without an error bit. |
| MmcCommand.Engine.AfterCheck | emmc_cmd.c:267-277 | Only data commands enter the data states. |
| MmcCommand.Engine.StartData | emmc_cmd.c:279-303 | The invariant of a running transfer is set up, with the FIFO events of one direction or one DMA channel unmasked; a PIO transfer leaves the DMA masks as they are. |
| MmcCommand.Engine.TransferDma | emmc_cmd.c:639-677 | The DMA flags are set and only the channel of this direction can raise an event. |
| MmcCommand.Engine.FinishData | emmc_cmd.c:305-345 | The data states end with the code that the poll deserves; the branch for an unfinished DMA cannot be reached. |
| MmcCommand.Engine.FinishAccess | emmc_cmd.c:347-377 | Access end leads to the end, its absence to the error state, in both cases with the code unchanged. |
| MmcCommand.Engine.Abort | emmc_cmd.c:379-397 | The error states leave the driver idle. |
| MmcCommand.Engine.SoftReset | emmc_cmd.c:437-481 | Idle afterwards, after at most 10,010,001 register reads, and exactly so many if the last still showed busy. |
| MmcCommand.Engine.WaitCommandSequence | emmc_cmd.c:449-469 | The refilled countdown ends, by a lexicographic measure, within 10,010,000 polls. |
| MmcCommand.Engine.Advance | emmc_cmd.c:120-377 | Every unblocked pass leaves the code and moves to the state that the switch prescribes, keeps the invariant, and strictly advances the state order, except one that finds DAT0 busy. |
| MmcCommand.Engine.Switch | emmc_cmd.c:120-397 | The whole switch: the error states end the command idle with the code they were entered with, a busy controller at the first pass ends it with ErrCardBusy, and every other pass goes on with the invariant kept, a new error code being justified by the registers of that very poll. |
| MmcCommand.Engine.Pass | emmc_cmd.c:107-397 | One pass of the loop, poll and switch: as for the switch, with the invariant kept and the state order never going back; termination is forced only by a FIFO event of a PIO data command. |
| MmcCommand.Engine.Run | emmc_cmd.c:107-424 | The loop ends idle after at most eight advancing passes, having moved the data at most once, and its code is justified by one poll: busy bit 14 of the first, an error bit of the last but one, a missing response end, a rejected status, a failed DMA channel, or a FIFO event that forced termination. |
| MmcCommand.Engine.ExecCmd | emmc_cmd.c:68-425 | Exactly when each entry error is returned; a command entered idle ends idle; every failure code is justified by the registers of one poll; success names by bit numbers the polls that showed the response, the release and the data, where a PIO command has moved its data if its FIFO event was seen and nothing otherwise; the words of CMD8 and CMD25 succeed only after the end of their data; without a DMA event a PIO command has moved its data; at most one PIO transfer; over registers that show such an event it succeeds without one; at most eight steps. |
| MmcCommand.Engine.EvidentSeen | emmc_cmd.c:197-377 | The evidence of success by bit numbers: response end without an error bit and an accepted status, DAT0 released for an R1b command, and for a data command, after the response, the event of its direction or channel. |
| MmcCommand.Engine.PioMoves | emmc_interrupt.c:85-189 | A PIO command in success has moved its data if and only if the FIFO event of its direction was seen; if not, it has moved nothing and an unmasked DMA event ended the wait. |
| MmcCommand.Engine.DmaWriteLeavesMask | emmc_cmd.c:656-665 | A DMA write in success leaves the event of its channel unmasked. |
| MmcCommand.Engine.DmaEventEndsPio | emmc_cmd.c:68-425 | Under such a mask, emmc_exec_cmd over registers that show a DMA event while a PIO command waits for its data ends in success without moving a word. |
| MmcCommand.Engine.MakeNontransCmd | emmc_utility.c:109-170 | A command without data clears the transfer fields; only an R2 response is long. |
| MmcCommand.Engine.Prepare | emmc_utility.c:109-207 | Whatever command was made before, an idle driver can execute the one made now: it stays idle, its buffer fits, only an R2 response is long, and no data has moved. |
| MmcCommand.Engine.Session | emmc_cmd.c:96-103 | In any sequence of commands from an idle driver with its clock on, none is rejected as blocked, unclocked or malformed, and the last leaves the driver idle. |
| MmcDriver.Driver.Answer | emmc_cmd.c:89-94 | Without a clock a command is a state error, with one never. |
| MmcDriver.Driver.Init | emmc_init.c:58-76 | Initialization leaves the driver initialized, unmounted, unselected and without power and clock, with frequencies, modes and register copies zero. |
| MmcDriver.Driver.MemcardPower | emmc_init.c:298-318 | Switching the power keeps a mounted card powered, selected and clocked: powering off unmounts it. |
| MmcDriver.Driver.Terminate | emmc_init.c:89-104 | From any state the driver ends unmounted, unpowered and zeroed. |
| MmcDriver.Driver.ClockCtrl | emmc_mount.c:719-748 | A busy controller keeps its clock state, otherwise it changes as asked. |
| MmcDriver.Driver.SetRequestClock | emmc_mount.c:623-658 | The code is exact: a state error without initialization or power, which changes nothing, the busy code if the controller was found busy, which leaves the clock as it was or stopped, and else success, with the clock running at the requested divisor. |
| MmcDriver.Driver.SendIdle | emmc_utility.c:221-259 | CMD0 and then the 400 kHz clock: the card is no longer mounted or selected whatever the result, and the result is that of the first step that failed. |
| MmcDriver.Driver.WaitPowerUp | emmc_mount.c:165-188 | 1 to 3000 polls, all of them CMD1: the code of a failed poll, success exactly if all succeeded and the last showed the power-up bit, or, only after 3000 polls without it, a timeout. |
| MmcDriver.Driver.CardInit | emmc_mount.c:124-295 | The commands sent are CMD0, 1 to 3000 times CMD1, CMD2, 3, 9, 7, 16 and 8, in that order up to the first that fails. A failed command ends the call with its code. If none failed, the call succeeds exactly if driver and controller allow it and the card is in sector mode, powered up, of version 4 or later and with a TRAN_SPEED that is not reserved, and every other code has its cause stated: an illegal card comes only from the version or the TRAN_SPEED. Success leaves the card selected and clocked, with a fresh EXT_CSD copy and both frequencies the divisor of the stored CSD; a failure that leaves the mount flag set happened before CMD0 and left the copy alone. |
| MmcDriver.Driver.ResetCard | emmc_mount.c:150-295 | The same from CMD0 on. |
| MmcDriver.Driver.Identify | emmc_mount.c:165-245 | CMD1 to CMD7: the card is selected only after CMD7 succeeded, and every code is that of the failed command or of the failed check. |
| MmcDriver.Driver.SelectCard | emmc_mount.c:207-245 | CMD2, 3 and 9, then CMD7 for a card of version 4 or later; exactly an earlier one is illegal. |
| MmcDriver.Driver.SetUpTransfer | emmc_mount.c:247-292 | The clock of the stored CSD, CMD16 and CMD8; exactly a reserved TRAN_SPEED makes the card illegal. |
| MmcDriver.TranSpeedIs | emmc_mount.c:760-798 | A TRAN_SPEED byte is valid exactly if bits 2..0 are at most 3 and bits 6..3 are not 0; the divisor is 4 from 52 MHz on, 8 from 20 MHz on and 512 below: 8 for 32 and 2A, 4 for 5A. |
| MmcDriver.OcrBits | emmc_mount.c:177-195 | The power-up bit is bit 31 of the OCR, and sector mode the value 2 of bits 30..29. |
| MmcDriver.Driver.HighSpeed | emmc_mount.c:311-378 | CMD6 and CMD13, in that order: HS_TIMING is switched on the card, and the clock runs at the divisor of its card type; a failure is that of a command, of the selection or of a busy controller. |
| MmcDriver.Driver.BusWidth | emmc_mount.c:398-495 | CMD6, 13 and 8, in that order: success exactly if all succeed, and then the card's bus width is switched and the copy refreshed; other widths are a parameter error. |
| MmcDriver.Driver.Mount | emmc_mount.c:57-111 | The commands of the initialization, of high speed and of the bus width, in that order up to the first that fails. If none fails and no check finds the controller busy, the mount succeeds for every card that the initialization accepts; otherwise the code is that of the failed command or names the check. A mounted card is initialized, powered, selected, clocked, in high-speed timing and 8-bit width, and the copy agrees with it. |
| MmcDriver.Driver.Prepare | emmc_mount.c:71-104 | The same for the three steps without the clock that a failed one switches off. |
| MmcDriver.Driver.SetExtCsd | emmc_mount.c:571-602 | CMD6, 13 and 8, in that order, and the code is that of the last one sent: success exactly if all three succeed. Then the switch took effect and the copy agrees; otherwise the card's register is the old or the switched one. |
| MmcDriver.Driver.SelectPartition | emmc_mount.c:513-558 | A missing mount and an id above 7 are errors; nothing is sent if the copy names the area already, which is a success; otherwise the switch is sent, success is that of its commands, PARTITION_ACCESS becomes id and bits 7..3 stay. On success the card is at id if and only if a command was sent or it was there before. |
| MmcDriver.PartitionArgument | emmc_mount.c:545-546 | The CMD6 argument rewrites exactly PARTITION_CONFIG. |
| MmcDriver.WithAccess | emmc_mount.c:545 | The new byte has id in bits 2..0 and the old bits 7..3. |
| MmcDriver.BlockCountArgument | emmc_write.c:161 | The CMD23 argument announces count blocks, with the reliable-write bit. |
| MmcDriver.Driver.MultipleBlockWrite | emmc_write.c:122-212 | A count of 0 or above 65535 is a parameter error. Otherwise CMD16, 23, 25 and 13 are sent, in that order up to the first answer that is not fine, and the result is what that answer deserves: success exactly if all succeed and the last status is ready and in the transfer state. On success exactly the blocks are written; otherwise at most a first part of them changed. |
| MmcDriver.Driver.CheckStored | emmc_write.c:189-212 | CMD13 fails with its own code, without status bit 8 as a busy card, and with bits 12..9 other than 4 as a state error. |
| MmcDriver.Driver.WriteSector | emmc_write.c:53-105 | For every count above 0 and a mounted card the commands of its chunks are sent, in order up to the first answer that is not fine, and the result is what the last answer deserves: success if all answers are fine. On success the sectors hold the buffer and no others changed; a failure changes at most a first part of the range. |
| MmcDriver.ChunksPartition | emmc_write.c:89-104 | The chunks partition the request in order: 1 to 65535 sectors each, all but the last of them 65535, end to end, each from its part of the buffer. |
| MmcDriver.PartAfter | emmc_write.c:89-104 | A partly written chunk after whole ones leaves the request partly written. |
| MmcDriver.Driver.Run | emmc_mount.c:57-111 | Over any sequence of initialize, terminate, power, mount, idle, clock, partition, EXT_CSD and write calls and any answers, mounted implies initialized, powered and selected; also clocked, if on a mounted card no mount call fails and no clock call ends in the busy code; and if all calls succeed the EXT_CSD copy agrees. Which calls mount and unmount is stated too. |
| MmcDriver.Driver.Perform | dg_emmc_access.c:131-164 | What each single call keeps of that. |
| MmcDriver.NoRemountUndisturbed | emmc_mount.c:57-111 | The clock condition holds if no mount follows another without an unmounting call between and no clock call on a mounted card finds the controller busy. |
| EmmcWrite.SectorCountIff | dg_emmc_access.c:321-326 | The 32-bit sector arithmetic gives ceil(size / 512) if and only if the byte range does not cross a multiple of 4 GB, or, for an empty image, does not start at one. |
| EmmcWrite.SectorCountIs | dg_emmc_access.c:321-326 | The value it gives in every case. |
| EmmcWrite.WrongCountIsTooBig | dg_emmc_access.c:321-360 | A wrong sector count reaches beyond the work RAM. |
| EmmcWrite.Tool.CheckInit | dg_emmc_access.c:105-122 | The card is brought up if it is not yet, and initialized exactly if that succeeded; after the first success it is not touched again, and stays mounted and clocked. |
| EmmcWrite.Tool.Bring | dg_emmc_access.c:131-164 | Initialize, power and mount: success exactly if every command of the mount succeeded, the controller was never found busy and the card is acceptable; then the card is usable. No area changed. |
| EmmcWrite.Tool.LoadImage | dg_emmc_access.c:269-318 | Work RAM holds the image and zeros after it; the load is cancelled exactly by a '.' command after records that fit. |
| EmmcWrite.Tool.SaveImage | dg_emmc_access.c:320-369 | The result follows from the answers: complete exactly if the commands of the selection succeeded, the sector count is right, the image is not empty and all answers to the write are fine; otherwise it names the first of these that failed. Complete means that the image, zero-padded to its last sector, is in the selected area, which is the wanted one if the copy agreed; the other areas are as before. |
| EmmcWrite.Tool.WriteImage | dg_emmc_access.c:321-369 | The same for the part after the selection. |
| EmmcWrite.Tool.WriteCommand | dg_emmc_access.c:173-369 | The whole command, from any stream and any card, with the commands it sends: an initialization error exactly if the card could not be brought up, a failed load exactly if there is no image, cancelled exactly by a '.' command, and otherwise the result that the answers deserve. |
| EmmcWrite.WritePrinted | dg_emmc_access.c:173-641 | The command on any printed stream: '.' with any text and CR leaves every area alone; after a final record a complete write has stored each printed byte at its place, zeros in the gaps and up to the last sector. |
| VrefSweep.CoverageExact | ddr/common/ddr.c:581-598 | A sweep visits each value of the clipped interval exactly once, although the loop overwrites its own counter; for both sweeps (also ddr/common/ddr.c:690-708). |
| VrefSweep.VisitsAre | ddr/common/ddr.c:581-598 | For every middle code, the settings visited: those from max(low, mid - range) to the middle code, downwards, and then those above it to min(high, mid + range), upwards. |
| VrefSweep.WindowDiffIs | ddr/common/ddr.c:616-617 | The window difference d, on the low six bits of the edges: one edge is the other plus d. |
| VrefSweep.NarrowestIsBest | ddr/common/ddr.c:619-628 | The settings that attain the recorded difference are exactly those that passed with edges no further apart than at any other visited setting that passed. |
| VrefSweep.Training.Clear | ddr/common/ddr.c:575-578 | No setting is recorded for any lane. |
| VrefSweep.Training.RecordLane | ddr/common/ddr.c:611-632 | One more setting: the record stays the minimum so far with the first 30 settings that attain it, and other lanes are untouched. |
| VrefSweep.Training.RecordSetting | ddr/common/ddr.c:609-633 | The same for all lanes. |
| VrefSweep.Training.Sweep | ddr/common/ddr.c:581-635 | The sweep ends, visits what its interval says, and leaves each lane's record right for it. |
| VrefSweep.Training.RecordsNarrowest | ddr/common/ddr.c:611-632 | A right record holds, on the window edges themselves, the nearest pairs: all of them in visiting order, or the first 30. |
| VrefSweep.NothingBelowBest | ddr/common/ddr.c:619-628 | No visited setting attains less than the recorded difference. |
| VrefSweep.PassedIsSaved | ddr/common/ddr.c:611-632 | If some visited setting passed on a lane, one is saved for it. |
| VrefSweep.Training.FoldLane | ddr/common/ddr.c:641-646 | The fold yields the extremes of the saved list. |
| VrefSweep.Training.LaneMidpoints | ddr/common/ddr.c:638-650 | Each lane's choice is the midpoint of the extremes of its own list. |
| VrefSweep.Training.CommonMidpoint | ddr/common/ddr.c:745-755 | The second choice is the midpoint over all lanes' lists. |
| VrefSweep.Training.PhySide | ddr/common/ddr.c:575-650 | The first sweep and choice together, for every middle code. Saved for each lane are settings whose window edges, 6 bits wide, are nearest to each other among the visited settings that passed: all ties in the order visited, or the first 30. On each lane where a visited setting passed, the choice lies in max(2, mid - range) to min(126, mid + range), with 1 for 2 when mid is 0; above 126 it lies between that lower bound, at most 127, and mid. |
| VrefSweep.Training.DramSide | ddr/common/ddr.c:684-755 | The second sweep and choice together, for every middle code: the same is saved, on the edges of ddr/common/ddr.c:724-725, and if a visited setting passed on any lane, the choice lies in max(0, mid - range) to min(73, mid + range); above 73, between mid - range, at most 127, and mid. |
| VrefSweep.Training.SavedWereVisited | ddr/common/ddr.c:619-628 | Every saved setting was visited. |
| VrefSweep.FoldGivesMidpoint | ddr/common/ddr.c:647 | Half the sum of the folded extremes is the midpoint of the list, its least element taken as at most 127. |
| VrefSweep.MidpointInside | ddr/common/ddr.c:638-650 | A midpoint of saved settings lies between any bounds of them, the lower taken as at most 127. |
| VrefSweep.VisitsInside | ddr/common/ddr.c:585-598 | Every visited setting lies in the clipped interval, or, from a middle code below it, above that code, or, from one above it, at most at that code. |
| RamCheck.Checker.FillData8Bit | ddrcheck.c:139-163 | Every covered address selects a cell with the value; no other cell changes. |
| RamCheck.Checker.CheckAndFillData8Bit | ddrcheck.c:109-137 | On any memory it passes exactly when every address reads the checked value at its turn, a cell already reached through another address holding the written value; a failure reports a genuine mismatch. |
| RamCheck.Checker.CheckData8Bit | ddrcheck.c:165-194 | Passes exactly when every covered address reads the value; a failure reports a genuine mismatch. |
| RamCheck.Checker.WriteIncData8Bit | ddrcheck.c:196-221 | Each cell holds the value of the wrapping counter at the last address that selects it. |
| RamCheck.Checker.CheckIncData8Bit | ddrcheck.c:223-253 | Passes exactly when every address reads the counter. |
| RamCheck.Checker.TPRAMCK | ddrcheck.c:334-359 | The test passes if and only if the decoder is injective on the range, rounded up to 16 bytes, and no bit there is stuck; then each address reads its offset modulo 256 afterwards; cells outside stay as they were. |
| RamCheck.CounterIs | ddrcheck.c:196-221 | The k-th value of the byte counter is its first value plus k, modulo 256. |
| RamCheck.FaultFound | ddrcheck.c:337-348 | A pass that fails proves a fault. |
| RamCheck.NoSharing | ddrcheck.c:337-344 | Two check-and-fill passes rule out shared cells. |
| RamCheck.NothingStuck | ddrcheck.c:337-352 | Reading 00 and FF back rules out stuck bits. |

## Left out

- StreamWrite.Streamer.WriteBinary: the address-range check before the erase is not modelled, and neither are downloads that run past the end of the device or a size of 0 at address 0, because the source computes no defined result for them.
- NorFlash.Driver.EraseUnits: not for a last unit that ends at 2^32, as for SectorErase.
- NorFlash.Driver.SectorErase: not for ranges that end in the last sector below 2^32, where the 32-bit loop variable of the source wraps and the loop never ends.
- NorFlash.Driver.ParameterSectorErase: the same, for the last 4 KB below 2^32.
- NorFlash.Driver.SaveData: not for ranges whose last page ends at 2^32 or beyond, where the loop bound of the source wraps.
- SRecordLoader.Loader.Load: stops with an outcome of its own where the source would write past the work area, because it has no bound there.
- EmmcWrite.Tool.WriteCommand: stops with an outcome of its own where the source would write from beyond the work RAM, because of a wrong sector count.
- MmcCommand.Engine.ExecCmd: a run whose register snapshots are used up is still waiting; that waits end is a matter of the hardware.
- MmcCommand.Engine.TransSector: moving the pointer of a missing buffer is not modelled, because the call then ends at once.
- MmcCommand.Engine.MakeNontransCmd: where the response is stored and the hardware command word are not modelled, because nothing else depends on them.
- MmcDriver.Driver.SendIdle: the reset of the transfer flags belongs to the command engine, which is a separate layer here.
- MmcDriver.Driver.SetRequestClock: a missing frequency pointer, which is a parameter error.
- MmcDriver.Driver.Answer: the driver layer lets every started command end with any code, instead of running the command engine underneath.
- S-record checksums: they are read and not compared, so nothing is promised about them (dgmodul4.c:981-985).
- The copy that DMA makes between card and memory: only its completion and error events are modelled.
- Writes that clear raised events in the status registers: the register values at each poll are arbitrary anyway.
- The command argument and the hardware command word, which are copied into registers unchanged.
- Erasing eMMC sectors and the erase, dump and configuration commands: straight command sequences.
- The flash ID table: sector size (a power of two that divides the capacity) and end address are parameters, for parts of at most 256 MB.
- The RPC and QSPI controller sequences, clock, pin, reset, timer and serial set-up: fixed register writes.
- DDR parameter tables, swizzle tables and the training steps around the two sweeps.
- Console prompts, line editing, memory commands and the printing of CID, CSD and EXT_CSD fields.
- Widths other than 1, 2, 4 and 8 bytes in the hexadecimal printer: the source then loops an undefined number of times.
