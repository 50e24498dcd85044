# Verification of the fastboot commands

A Dafny 4.11 model of the parts of the fastboot (U-Boot) sources under `fastboot_hi3716mv310/common` that
hold their state in byte blocks, lists, rings and device memory, with proofs of what they keep. Run
`dafny verify dfyconfig.toml` in this directory to check everything.

| files | models |
|---|---|
| `Environment.dfy` | the environment block of `cmd_nvedit.c`, edited in place, refining an ordered map |
| `CrcWords.dfy`, `Crc16.dfy`, `Crc16Errors.dfy`, `Bootstrap.dfy` | the CRC-16 of `bootstrap.c` (ITU-T V.41, section 2), what it detects, and the download loop it guards |
| `Kermit.dfy`, `KermitReceiver.dfy`, `KermitTransfer.dfy`, `KermitMemory.dfy` | the Kermit receiver of `cmd_load.c` (section 6 of the Kermit Protocol Manual): unquoting, packets, retries, and the loop that writes to memory before a packet is checked |
| `MtdValidate.dfy`, `MtdNumbers.dfy`, `MtdText.dfy`, `MtdParse.dfy`, `MtdRoundTrip.dfy`, `MtdGrammar.dfy`, `MtdRefused.dfy` | partition validation, the mtdparts grammar, its printer and parser, their round trip, and the parser on every text of the grammar (`cmd_mtdparts.c`) |
| `MtdTable.dfy`, `MtdLaws.dfy`, `MtdCurrent.dfy` | the device list with its current partition over runs of add, delete and chpart |
| `OneNand.dfy` | bad-block-skipping writes and reads of `cmd_onenand.c` |
| `Flash.dfy`, `FlashRanges.dfy`, `FlashCover.dfy`, `FlashComplete.dfy`, `FlashErase.dfy` | sector range planning and erasing of `cmd_flash.c` |
| `LogBuffer.dfy` | the log ring of `cmd_log.c` under both cursor layouts |
| `BitMath.dfy`, `MemFaults.dfy`, `MemTest.dfy`, `MemLaws.dfy`, `Bedbug.dfy`, `BedbugLaws.dfy` | bits of numbers; faulty memories and the alternate memory test of `cmd_mem.c`; operand encoding of `bedbug.c` |
| `Eeprom.dfy`, `SRecord.dfy`, `BurnIn.dfy` | EEPROM transfers, S-record upload, the NAND burn-in loop |
| `CTypes.dfy`, `ByteSums.dfy` | the C integer types, sums of bytes |

Each component has a specification on values (what the bytes mean, what one step does), methods that follow
the source and are proved against it, and lemmas about the specification for all
inputs and all runs. Integer widths follow the 32-bit ARM target: `unsigned long` has 32 bits and plain
`char` is unsigned. Wrap-around is written out (`Wrap32`, `% 0x100`, 16-bit counters) wherever the source
can reach it.

## What the proofs found

The code is modelled as it is. Where it does not keep a promise for all inputs, a lemma says exactly when it
does:

- A partition of 0xFFFFFFFF bytes that is not the last of its device is printed like any other size but read
  back as "remaining", so the generated text is refused (`TableRoundTrip`, `FullPartRefused`).
- part_del compares offsets to decide whether the current number moves down; with equal offsets it does so
  for a partition behind the current one (`DeleteFollowsIff`). part_sort_add is right in that case too
  (`InsertFollows`).
- The source comment in k_recv assumes that sequence numbers arrive correctly. If the first attempt at a packet
  arrives with a damaged length or sequence character, or fails under the number of the packet before, the data
  acknowledged last is lost; if a received data packet is sent again and an attempt at it fails under another
  number, its data is stored twice; elsewhere a wrong number does no harm (`ReceivedOnceIff` for every case,
  `DamagedHeaderLosesData`, `OldNumberLosesData`, `OtherNumberDoublesData`, `OtherNumberIsHarmless`).
- flash_fill_sect_ranges continues at address 0 behind a bank that ends at 0xFFFFFFFF (`SoundIff`).
- A range over a gap or over banks in reverse order whose last address ends no sector can be planned, and
  erased, in part without an error; if its last address ends a sector it is refused (`CompleteIff`, `GapRefused`,
  `ReversedRefused`, `GapErasedInPart`).
- The header comment above addr_spec describes ranges without their end address; the code takes the end as
  the last address of the range, and so does the model.
- onenand_block_write takes a write to the address where the last one stopped for its continuation, also in a
  new session (`WriteThenRead`, `ContinuedSession`).
- eeprom_write takes the page offset from the low eight bits, which is right for pages of at most 256 bytes; on
  larger pages a transfer of several bytes can run into the page end and wrap (`FlatIff`, `PageOf512`).
- The memory test reports errors on sound memory when the parking address is the first tested word. From an
  unaligned address it can miss an address line stuck below its length, exactly where no two words of the region
  differ in that line alone (`Iteration`, `UnnoticedLine`).
- A quote whose low seven bits are 63 to 95 is accepted from the sender, but ktrans changes the quoted quote
  (`RoundTripIff`).
- spr_value answers 0 for an unknown name and for register 0 alike (`RefusedRegisters`).
- printenv of an undefined name succeeds in an empty environment (`PrintOne`).
- The percentage shown last is kept from one burn-in pass to the next, so every pass after the first starts from
  100, and prints nothing exactly when the area is a single block (`LaterPassSilentIff`).

## Model

| member | source | states |
|---|---|---|
| Environment.RepresentsUnique | fastboot_hi3716mv310/common/cmd_nvedit.c:553-573 | a byte block stands for at most one list of variables: the layout `name=value` NUL ... NUL can be read in one way only |
| Environment.EnvBlock.EnvMatch | fastboot_hi3716mv310/common/cmd_nvedit.c:641-650 | envmatch finds a stored name equal to the part of the argument before its first `=`, and answers with the index of the value; -1 otherwise |
| Environment.EnvBlock.GetEnv | fastboot_hi3716mv310/common/cmd_nvedit.c:553-573 | getenv answers with the index at which exactly the value of the variable stands, and fails exactly when the list has no such name; the size check inside the scan never fires |
| Environment.EnvBlock.FindEntry | fastboot_hi3716mv310/common/cmd_nvedit.c:201-207 | the search loop stops at the first string with that name, or at the closing NUL |
| Environment.EnvBlock.DeleteEntry | fastboot_hi3716mv310/common/cmd_nvedit.c:298-312 | deleting in place removes that variable from the list and keeps all others in order; a block left empty is two NULs |
| Environment.EnvBlock.ShiftDown | fastboot_hi3716mv310/common/cmd_nvedit.c:304-312 | the shift copies everything behind the deleted string, up to and including the closing NUL, and nothing before it changes |
| Environment.EnvBlock.Append | fastboot_hi3716mv310/common/cmd_nvedit.c:326-357 | a new definition goes to the end of the list exactly when the length check passes; otherwise the block is unchanged |
| Environment.EnvBlock.SetEnv | fastboot_hi3716mv310/common/cmd_nvedit.c:177-412 | a name with `=` is refused, stdin, stdout and stderr exactly without words or when the console does not accept, baudrate exactly if it is defined and the rate is not accepted; every other command returns 0 and deletes the variable if there are no words, and stores the words joined by spaces if they fit, else returns 1 with the variable deleted; no other variable changes |
| Environment.EnvBlock.DoSetEnv | fastboot_hi3716mv310/common/cmd_nvedit.c:177-412 | the code of one setenv takes the block from one list of variables to the specified next one, and returns 0 exactly in the specified cases (refusals, overflow) |
| Environment.BytesOfBlock | fastboot_hi3716mv310/common/cmd_nvedit.c:345-357 | the bytes of a block: each variable stands as name, `=`, value and NUL behind the one before, a NUL ends the list, and an empty list is two NULs |
| Environment.JoinIs | fastboot_hi3716mv310/common/cmd_nvedit.c:347-355 | the words of a value stand with one space between them |
| Environment.EnvBlock.RunCommands | fastboot_hi3716mv310/common/cmd_nvedit.c:177-429 | any run of setenv commands keeps the block well formed and refines the run on lists |
| Environment.EnvBlock.SetThenGet | fastboot_hi3716mv310/common/cmd_nvedit.c:177-573 | the code end to end: set a variable, run any commands on other names, and getenv points at exactly the words joined by single spaces |
| Environment.RunRepresents | fastboot_hi3716mv310/common/cmd_nvedit.c:329-357 | over every run names stay unique, strings stay free of NUL and `=` in names, and the image never outgrows the block |
| Environment.RunRefinesMap | fastboot_hi3716mv310/common/cmd_nvedit.c:177-412 | over every run, looking up any name equals looking it up in a plain map that is stored to, deleted from or left alone by each command |
| Environment.ApplyLookup | fastboot_hi3716mv310/common/cmd_nvedit.c:298-357 | a command changes the value of its own name only; a definition that does not fit leaves just that name deleted |
| Environment.LastValueWins | fastboot_hi3716mv310/common/cmd_nvedit.c:553-573 | after a successful set, whatever commands on other names follow, getenv gives the words joined by single spaces |
| Environment.RunKeepsOrder | fastboot_hi3716mv310/common/cmd_nvedit.c:298-357 | variables a run does not name keep their values and their relative order |
| Environment.EnvBlock.PrintString | fastboot_hi3716mv310/common/cmd_nvedit.c:117-135 | printing through the 17-byte buffer in pieces of 16 gives exactly the string, without its NUL |
| Environment.EnvBlock.PrintAll | fastboot_hi3716mv310/common/cmd_nvedit.c:106-141 | printenv without arguments lists every variable in order and returns the bytes in use |
| Environment.ListingIs | fastboot_hi3716mv310/common/cmd_nvedit.c:117-135 | what is printed for a variable is its name, `=`, its value and a line feed |
| Environment.EnvBlock.PrintOne | fastboot_hi3716mv310/common/cmd_nvedit.c:106-141 | printenv of a name prints that variable; the result 0, taken for "found", is also given for an undefined name in an empty environment |
| CrcWords.TableEntry | fastboot_hi3716mv310/common/bootstrap.c:42-75 | every one of the 256 constants of crc16_table is the remainder its index leaves, followed by sixteen zero bits, for the generator x^16+x^12+x^5+1 |
| Crc16.CalcCrc16 | fastboot_hi3716mv310/common/bootstrap.c:77-91 | for messages of every length the table-driven loop with its two zero bytes gives the bit-by-bit remainder of message times x^16 |
| Crc16.DirectIsBitwise | fastboot_hi3716mv310/common/bootstrap.c:77-91 | the usual form `(crc << 8) ^ table[(crc >> 8) ^ byte]` without flush bytes gives the same remainder |
| Crc16Errors.DivisionTheorem | fastboot_hi3716mv310/common/bootstrap.c:77-91 | message times x^16 equals quotient times generator plus that remainder: the result is a true polynomial remainder of degree below 16 |
| Crc16Errors.FoldLinear | fastboot_hi3716mv310/common/bootstrap.c:77-91 | the remainder of a bitwise sum is the sum of the remainders |
| Crc16Errors.BurstDetected | fastboot_hi3716mv310/common/bootstrap.c:152-181 | an error confined to 16 consecutive bits of a string that leaves no remainder always leaves one |
| Crc16Errors.SeventeenBitsPass | fastboot_hi3716mv310/common/bootstrap.c:77-91 | the bound is tight: the generator pattern itself, 17 bits long, added anywhere is not noticed |
| Crc16Errors.TrailerCheck | fastboot_hi3716mv310/common/bootstrap.c:160-163 | comparing the CRC with the two trailer bytes is the same as the whole frame, trailer included, leaving no remainder |
| Bootstrap.TrailerMatches | fastboot_hi3716mv310/common/bootstrap.c:135-163 | the comparison of both branches accepts exactly the frames that leave no remainder |
| Bootstrap.Downloader.HeadFrame | fastboot_hi3716mv310/common/bootstrap.c:126-151 | a head frame is acknowledged exactly if its CRC matches; the announced length is then kept, otherwise it is reset to 0 |
| Bootstrap.Downloader.CommandFrame | fastboot_hi3716mv310/common/bootstrap.c:152-195 | a command frame of an announced length that fits the buffer is acknowledged, and its string run, exactly if its CRC matches; a text without NUL between 0xCD and the two bytes of the trailer is run as it is; a refused frame leaves a cleared buffer |
| Bootstrap.CommandInIs | fastboot_hi3716mv310/common/bootstrap.c:176-181 | the string of a frame is the text before the first NUL, without the leading byte and the trailer |
| Bootstrap.Downloader.DownloadProcess | fastboot_hi3716mv310/common/bootstrap.c:112-205 | the loop over any bytes that arrive: head frames set or reset the length, command frames of that length are run or refused, other bytes are dropped, until a byte is missing or a command frame comes without a length that fits |
| Bootstrap.DamagedFrameRejected | fastboot_hi3716mv310/common/bootstrap.c:152-181 | a correct frame damaged within any 16 consecutive bits is refused, head and command frames alike |
| Bootstrap.AdjacentBytesRejected | fastboot_hi3716mv310/common/bootstrap.c:152-181 | any change to two adjacent bytes of a correct frame of any length, CRC trailer included, is refused |
| Bootstrap.SessionRunsIntactCommands | fastboot_hi3716mv310/common/bootstrap.c:112-205 | over any session of noise bytes, head frames that announce a length in two bytes behind 0xAB, and command frames of 0xCD, a text of that length and the trailer, each frame intact or damaged within 16 bits behind its leading byte: the loop acknowledges exactly the intact frames, forgets the length after a damaged head frame, and runs exactly the texts of the intact command frames, in order |
| Bootstrap.OnlyCheckedCommandsRun | fastboot_hi3716mv310/common/bootstrap.c:112-205 | whatever bytes arrive, every command run is the string of a frame in them that starts with the command byte and whose CRC matches |
| Kermit.UnquoteUndoesPrefixing | fastboot_hi3716mv310/common/cmd_load.c:609-617 | ktrans and k_data_char undo control prefixing (section 6 of the Kermit Protocol Manual) for every byte sequence and every quote that ktrans leaves alone, behind whatever is stored |
| Kermit.RoundTripIff | fastboot_hi3716mv310/common/cmd_load.c:726-741 | of all bytes a sender can ask for as its quote, the round trip holds for exactly those whose low seven bits are at most 62 or at least 96 |
| Kermit.FeedConcat | fastboot_hi3716mv310/common/cmd_load.c:726-741 | the data may be split at any point, also inside a quoted pair: the pending-quote flag carries over |
| KermitProtocol.FrameEncoded | fastboot_hi3716mv310/common/cmd_load.c:880-1000 | a packet written with short or extended length and its block checks is received as exactly that packet |
| KermitTransfer.EncodedIsGood | fastboot_hi3716mv310/common/cmd_load.c:878-1000 | an encoded packet is received after any line noise without start or ^C characters |
| KermitTransfer.ReceivedOnceIff | fastboot_hi3716mv310/common/cmd_load.c:896-932 | the assumption of the source comment made exact, for packets of every type and any sequence of good attempts, attempts that fail under the right or any other number, and attempts with a damaged header: the state reached, and that it is the state after one delivery exactly if the first attempt does not make the receiver go back and no good attempt with data is directly followed by one that fails under another number, or if what is lost by going back is what is stored twice |
| KermitTransfer.DeliveredOnce | fastboot_hi3716mv310/common/cmd_load.c:915-932 | under the conditions of a delivery, however many failed, damaged or duplicate attempts a packet takes, the receiver ends as if it had come once |
| KermitTransfer.TransferStores | fastboot_hi3716mv310/common/cmd_load.c:836-1010 | from any receiver state, a transfer whose packets all meet those conditions appends the unquoted concatenation of its data packets, each counted once |
| KermitTransfer.TransferFromStart | fastboot_hi3716mv310/common/cmd_load.c:836-1010 | the same from the start; the quote is the sixth data byte of the send-initiate packet, or # if it is shorter |
| KermitTransfer.FileArrives | fastboot_hi3716mv310/common/cmd_load.c:836-1010 | a file prefixed with that quote and cut into packets anywhere arrives as it was |
| KermitTransfer.GoodIsAcknowledged | fastboot_hi3716mv310/common/cmd_load.c:985-1004 | every attempt at a packet is answered once: a good one positively under its number, with parameters if it is the send-initiate packet, any other one negatively |
| KermitTransfer.AttemptsAnswered | fastboot_hi3716mv310/common/cmd_load.c:836-1010 | what k_recv answers over all attempts at one packet, and that it stops behind the good end of the transfer |
| KermitTransfer.ShortPacketBytes | fastboot_hi3716mv310/common/cmd_load.c:878-1000 | a packet byte by byte: mark, length, number and type as printable characters, data, the sum with bits 6 and 7 folded in, carriage return |
| KermitTransfer.LongPacketBytes | fastboot_hi3716mv310/common/cmd_load.c:941-965 | the extended form: length 0, two characters of length in base 95, a check of the header, and the check of all |
| KermitTransfer.BytesStored | fastboot_hi3716mv310/common/cmd_load.c:836-1010 | three packets given as bytes: "#A" under the quote # is stored as 0x01, and the packets are answered with parameters and two acknowledgements |
| KermitTransfer.CtrlCEnds | fastboot_hi3716mv310/common/cmd_load.c:887-897 | ^C between packets ends the transfer without a reply, behind any noise |
| KermitTransfer.DataIsPrintable | fastboot_hi3716mv310/common/cmd_load.c:878-1000 | a character below 0x20 spoils a packet: the data of a good one has none |
| KermitTransfer.DamagedHeaderLosesData | fastboot_hi3716mv310/common/cmd_load.c:896-932 | a concrete line on which a damaged length character loses a byte that was acknowledged |
| KermitTransfer.OldNumberLosesData | fastboot_hi3716mv310/common/cmd_load.c:915-932 | the same when the number of the first attempt at a packet arrives as that of the packet before |
| KermitTransfer.OtherNumberIsHarmless | fastboot_hi3716mv310/common/cmd_load.c:915-932 | a number damaged to neither, before the packet is received, does no harm |
| KermitTransfer.OtherNumberDoublesData | fastboot_hi3716mv310/common/cmd_load.c:915-932 | behind a received packet that is sent again it stores the data twice |
| KermitMemory.MemoryReceiver.DataChar | fastboot_hi3716mv310/common/cmd_load.c:726-741 | one character goes through the unquoting state machine and, if complete, straight to memory |
| KermitMemory.MemoryReceiver.Save | fastboot_hi3716mv310/common/cmd_load.c:714-718 | the checkpoint takes address and pending quote together |
| KermitMemory.MemoryReceiver.Restore | fastboot_hi3716mv310/common/cmd_load.c:720-724 | going back restores both; bytes beyond the restored address do not count |
| KermitMemory.MemoryReceiver.NewNumber | fastboot_hi3716mv310/common/cmd_load.c:915-932 | a repeated sequence number goes back to the checkpoint, a new one takes a checkpoint |
| KermitMemory.MemoryReceiver.ReadPacket | fastboot_hi3716mv310/common/cmd_load.c:858-1008 | reading one packet character by character, with data written to memory before its check is known, refines one step of the packet machine |
| KermitMemory.MemoryReceiver.KRecv | fastboot_hi3716mv310/common/cmd_load.c:836-1010 | the main loop refines the whole transfer: the first `size` bytes of memory are what the packet machine stored, `size` is the value returned, and the replies sent are those of the conversation |
| KermitMemory.MemoryReceiver.ReceiveFile | fastboot_hi3716mv310/common/cmd_load.c:836-1010 | the code end to end: a file sent with control prefixing, cut into packets anywhere, with any number of failed or repeated attempts, is what memory holds, and its length is the value returned |
| MtdValidate.ValidateEraseblock | fastboot_hi3716mv310/common/cmd_mtdparts.c:298-375 | the uniform check and the nested loops over the erase regions accept exactly partitions that start and end on block boundaries |
| MtdValidate.PartValidate | fastboot_hi3716mv310/common/cmd_mtdparts.c:388-415 | the three 32-bit comparisons and the eraseblock check, with a "remaining" size filled in first |
| MtdValidate.AcceptedIff | fastboot_hi3716mv310/common/cmd_mtdparts.c:388-415 | for every 32-bit offset and size, "remaining" included: accepted exactly if non-empty, ending inside the device in exact arithmetic, and aligned |
| MtdValidate.EndsOnEdge | fastboot_hi3716mv310/common/cmd_mtdparts.c:339-375 | with contiguous regions the end check accepts exactly the block boundaries |
| MtdValidate.AcceptedOnEdges | fastboot_hi3716mv310/common/cmd_mtdparts.c:298-415 | on a device with contiguous regions, accepted exactly if non-empty, ending inside the device, and starting and ending on eraseblock boundaries |
| MtdValidate.UniformIff | fastboot_hi3716mv310/common/cmd_mtdparts.c:298-415 | on a device with uniform blocks, accepted exactly if non-empty, ending inside the device, and with offset and size multiples of the block size |
| MtdNumbers.ReadMemsize | fastboot_hi3716mv310/common/cmd_mtdparts.c:174-195 | memsize_parse with its falling-through g, m and k suffixes in 32-bit arithmetic |
| MtdNumbers.MemsizeRoundTrip | fastboot_hi3716mv310/common/cmd_mtdparts.c:174-221 | memsize_parse undoes memsize_format for every 32-bit size and every following text that cannot belong to a number |
| MtdText.GenerateMtdparts | fastboot_hi3716mv310/common/cmd_mtdparts.c:1062-1174 | the printing loops give the text of the grammar, with an offset only after a gap and only user-given names, and fail exactly if what follows the prefix does not fit the buffer with its end |
| MtdText.PartParse | fastboot_hi3716mv310/common/cmd_mtdparts.c:574-682 | the code of part_parse gives the partition of the grammar, its text stated by `SpecParses`, or refuses |
| MtdParse.SortAddTo | fastboot_hi3716mv310/common/cmd_mtdparts.c:516-545 | insertion by ascending offset, refusing a second partition at offset 0 |
| MtdParse.ReadParts | fastboot_hi3716mv310/common/cmd_mtdparts.c:865-889 | the partition loop of device_parse: unspecified offsets follow the partition before, every partition is validated |
| MtdParse.DeviceParse | fastboot_hi3716mv310/common/cmd_mtdparts.c:816-946 | device_parse: mtd-id, partitions, at least one, sorted into the device |
| MtdParse.ParseMtdparts | fastboot_hi3716mv310/common/cmd_mtdparts.c:1365-1412 | parse_mtdparts: prefix, devices in turn, none twice, none at all is an error |
| MtdRoundTrip.PartRoundTrip | fastboot_hi3716mv310/common/cmd_mtdparts.c:574-682 | part_parse undoes the printing of one partition, except for a size of 0xFFFFFFFF before a comma |
| MtdRoundTrip.TableRoundTrip | fastboot_hi3716mv310/common/cmd_mtdparts.c:1062-1412 | for every non-empty list of devices with validated partitions of at least 4096 bytes, rising offsets and printable names, the generated text is parsed back, and to the same devices and partitions, exactly when no partition but the last of its device has 0xFFFFFFFF bytes |
| MtdRoundTrip.Reload | fastboot_hi3716mv310/common/cmd_mtdparts.c:1062-1412 | the code end to end: generate_mtdparts into a buffer of any length followed by parse_mtdparts |
| MtdRoundTrip.FullPartRefused | fastboot_hi3716mv310/common/cmd_mtdparts.c:1062-1412 | a concrete valid table whose own text is refused |
| MtdGrammar.WrittenTableParses | fastboot_hi3716mv310/common/cmd_mtdparts.c:56-83 | every variable written after the grammar of the source header, with sizes and offsets in three bases and all suffixes, is accepted exactly if the partitions of each device lie on it, in whole blocks, with at most one at offset 0; the table is then those partitions, sorted by offset |
| MtdGrammar.SpecParses | fastboot_hi3716mv310/common/cmd_mtdparts.c:574-682 | part_parse on every written partition: size or `-`, offset, name and flag come back as written; fewer than 4096 bytes, or a comma behind `-`, is refused |
| MtdGrammar.ReadsNumeral | fastboot_hi3716mv310/common/cmd_mtdparts.c:174-195 | memsize_parse on every written number: decimal, octal or hexadecimal, with k, m or g in either case, modulo 2^32 |
| MtdGrammar.DeviceParses | fastboot_hi3716mv310/common/cmd_mtdparts.c:816-946 | device_parse on every written device, also one that is listed already |
| MtdGrammar.StartsBehind | fastboot_hi3716mv310/common/cmd_mtdparts.c:864-868 | for a device that is listed already the first partition without an offset goes behind its last one |
| MtdGrammar.SortAllIs | fastboot_hi3716mv310/common/cmd_mtdparts.c:489-563 | partitions in any order come out sorted by offset, none lost, exactly if at most one is at offset 0 |
| MtdGrammar.PlacedAt | fastboot_hi3716mv310/common/cmd_mtdparts.c:864-884 | each partition begins at its written offset or behind the one before it, and has the written size or reaches to the end of the device |
| MtdGrammar.FillsUp | fastboot_hi3716mv310/common/cmd_mtdparts.c:588-593 | a last partition written `-`, with or without offset, name and flag, ends where the device ends |
| MtdGrammar.RestIsFilled | fastboot_hi3716mv310/common/cmd_mtdparts.c:588-593 | without written offsets the partitions come in the order of the text without gaps, and a last one written `-` ends where the device ends |
| MtdGrammar.NothingBehindRest | fastboot_hi3716mv310/common/cmd_mtdparts.c:634-642 | a partition behind one written `-` is refused, with the whole text |
| MtdGrammar.HeaderExample | fastboot_hi3716mv310/common/cmd_mtdparts.c:81-83 | the second example of the source header, read as 256k read-only, the rest of the NOR flash, and all of the NAND flash |
| MtdGrammar.PrintedExample | fastboot_hi3716mv310/common/cmd_mtdparts.c:1062-1174 | the printed text of a device with a gap between its two partitions |
| MtdRefused.PrefixNeeded | fastboot_hi3716mv310/common/cmd_mtdparts.c:1382-1386 | nothing is parsed without the prefix `mtdparts=` and a device behind it |
| MtdRefused.RepeatedDevice | fastboot_hi3716mv310/common/cmd_mtdparts.c:1395-1401 | a text in which two entries name the same device is refused as a whole |
| MtdRefused.UnknownDevice | fastboot_hi3716mv310/common/cmd_mtdparts.c:838-851 | a device whose mtd-id is not listed is refused |
| MtdRefused.EmptyDevice | fastboot_hi3716mv310/common/cmd_mtdparts.c:838-902 | a device without a colon or without partitions is refused |
| MtdRefused.EmptyName | fastboot_hi3716mv310/common/cmd_mtdparts.c:609-620 | an empty name is refused behind every size and offset |
| MtdRefused.GarbageBehind | fastboot_hi3716mv310/common/cmd_mtdparts.c:634-650 | behind a partition stands a comma, a semicolon or nothing, else it is refused |
| MtdTable.Mtd.IndexPartitions | fastboot_hi3716mv310/common/cmd_mtdparts.c:228-261 | mtddevnum and mtddevname are set for the current partition, in 16-bit arithmetic |
| MtdTable.Mtd.PartSortAdd | fastboot_hi3716mv310/common/cmd_mtdparts.c:489-543 | the new partition goes to its place and the current number moves up exactly if it stands at or behind that place, although the code compares offsets |
| MtdTable.Mtd.PartAdd | fastboot_hi3716mv310/common/cmd_mtdparts.c:552-563 | a partition is added only if it is valid, with a "remaining" size filled in |
| MtdTable.Mtd.PartDel | fastboot_hi3716mv310/common/cmd_mtdparts.c:424-461 | part_del, the last partition taking the device with it; variables are kept up to date |
| MtdTable.Mtd.DeviceDel | fastboot_hi3716mv310/common/cmd_mtdparts.c:737-759 | device_del: partition 0 of the first device, or none, becomes current when the current device goes |
| MtdTable.Mtd.DeviceAdd | fastboot_hi3716mv310/common/cmd_mtdparts.c:789-805 | device_add: the first device becomes current, a later one does not |
| MtdTable.Mtd.Perform | fastboot_hi3716mv310/common/cmd_mtdparts.c:1715-1840 | each command refines one step of the table machine and keeps the saved variables in agreement with it |
| MtdTable.StepIsGood | fastboot_hi3716mv310/common/cmd_mtdparts.c:424-805 | every command keeps the lists sorted, num_parts equal to the list length, device names unique, and a current device exactly when there is one |
| MtdLaws.AddPartitionLaw | fastboot_hi3716mv310/common/cmd_mtdparts.c:489-563 | a valid partition that is not a second one at offset 0 is added: it stands before the first one that does not start earlier, nothing else appears, disappears or moves, and the current number moves up exactly if it is put at or before the current place |
| MtdLaws.AddPartitionRefused | fastboot_hi3716mv310/common/cmd_mtdparts.c:516-563 | an invalid partition, or a second one at offset 0, changes nothing |
| MtdLaws.DelPartitionLaw | fastboot_hi3716mv310/common/cmd_mtdparts.c:424-461 | one of several partitions is deleted: it and nothing else disappears |
| MtdLaws.DelLastLaw | fastboot_hi3716mv310/common/cmd_mtdparts.c:429-432 | the only partition takes its device along, and partition 0 of the device that is now first becomes current if that one was |
| MtdLaws.DelAllLaw | fastboot_hi3716mv310/common/cmd_mtdparts.c:1764-1772 | delall leaves no device, no current partition and none of the variables |
| MtdLaws.AddDeviceLaw | fastboot_hi3716mv310/common/cmd_mtdparts.c:789-805 | a new device goes to the end of the list with its partitions, and becomes current with partition 0 if it is the first |
| MtdLaws.ChangePartLaw | fastboot_hi3716mv310/common/cmd_mtdparts.c:1716-1742 | chpart makes an existing partition current and refuses every other number, touching no device |
| MtdLaws.VariablesAre | fastboot_hi3716mv310/common/cmd_mtdparts.c:228-261 | mtddevnum is the number of partitions of the devices before the current one plus the current number, mtddevname its name, partition its device and number; none of them without a current device |
| MtdCurrent.InsertFollows | fastboot_hi3716mv310/common/cmd_mtdparts.c:506-537 | an insertion never changes which partition is current, even among equal offsets |
| MtdCurrent.DeleteFollowsIff | fastboot_hi3716mv310/common/cmd_mtdparts.c:434-450 | a deletion moves the current number to the right place exactly when the deleted partition is not behind the current one at the same offset |
| MtdCurrent.EqualOffsetsMisnumber | fastboot_hi3716mv310/common/cmd_mtdparts.c:434-450 | a concrete list with equal offsets on which the wrong partition becomes current |
| MtdCurrent.StepFollows | fastboot_hi3716mv310/common/cmd_mtdparts.c:424-805 | with distinct offsets, each command leaves the same partition current until it is deleted, then partition 0 of its device or of the first device |
| MtdCurrent.RunFollows | fastboot_hi3716mv310/common/cmd_mtdparts.c:424-805 | the same at every step of every run with distinct offsets and fewer than 256 partitions a device |
| MtdCurrent.DevNumIsPosition | fastboot_hi3716mv310/common/cmd_mtdparts.c:228-261 | mtddevnum is the position of the current partition in the concatenation of all lists |
| OneNand.Device.BlockWrite | fastboot_hi3716mv310/common/cmd_onenand.c:115-158 | the next usable blocks from where it starts hold the blocks of the buffer one by one; a block marked bad is never changed, any other one only if it fails; the physical cursor is next_ofs plus skip_ofs |
| OneNand.SlotsAre | fastboot_hi3716mv310/common/cmd_onenand.c:133-155 | the blocks used are all blocks from the start on that are neither marked bad nor failing, in ascending order |
| OneNand.Device.BlockRead | fastboot_hi3716mv310/common/cmd_onenand.c:68-113 | a read returns the contents of the usable blocks from its start on |
| OneNand.Device.WriteAll | fastboot_hi3716mv310/common/cmd_onenand.c:115-158 | back-to-back block-multiple writes are one long write, whatever the unusable blocks |
| OneNand.Device.WriteThenRead | fastboot_hi3716mv310/common/cmd_onenand.c:68-158 | such writes are read back in one piece; in a session that begins where an earlier one stopped after skipping, if no usable block lies between the two starts, and otherwise the read begins with what the first such block held before |
| OneNand.SameSlotsIff | fastboot_hi3716mv310/common/cmd_onenand.c:124-131 | two starting points use the same blocks exactly when no usable block lies between them |
| OneNand.ContinuedSession | fastboot_hi3716mv310/common/cmd_onenand.c:124-131 | a concrete second session that reads back the data of the first |
| Flash.PlanBank | fastboot_hi3716mv310/common/cmd_flash.c:228-283 | the sector scan and the error branches of one bank decide as specified |
| Flash.FillSectRanges | fastboot_hi3716mv310/common/cmd_flash.c:206-287 | the loops over all banks fill the two arrays and the count as the plan says, or report an error |
| FlashRanges.SoundIff | fastboot_hi3716mv310/common/cmd_flash.c:217-283 | for disjoint banks: no range ever plans a sector outside itself, exactly when no bank at address 0 comes after a bank that ends at 0xFFFFFFFF |
| FlashRanges.PlanStaysWithin | fastboot_hi3716mv310/common/cmd_flash.c:217-283 | without that layout every planned sector lies within the range, banks in any order, overlapping or unknown ones included |
| FlashRanges.WrapPlansMore | fastboot_hi3716mv310/common/cmd_flash.c:266-268 | with it, the range of the top bank also plans the bank at address 0 |
| FlashRanges.ReversedBanks | fastboot_hi3716mv310/common/cmd_flash.c:266-268 | two concrete banks on which that happens |
| FlashCover.CoverIff | fastboot_hi3716mv310/common/cmd_flash.c:206-287 | for a range in contiguous ascending flash: something is planned without an error exactly when the range cuts no sector; then the planned sectors are exactly those of the range and the count is their number |
| FlashComplete.CompleteIff | fastboot_hi3716mv310/common/cmd_flash.c:206-287 | for banks in any order and with gaps: a range that is planned without an error is planned completely exactly when a sector of a known bank ends at its last address |
| FlashComplete.GapRefused | fastboot_hi3716mv310/common/cmd_flash.c:254-283 | a range whose last address ends a sector is refused as soon as one of its addresses lies in no known bank |
| FlashComplete.ReversedRefused | fastboot_hi3716mv310/common/cmd_flash.c:278-283 | so is one that runs into a bank listed before the one it starts in |
| FlashComplete.CutStartRefused | fastboot_hi3716mv310/common/cmd_flash.c:274-277 | a range that starts within a bank but not with a sector is refused, unless it starts at the last address of the bank |
| FlashComplete.CutEndRefused | fastboot_hi3716mv310/common/cmd_flash.c:254-264 | a range that starts with a sector and ends within the same bank, but not with a sector, is refused |
| FlashComplete.GapErasedInPart | fastboot_hi3716mv310/common/cmd_flash.c:254-283 | a concrete range over a gap whose last address ends no sector, planned in part without an error |
| FlashErase.SectRoundb | fastboot_hi3716mv310/common/cmd_flash.c:110-146 | the address becomes the end of a sector that holds it, and it is refused exactly when no bank holds it |
| FlashErase.AddrSpec | fastboot_hi3716mv310/common/cmd_flash.c:166-201 | the end of a "+length" range is always a sector end |
| FlashErase.RoundedIsUncut | fastboot_hi3716mv310/common/cmd_flash.c:185-201 | a range from a sector start to a sector end cuts no sector, so a "+length" range that starts on a sector is never refused for its end |
| FlashErase.Chips.SectErase | fastboot_hi3716mv310/common/cmd_flash.c:422-461 | only planned sectors are erased, all of them on success, and nothing unless something is planned without an error; a range up to the end of a sector is erased whole on success, and over a gap refused with nothing erased |
| FlashErase.Chips.Erase | fastboot_hi3716mv310/common/cmd_flash.c:404-461 | the command end to end: in contiguous flash success means that exactly the sectors of the range are erased; in any layout a range up to the end of a sector is erased whole on success, and over a gap refused with nothing erased |
| LogBuffer.Log.PutChar | fastboot_hi3716mv310/common/cmd_log.c:290-306 | both cursor layouts, with 32-bit cursors that wrap, store one more character of the stream |
| LogBuffer.Log.WindowIsTail | fastboot_hi3716mv310/common/cmd_log.c:290-306 | under either layout the window a reader sees is the last LOGBUFF_LEN characters of all that was logged |
| LogBuffer.Log.SettleLevel | fastboot_hi3716mv310/common/cmd_log.c:271-287 | a tag is written over the three characters before the line, which are reserved or already logged; nothing still to be logged changes |
| LogBuffer.Log.LogbuffPrintk | fastboot_hi3716mv310/common/cmd_log.c:262-319 | an argument without a line feed before its end is logged as it is, with <4> in front exactly if it starts a line and has no tag of its own; the level stays known until a line feed; an argument of several lines is logged line by line |
| LogBuffer.LineByLine | fastboot_hi3716mv310/common/cmd_log.c:268-311 | an argument of several lines is logged as if each were given in a call of its own |
| LogBuffer.RunProper | fastboot_hi3716mv310/common/cmd_log.c:271-287 | over any calls, however they cut the text: <4> stands before a piece exactly if the piece starts the stream or follows a line feed and has no tag of its own |
| LogBuffer.Log.LogAll | fastboot_hi3716mv310/common/cmd_log.c:262-319 | any sequence of calls logs pieces that are tagged that way and whose texts are the concatenated arguments |
| LogBuffer.RunTexts | fastboot_hi3716mv310/common/cmd_log.c:262-319 | without the inserted tags the stream is the concatenation of the arguments |
| LogBuffer.RunTagged | fastboot_hi3716mv310/common/cmd_log.c:271-287 | however the text is cut into calls, every line of the log starts with a level tag |
| MemTest.Ram.DataLines | fastboot_hi3716mv310/common/cmd_mem.c:727-758 | for any faults: no errors exactly if every shift of every bit pattern and its complement reads back; with sound cells, exactly if the parking address is another cell; never with a stuck or two shorted data lines at the tested word |
| MemTest.Ram.AddressLines | fastboot_hi3716mv310/common/cmd_mem.c:794-851 | for any faults: no errors exactly if the other power-of-two offsets keep the pattern wherever the mark is put; with one line k stuck and sound cells, exactly if the length is at most 2^k, or 2^(k+1) where the base address has bit k set |
| MemTest.Ram.StorageBits | fastboot_hi3716mv310/common/cmd_mem.c:853-914 | for any wiring and any cell faults: no errors exactly if each word reads its pattern and later its complement; with sound cells, exactly if no two words share a cell; never with a stuck bit in a cell of the region, which ends up cleared |
| MemTest.Ram.Iteration | fastboot_hi3716mv310/common/cmd_mem.c:727-914 | one iteration over any region: with sound cells and any wiring, no errors exactly if no two words share a cell and the parking address is not in the cell of the first word; with an address line k stuck, exactly if no address of the region has bit k clear and the word 2^k above it in the region too; always errors for a stuck bit in the region or shorted data lines |
| MemFaults.SoundPass | fastboot_hi3716mv310/common/cmd_mem.c:727-914 | the condition for no errors of the three parts together, for sound cells and any wiring |
| MemFaults.StuckLinePasses | fastboot_hi3716mv310/common/cmd_mem.c:794-851 | the address line part finds a stuck line exactly if its offset, or the next one where the base address has that bit set, is below the length |
| MemFaults.StuckLineSeparates | fastboot_hi3716mv310/common/cmd_mem.c:853-914 | the words of a region stay in cells of their own exactly if the stuck line does not show in it |
| MemFaults.StuckLineAliases | fastboot_hi3716mv310/common/cmd_mem.c:801-822 | with line k stuck two addresses are one cell exactly if they differ by 2^k and the lower one has that bit clear |
| MemTest.UnnoticedLine | fastboot_hi3716mv310/common/cmd_mem.c:727-914 | a concrete memory with a stuck line below the length on which an iteration from an unaligned address reports nothing |
| MemFaults.BitFlips | fastboot_hi3716mv310/common/cmd_mem.c:868-914 | a pattern and its complement differ in every bit, so a bit that cannot change is seen |
| MemLaws.DataPassIs | fastboot_hi3716mv310/common/cmd_mem.c:653-662 | the data line part passes exactly if the first word reads back every shift of 1, 3, 7, 15, 5, 0x15, 0x55 and 0xAAAAAAAA and the complements, the parking address being another cell |
| MemLaws.AddressPassIs | fastboot_hi3716mv310/common/cmd_mem.c:795-851 | the address line part passes exactly if, with 0x55555555 at offset 0 or a power of two, every other power-of-two offset of the region reads 0xAAAAAAAA |
| MemLaws.StoragePassIs | fastboot_hi3716mv310/common/cmd_mem.c:868-914 | where no two words share a cell, the storage part passes exactly if the word at offset o reads back o + 1 and its complement |
| MemLaws.PassIs | fastboot_hi3716mv310/common/cmd_mem.c:727-914 | the three conditions together, for separate words |
| Bedbug.AsmPpc | fastboot_hi3716mv310/common/bedbug.c:790-841 | the operand loop of asmppc gives the specified instruction or error; silent operands take no word |
| Bedbug.GetOperandValue | fastboot_hi3716mv310/common/bedbug.c:373-400 | get_operand_value extracts the field of the first operand of that number, if the opcode has it |
| Bedbug.AssembledFields | fastboot_hi3716mv310/common/bedbug.c:790-918 | for any opcode whose written fields are disjoint and clear in the base opcode, extracting each field gives the operand that was parsed, and all other bits are those of the opcode |
| Bedbug.OperandsComeBack | fastboot_hi3716mv310/common/bedbug.c:231-271 | from the text of an operand to the instruction and back: numbers, registers and special registers in range come back as they were, branch targets exactly when the field reaches them |
| Bedbug.AddressIff | fastboot_hi3716mv310/common/bedbug.c:860-877 | the disassembler shows the branch target that was assembled, relative or absolute, exactly when its displacement is a multiple of 4 within the reach of the field |
| Bedbug.SwapTwice | fastboot_hi3716mv310/common/bedbug.c:501-539 | exchanging the two halves of a 10-bit register number twice gives it back, so spr_name undoes spr_value |
| Bedbug.RefusedRegisters | fastboot_hi3716mv310/common/bedbug.c:526-551 | asmppc refuses exactly the special registers whose low ten bits are 0, since that value also means "not found" |
| BedbugLaws.AssemblesIff | fastboot_hi3716mv310/common/bedbug.c:790-918 | a line is assembled exactly if there is a word for every written operand, register numbers are at most 31, and special registers are known |
| BedbugLaws.Addi | fastboot_hi3716mv310/common/bedbug.c:790-918 | addi for all registers and every immediate number gives 0x38000000 + rD * 2^21 + rA * 2^16 + the low 16 bits |
| BedbugLaws.Branch | fastboot_hi3716mv310/common/bedbug.c:860-877 | b for every target less than 32 MiB and a multiple of 4 away gives 0x48000000 plus the displacement in 26 bits |
| BedbugLaws.FieldIsQuotient | fastboot_hi3716mv310/common/bedbug.c:373-400 | a field is the instruction divided by 2^shift, modulo 2^bits |
| BedbugLaws.SwapIs | fastboot_hi3716mv310/common/bedbug.c:537-540 | the halves exchanged: x modulo 32 times 32, plus x divided by 32, modulo 32 |
| Eeprom.Device.EepromWrite | fastboot_hi3716mv310/common/cmd_eeprom.c:201-369 | for every page size the contents become what the transfers make of them on a device whose address counter wraps in a page, and the code is 0 exactly if all are answered; one flat write for pages of at most 256 bytes or one-byte transfers |
| Eeprom.WritesFlat | fastboot_hi3716mv310/common/cmd_eeprom.c:220-275 | under that condition the transfers have the effect of one flat write if all are answered, and change nothing outside the range in any case |
| Eeprom.FlatIff | fastboot_hi3716mv310/common/cmd_eeprom.c:220-275 | every write, whatever the contents, offset and data, is one flat write exactly for pages of at most 256 bytes or one-byte transfers |
| Eeprom.PageOf512 | fastboot_hi3716mv310/common/cmd_eeprom.c:262-275 | two bytes written to the last byte of a 512-byte page and the next: the second one lands on the first byte of the page |
| Eeprom.WriteTiles | fastboot_hi3716mv310/common/cmd_eeprom.c:220-275 | the transfers are non-empty and tile the range in order, and under the condition none crosses a page |
| Eeprom.NoCrossingIff | fastboot_hi3716mv310/common/cmd_eeprom.c:262-275 | the length computed for a transfer keeps it within its page, whatever offset and length, exactly under the condition |
| Eeprom.Device.EepromRead | fastboot_hi3716mv310/common/cmd_eeprom.c:127-190 | the chunks of a read stay within a 256-byte block and give the flat contents |
| Eeprom.Device.WriteThenRead | fastboot_hi3716mv310/common/cmd_eeprom.c:127-369 | what is written is read back for pages of at most 256 bytes or one-byte transfers; for larger pages what is read is what the wrapping counter made of the write |
| SRecord.RecordSum | fastboot_hi3716mv310/common/cmd_load.c:363-376 | length, address, data and checksum of every record sum to 0xFF modulo 256 |
| SRecord.HeaderAndEnd | fastboot_hi3716mv310/common/cmd_load.c:327-329 | the bytes of the header and of the end record sum to 0xFF modulo 256 too |
| SRecord.RecordExample | fastboot_hi3716mv310/common/cmd_load.c:358-381 | one record character by character |
| SRecord.RecordDecodes | fastboot_hi3716mv310/common/cmd_load.c:358-381 | an independent decoder of S3 records gives back address and data of every record |
| SRecord.UploadIsSlice | fastboot_hi3716mv310/common/cmd_load.c:332-385 | for every address and count the data records decode to exactly that memory slice in contiguous ascending pieces of 1 to 16 bytes |
| SRecord.SaveSerial | fastboot_hi3716mv310/common/cmd_load.c:332-385 | the byte-by-byte loop sends the header S0030000FC, count / 16 records rounded up, and the end record S70500000000FA; the records decode to the bytes of memory from the address on, modulo 2^32 |
| BurnIn.ComputePercent | fastboot_hi3716mv310/common/cmd_nand.c:441-452 | the shift-down loop and the division compute the specified percentage |
| BurnIn.PercentIs | fastboot_hi3716mv310/common/cmd_nand.c:436-452 | despite the shifting it is the exact percentage rounded down or up, never above 100, and 100 at the end |
| BurnIn.RunPass | fastboot_hi3716mv310/common/cmd_nand.c:414-481 | a pass visits the erase blocks in order and ends early only at the first "stop"; a percentage is printed when it differs from the one before |
| BurnIn.PassPercents | fastboot_hi3716mv310/common/cmd_nand.c:414-462 | in each pass every block is visited once, percentages never fall, stay within 100, and an uninterrupted pass covers the whole area and ends at exactly 100 |
| BurnIn.PassPrints | fastboot_hi3716mv310/common/cmd_nand.c:454-462 | a pass prints rising percentages, at most 101 of them |
| BurnIn.LaterPassSilentIff | fastboot_hi3716mv310/common/cmd_nand.c:410-480 | over any run, each pass after the first starts from the 100 shown last, so it prints nothing exactly if the area is a single block |
| BurnIn.EraseWrite | fastboot_hi3716mv310/common/cmd_nand.c:357-486 | accepted exactly if the area starts at 0x100000 or behind, ends inside the chip, and is made of whole blocks; no block outside that area is visited; passes run until the count is used up or one is stopped, and none follows a stopped one |
| BurnIn.VisitsInside | fastboot_hi3716mv310/common/cmd_nand.c:357-481 | the blocks of a pass follow each other from the start of the area on; none holds a byte below 0x100000 or reaches behind the end of the chip; the pass is stopped exactly if stop is typed at a visited block, and covers the whole area otherwise |

## Left out

- Environment: getenv_r, the redirection of console streams, the baud rate change (their answers are
  parameters of a command), `ipaddr` and `bootfile` side effects, the CRC of the block and saving it. The board
  defines CONFIG_ENV_OVERWRITE, so the write protection of `ethaddr` and `serial#` is not compiled in.
- Bootstrap: USB and CA boot, register flags, and the reply bytes other than ACK and NAK.
- Bootstrap.Downloader.CommandFrame: a command frame that no acknowledged head frame announced, or whose length
  exceeds the buffer of 1024 bytes, is outside the model; the modelled loop ends there.
- Kermit: the characters of the replies, padding, ymodem, the baud rate dialogue, and srec_decode, which is not
  part of this model. The transfer lemmas take one send-initiate packet, at the start. An attempt that passes all
  checks although it was damaged counts as good only with the contents that were sent.
- MTD: parsing of `mtdids`, malloc failures, list pointers (devices are told apart by type and number), and the
  text of automatic names, which records size and offset as written.
- MtdTable.Mtd.Perform: the commands come parsed; reading the variables back when they were changed by hand
  (mtdparts_init) and saving the text are outside the table machine.
- MtdTable.Mtd.IndexPartitions: mtddevname is left open when the current number is out of range, which only a
  deletion among equal offsets can cause.
- OneNand: the spare area, erasing and the block test; writes and reads fail on the same blocks, and enough
  usable blocks are there, without which the loops of the source do not end.
- OneNand.Device.BlockWrite: starts on a block boundary; an offset within a block, which the source hands to the
  driver as it is, is not modelled.
- OneNand.Device.BlockRead: the same.
- OneNand.Device.WriteAll: the same.
- Flash: parsing of the two numbers, the forms "all", "bank", partition and sector numbers, and protection.
- Log: the console echo, `log show`, and the set-up of the buffer address.
- LogBuffer.Log.LogbuffPrintk: lines of at most 1020 characters, which is what the scratch buffer holds behind a
  tag; the source relies on its callers for that.
- Memory test: only the alternate test; ctrl-C and the iteration limit.
- Bedbug: the opcode and register tables are parameters, as are the values of the operand words; symbols and the
  text of the operands. Fields have at most 30 bits where addresses are concerned.
- EEPROM: the X40430 control register, FRAM, SPI, and device select bits above the offset; a transfer that
  fails writes nothing.
- S-records: the check for ctrl-C after each record and the baud rate dialogue.
- BurnIn: the flash contents and the comparison.
- BurnIn.EraseWrite: the return value, which is that of the last flash operation only, and negative counts.
- Delays, watchdog and progress output everywhere; device and network commands, image boot, and the Qt front
  end under `nand_burnin_src`.
