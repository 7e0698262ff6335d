# U-Boot common/: storage, serial and boot algorithms, verified

U-Boot's `common/` directory holds a number of algorithms that are more than plumbing: an
error-correcting NAND driver, a Kermit receiver that writes straight into memory, an environment that
is edited in place, a partition-table parser and printer, the mapping of address ranges to flash
sectors, the placement of boot images, a log ring, and drivers for EEPROMs and floppy disks. This
project models them in Dafny and proves what they are for. Chips, lines and disks are arrays, sequences
and scripts of answers; everything else follows the C code branch by branch. Loops and updates in place
are methods on arrays or classes, proved against functions, and the properties are lemmas about those
functions.

`unsigned long` is taken to be 32 bits wide. All arithmetic that may wrap in C is written out as
wrapping; where a theorem needs that something does not wrap, it says so.

## The parts

| files | source | subject |
|---|---|---|
| `NandEcc`, `NandCode` | `cmd_nand.c` | column and line parities of a 256-byte block, the 3-byte code, the decoder as a code over bits |
| `NandEccDriver` | `cmd_nand.c` | the ECC routines in place, with their table, registers and masks |
| `NandPage`, `NandWalk`, `NandMarks`, `NandDevice` | `cmd_nand.c` | the 512-byte page with its out-of-band area, the walk over erase blocks in all its modes, what the bad-block markers decide, the driver on an array-backed chip |
| `KermitCodec`, `KermitPrefix`, `KermitProtocol`, `KermitTransfer`, `KermitReceiver`, `KermitReplies` | `cmd_load.c` | packets as bytes and when they are given up, the receiver as a state machine, whole transfers, the receiver with its global variables, what it answers |
| `EnvText`, `EnvModel`, `EnvMap`, `EnvStore` | `cmd_nvedit.c` | the environment as text, as a list of entries, as a bounded map, and in its buffer |
| `MtdSize`, `MtdNumbers`, `MtdParts`, `MtdText`, `MtdOrder`, `MtdSound`, `MtdParser`, `MtdPrinter`, `MtdList` | `cmd_jffs2.c` | numbers, sizes and partitions as text, the round trip and what accepted texts stand for, parser and printer, the partition list with its current number |
| `FlashBanks`, `FlashRanges`, `FlashDriver`, `FlashPartition` | `cmd_flash.c` | sector ranges, erase and protect, and partitions turned into ranges |
| `BootImage` | `cmd_bootm.c` | multi-file images, placement of command line, board info and ramdisk |
| `LogStream`, `LogBuffer` | `cmd_log.c` | the log as a stream of leveled lines, and the ring |
| `Eeprom`, `Floppy` | `cmd_eeprom.c`, `cmd_fdc.c` | transfers cut to pages and to track sides, with retries |
| `Words`, `CStrings`, `Options`, `Slices`, `Division` | | words, C strings, missing values, facts about sequences and quotients |

## Where the code falls short of what it is for

Each of these is a theorem with the exact condition, and where useful a concrete case.

- NAND: a flipped data bit together with one of the two code bits that carry no parity is still
  corrected; every other pair of errors is reported (`NandCode.TwoErrors`).
- Kermit: the receiver uses a sequence number before it knows that the packet is intact. When the first
  transmission of a packet has its header spoiled, or shows the number of the packet before it, that
  packet is taken back although it was accepted (`KermitTransfer.ErrorLosesPacket`). When an accepted
  packet is sent again and shows yet another number, it stays and is counted again
  (`KermitTransfer.ErrorDoublesPacket`). One flipped bit is enough (`KermitReceiver.NumberMistaken`). A
  data packet counts exactly once if and only if it is taken back as often as it is counted again
  (`KermitTransfer.LosslessExactlyWhen`). The comment at `cmd_load.c:896-901` assumes that the sequence
  number is received correctly, and does not mention the length.
- Environment: write-once variables are compared by the whole name that was typed but looked up by the
  part before `=`, so a name such as `serial#=` is not recognised (`EnvMap.WriteOnceExactly`,
  `EnvMap.SerialDeleted`).
- mtdparts: a fill-up partition may be smaller than the minimum that the parser accepts when it reads the
  generated text again (`MtdOrder.FillUpRefused`), and partitions at equal offsets come back in the
  opposite order (`MtdOrder.EqualOffsetsSwapped`); otherwise the round trip holds
  (`MtdOrder.RoundTripExactly`). The nine characters of the prefix are not charged to the buffer length
  (`MtdPrinter.Printer.Generate`). Deleting a later partition that starts where the current one does
  makes the current number go astray (`MtdList.DeleteKeeps`, `MtdList.DuplicateAstray`), and so does an
  addition before partition 255 (`MtdList.AddKeeps`).
- Flash: with a gap between chips, or with the upper chip first in the table, a range that ends inside a
  sector of the other chip is accepted and cut short, while one that ends on its sector boundary is refused
  (`FlashRanges.FillMeans`, `FlashRanges.GapCutsShort`). A range that ends at the last address of all also
  picks a chip at address 0 that comes later in the table (`FlashRanges.WrapPicks`,
  `FlashPartition.PartitionErased`).
- Boot: an `initrd_high` smaller than the ramdisk makes a subtraction wrap
  (`BootImage.PlacementExactly`, `BootImage.SmallLimitAstray`).
- Log: a level that is cut in two by a call boundary is not recognised (`LogStream.SplitExactly`,
  `LogStream.TornExample`).
- Floppy: a read that breaks off within its last seven octets is filled up with status octets and taken
  for complete; a successful read is right if and only if that happened to none of its transfers, or by
  chance made no difference (`Floppy.Drive.ReadData`, `Floppy.LateBreak`).

## Model

| member | source | states |
|---|---|---|
| `NandEcc.PrecalcIsParity` | u-boot/common/cmd_nand.c:1686-1719 | for each of the 256 table entries, bits 0 to 5 are the column parities of its index and bit 6 its overall parity |
| `NandEcc.ColumnBitLinear` | u-boot/common/cmd_nand.c:1770-1783 | column parities are linear over exclusive-or |
| `NandEcc.ColumnParityFlip` | u-boot/common/cmd_nand.c:1770-1783 | flipping one bit of a block changes exactly the column parities that cover it |
| `NandEcc.LineParityFlip` | u-boot/common/cmd_nand.c:1770-1783 | flipping one bit of a block changes line parity i exactly when bit i of the byte's index is set |
| `NandCode.EccAffine` | u-boot/common/cmd_nand.c:1765-1794 | the code of an exclusive-or of two blocks is the inverted exclusive-or of their codes, bit by bit |
| `NandCode.ErasedBlock` | u-boot/common/cmd_nand.c:1765-1794 | a block of 0xff has the code 0xff 0xff 0xff, so erased pages check out |
| `NandCode.NoError` | u-boot/common/cmd_nand.c:1799-1810 | an undisturbed block gives status 0 and nothing changes, for every block |
| `NandCode.OneError` | u-boot/common/cmd_nand.c:1799-1882 | any one flipped bit of 256 data bytes and 3 code bytes: the data come out as written, status 1 for data bits, 2 for code bits, and the code is put right |
| `NandCode.TwoErrors` | u-boot/common/cmd_nand.c:1799-1882 | any two different flipped bits give -1 with the data untouched, except a data bit with a parity-free filler bit, which is corrected |
| `NandCode.DecodesExactly` | u-boot/common/cmd_nand.c:1799-1882 | for every received word: status 0 iff code and data agree; 1 iff one flipped data bit explains the difference, and then exactly that bit is flipped back; 2 iff the stored code is the computed one but for a single bit, and then it is put right; -1 otherwise; data and code stay in all other cases |
| `NandCode.TwoErrorVerdict` | u-boot/common/cmd_nand.c:1811-1877 | the classification of every two-bit syndrome |
| `NandEccDriver.TransResult` | u-boot/common/cmd_nand.c:1725-1760 | the interleaving loops with their running masks spread the two registers over the two code bytes bit by bit |
| `NandEccDriver.CalculateEcc` | u-boot/common/cmd_nand.c:1765-1794 | the table-driven loop writes exactly the code of the block, and nothing else |
| `NandEccDriver.CountOnes` | u-boot/common/cmd_nand.c:1850-1865 | the shifting loops count the set bits of a syndrome byte |
| `NandEccDriver.ReadAddress` | u-boot/common/cmd_nand.c:1818-1833 | the loops that gather the byte address collect the odd bits of the two line-parity bytes |
| `NandEccDriver.ReadBitNumber` | u-boot/common/cmd_nand.c:1834-1842 | the loop that gathers the bit number collects the odd bits of the column byte |
| `NandEccDriver.Diagnose` | u-boot/common/cmd_nand.c:1808-1877 | the mask tests tell apart no error, one data bit, one code bit and the rest as the code over bits does |
| `NandEccDriver.CorrectData` | u-boot/common/cmd_nand.c:1799-1882 | in place: status, corrected data and corrected code are those of the decoder, nothing else changes |
| `NandPage.OobOfFullPage` | u-boot/common/cmd_nand.c:1052-1110 | a full write puts both codes at their positions, clears the marker, and leaves every other out-of-band byte erased |
| `NandPage.ImageIsEncoded` | u-boot/common/cmd_nand.c:1052-1118 | what is programmed holds each half of the data with its matching code |
| `NandPage.PageRoundTrip` | u-boot/common/cmd_nand.c:942-980 | a page written in full, then hit by at most one flipped bit in each half with its code, marker intact, reads back as written and readable |
| `NandPage.PartRoundTrip` | u-boot/common/cmd_nand.c:942-1102 | of a page written in its first half and part of the second, the first half survives one flipped bit, and the second is handed out unchecked |
| `NandPage.ShortUnchecked` | u-boot/common/cmd_nand.c:1084-1102 | a page written in less than a half is handed out as it is |
| `NandWalk.PlanPages` | u-boot/common/cmd_nand.c:466-518 | in every mode no page of a bad block is ever served, and pages ascend |
| `NandMarks.ServedAreUnmarked` | u-boot/common/cmd_nand.c:402-434 | in every mode each page served lies in a block whose first two pages hold 0xff at the marker position |
| `NandMarks.PlainPlan` | u-boot/common/cmd_nand.c:466-518 | a plain command visits page after page up to the first one in a marked block, and stops there |
| `NandMarks.FillingPlan` | u-boot/common/cmd_nand.c:473-481 | a filling read visits every page, blank where its block is marked |
| `NandMarks.SkippingPlan` | u-boot/common/cmd_nand.c:482-490 | a skipping command passes over whole marked blocks to the first unmarked one, keeping its place in the block |
| `NandMarks.RoomCounted` | u-boot/common/cmd_nand.c:466-494 | the room it needs is counted in unmarked blocks |
| `NandMarks.PlainServed` | u-boot/common/cmd_nand.c:454-523 | a plain request over unmarked blocks is served in full with status 0 |
| `NandMarks.PlainRead` | u-boot/common/cmd_nand.c:501-517 | reading them delivers page after page |
| `NandMarks.PlainWritten` | u-boot/common/cmd_nand.c:501-517 | writing them programs each page with its own part of the buffer, and no other page |
| `NandMarks.PlainStops` | u-boot/common/cmd_nand.c:490-494 | with a marked block in the way the status is 1 and the total the number of pages before it |
| `NandMarks.FillingServed` | u-boot/common/cmd_nand.c:473-481 | a filling read delivers all pages, 0xff for those of marked blocks |
| `NandMarks.MarkedKept` | u-boot/common/cmd_nand.c:454-523 | no write, in whatever mode, changes a page of a marked block |
| `NandWalk.CapacityExactly` | u-boot/common/cmd_nand.c:466-494 | a skipping walk comes to its end iff the good blocks from its start on have room for the pages asked for: g blocks hold g times the pages of a block, less the pages in front of the start |
| `NandWalk.SkipIsComplete` | u-boot/common/cmd_nand.c:466-518 | a skipping walk that comes to its end serves exactly as many pages as were asked for |
| `NandWalk.SamePlan` | u-boot/common/cmd_nand.c:402-434 | as long as bad-block markers stay, skipping write and skipping read take the same walk |
| `NandWalk.WriteAllKeepsMarkers` | u-boot/common/cmd_nand.c:402-434 | writing never touches a bad-block marker |
| `NandWalk.WriteAllResult` | u-boot/common/cmd_nand.c:501-517 | after the walk each page of the plan is programmed with its own part of the buffer, and no other page is touched |
| `NandWalk.SkipRoundTrip` | u-boot/common/cmd_nand.c:454-523 | for every bad-block map with enough good blocks: skip-write onto erased pages, ageing of the pages written within the strength of the code, skip-read gives the same buffer |
| `NandWalk.ProgressEnds` | u-boot/common/cmd_nand.c:466-522 | where the loop ends, total is what was served and chip and buffer are those of the plan |
| `NandWalk.RequestsRoundTrip` | u-boot/common/cmd_nand.c:454-523 | the same from request to request: both calls return 0 with total equal to len, and the bytes come back |
| `NandDevice.NandChip.WritePage` | u-boot/common/cmd_nand.c:1040-1140 | the page is programmed with padding, both codes and marker, nothing else |
| `NandDevice.NandChip.WriteEcc` | u-boot/common/cmd_nand.c:1248-1331 | a run of whole pages is written from the buffer, or -1 and nothing when it runs over the chip |
| `NandDevice.NandChip.ReadPage` | u-boot/common/cmd_nand.c:933-980 | the page buffer holds the corrected data, failures count the halves beyond repair |
| `NandDevice.NandChip.ReadEcc` | u-boot/common/cmd_nand.c:882-1035 | the buffer gets the corrected data of all pages; -1 iff some page is beyond repair or the run leaves the chip |
| `NandDevice.NandChip.CheckBlock` | u-boot/common/cmd_nand.c:402-434 | reports a block as good iff it lies on the chip and, where there is a marker position, both its first two pages hold 0xff there |
| `NandDevice.NandChip.FillBlock` | u-boot/common/cmd_nand.c:473-481 | a filling read hands out 0xff up to the end of the bad block |
| `NandDevice.NandChip.ReadWrite` | u-boot/common/cmd_nand.c:454-523 | for every command word: terminates, and result, total, chip and buffer are those of the plan |
| `KermitCodec.QuoteRoundTrip` | u-boot/common/cmd_load.c:581-589 | for every byte string and legal quote character, the control-prefixed encoding decodes to the string with no quote pending, and holds no control character |
| `KermitCodec.FeedAllAppend` | u-boot/common/cmd_load.c:702-717 | decoding goes on across packets: feeding two pieces is feeding their concatenation |
| `KermitCodec.FrameParses` | u-boot/common/cmd_load.c:879-972 | every packet a sender can frame, short or long, passes length, header check, block check and end of line, and comes out as sent |
| `KermitCodec.AcceptedExactly` | u-boot/common/cmd_load.c:879-972 | exactly the intact packets are accepted: characters printable, length as stated, header check and block check right, end of line in place |
| `KermitPrefix.SpoiledAtOnce` | u-boot/common/cmd_load.c:879-972 | a spoiled packet is given up with the first character after which no continuation could be accepted, and with none before that |
| `KermitPrefix.Completable` | u-boot/common/cmd_load.c:879-972 | whatever the receiver waits in the middle of, some continuation is accepted |
| `KermitPrefix.ShownExactly` | u-boot/common/cmd_load.c:880-892 | an attempt shows the number of its second character iff the first two are printable |
| `KermitProtocol.ExactlyOnce` | u-boot/common/cmd_load.c:902-991 | for every run of spoiled, repeated and accepted packets, memory holds the decoding of exactly those data packets that were the last of their group and accepted, in order |
| `KermitProtocol.RunHolds` | u-boot/common/cmd_load.c:902-991 | the checkpoint always holds what counts without the last attempt |
| `KermitTransfer.CountAt` | u-boot/common/cmd_load.c:883-912 | which transmissions of a stop-and-wait transfer count, under every pattern of detected faults, wrong sequence numbers included |
| `KermitTransfer.TransferKeeps` | u-boot/common/cmd_load.c:883-912 | memory gets each packet's data as often as the packet counts, in order, under every such pattern |
| `KermitTransfer.LosslessExactlyWhen` | u-boot/common/cmd_load.c:883-912 | how often a data packet counts, and that it counts exactly once iff it is taken back as often as it is counted again |
| `KermitTransfer.CompleteExactlyWhen` | u-boot/common/cmd_load.c:883-912 | when nothing is counted again, all data arrive in order and once iff no packet with data is taken back |
| `KermitTransfer.ErrorLosesPacket` | u-boot/common/cmd_load.c:883-906 | transfers in which an accepted packet is taken back, by a spoiled header or by a wrong number |
| `KermitTransfer.ErrorDoublesPacket` | u-boot/common/cmd_load.c:902-912 | a transfer in which a packet is counted twice |
| `KermitReceiver.NumberMistaken` | u-boot/common/cmd_load.c:887-892 | one flipped bit in a sequence character shows the receiver another number |
| `KermitTransfer.FileArrives` | u-boot/common/cmd_load.c:812-992 | a file, quoted and cut into packets in any way, arrives byte for byte if each packet with data is taken back as often as it is counted again |
| `KermitReceiver.Receiver.KDataChar` | u-boot/common/cmd_load.c:668-717 | one character through escape and translation, the checkpoint unharmed |
| `KermitReceiver.Receiver.KDataRestore` | u-boot/common/cmd_load.c:662-701 | address and escape flag go back to the checkpoint |
| `KermitReceiver.Receiver.Chk1` | u-boot/common/cmd_load.c:591-599 | the folded sum of the string in the packet buffer |
| `KermitReceiver.Receiver.SendReply` | u-boot/common/cmd_load.c:601-634 | what goes on the line for an acknowledgement of either kind: padding, packet, end of line |
| `KermitReceiver.Receiver.HandleSendPacket` | u-boot/common/cmd_load.c:725-809 | takes over the parameters given and answers with as many |
| `KermitReceiver.Receiver.TakePacket` | u-boot/common/cmd_load.c:879-973 | each jump to the error label leaves sequence number and checkpoint as the protocol machine has them |
| `KermitReceiver.Receiver.ReceivePacket` | u-boot/common/cmd_load.c:879-990 | one turn of the loop is one step of the protocol machine |
| `KermitReceiver.Receiver.KRecv` | u-boot/common/cmd_load.c:812-992 | for every line of characters: how the reception ends, the state it leaves, every reply sent, and the size returned |
| `KermitReceiver.LineReceived` | u-boot/common/cmd_load.c:862-990 | packets framed one after the other with idle characters between are received as just those packets |
| `KermitReplies.ReplyOn` | u-boot/common/cmd_load.c:973-990 | each attempt puts one reply on the line, whatever settings are in force |
| `KermitReplies.RepliesReceived` | u-boot/common/cmd_load.c:973-990 | over every run the line sent back reads as one packet for each attempt, in order: type Y for an accepted one, N for a spoiled one, with the number shown, or the last one after a spoiled header, and the answer to an S packet |
| `KermitReplies.OfferIs` | u-boot/common/cmd_load.c:725-809 | that answer, octet by octet |
| `KermitReplies.SettingsTaken` | u-boot/common/cmd_load.c:740-790 | the settings taken over are those the sender encoded |
| `KermitReplies.CancelledBetween` | u-boot/common/cmd_load.c:862-875 | a ^C between packets ends the reception |
| `KermitReplies.BreakOnLine` | u-boot/common/cmd_load.c:862-990 | a break packet, octet by octet |
| `KermitReceiver.ReplyAccepted` | u-boot/common/cmd_load.c:610-634 | every acknowledgement and parameter packet passes the receiver's own checks |
| `EnvModel.TextValue` | u-boot/common/cmd_nvedit.c:316-324 | the value stored for a plain name is the arguments joined by spaces |
| `EnvModel.TextKey` | u-boot/common/cmd_nvedit.c:558-568 | a new entry has the key of the name it was made for |
| `EnvModel.ApplyKeeps` | u-boot/common/cmd_nvedit.c:153-330 | every call, whatever its outcome, keeps names unique, entries well formed and the list within the buffer |
| `EnvModel.RunKeeps` | u-boot/common/cmd_nvedit.c:153-330 | the same over every run |
| `EnvMap.ApplyIsChange` | u-boot/common/cmd_nvedit.c:153-330 | one call on the list is the same call on a finite map, with the same outcome |
| `EnvMap.RunIsChanges` | u-boot/common/cmd_nvedit.c:153-330 | over every run of sets and deletes each variable has exactly the value the bounded map gives it |
| `EnvMap.BytesFlat` | u-boot/common/cmd_nvedit.c:296-308 | the space the buffer takes is that of the map: name, `=`, value and NUL each |
| `EnvMap.OverflowExactly` | u-boot/common/cmd_nvedit.c:296-312 | a set fails for space iff the list without the old entry plus name, `=`, value and two NULs exceeds the buffer, and then only that name is gone |
| `EnvMap.RunKeepsOrder` | u-boot/common/cmd_nvedit.c:258-272 | variables a run does not name keep their entries and their relative order |
| `EnvMap.StoredIsLast` | u-boot/common/cmd_nvedit.c:296-324 | what was stored last stands at the end, behind the other variables |
| `EnvMap.LookupAfter` | u-boot/common/cmd_nvedit.c:174-330 | what one call does to each variable, in each outcome |
| `EnvMap.RefusedExactly` | u-boot/common/cmd_nvedit.c:181-254 | no call under an unguarded name, or for a variable that is not there, is refused; serial#, ethaddr, the console names and baudrate each exactly under their condition |
| `EnvMap.PlainCall` | u-boot/common/cmd_nvedit.c:153-330 | a call under an unguarded name deletes the variable, or gives it the joined arguments iff they fit, and it is gone if they do not |
| `EnvMap.JoinedWords` | u-boot/common/cmd_nvedit.c:316-324 | the arguments are separated by spaces |
| `EnvMap.WriteOnceStep` | u-boot/common/cmd_nvedit.c:184-200 | a call under the plain name is refused; one under an alias deletes or replaces |
| `EnvMap.WriteOnceExactly` | u-boot/common/cmd_nvedit.c:184-200 | a write-once variable keeps its value through a call iff the name is no alias, or the value asked for is the one it has |
| `EnvMap.WriteOnceForever` | u-boot/common/cmd_nvedit.c:184-200 | over any run without aliases serial# and ethaddr keep their values |
| `EnvMap.SerialDeleted` | u-boot/common/cmd_nvedit.c:184-200 | the alias `serial#=` deletes a serial number |
| `EnvText.FlatShape` | u-boot/common/cmd_nvedit.c:258-297 | two NULs in a row stand at the end of the list and nowhere else |
| `EnvStore.Environment.EnvMatch` | u-boot/common/cmd_nvedit.c:558-568 | the position of the value iff the keys agree, else -1 |
| `EnvStore.Environment.Search` | u-boot/common/cmd_nvedit.c:174-179 | finds the entry for the name, its end and its value |
| `EnvStore.Environment.ShiftDown` | u-boot/common/cmd_nvedit.c:265-270 | the overlapping copy moves the rest of the list down and stops at its two NULs |
| `EnvStore.Environment.Delete` | u-boot/common/cmd_nvedit.c:258-273 | takes out the only, the last or a middle entry, and the buffer holds the rest |
| `EnvStore.Environment.Append` | u-boot/common/cmd_nvedit.c:293-327 | the new entry goes behind the others iff it fits |
| `EnvStore.Environment.Guard` | u-boot/common/cmd_nvedit.c:181-256 | the checks made before a deletion |
| `EnvStore.Environment.SetEnv` | u-boot/common/cmd_nvedit.c:153-330 | the buffer holds the list after the call, and the return code tells success |
| `EnvStore.Environment.GetEnv` | u-boot/common/cmd_nvedit.c:486-507 | the position of the variable's value, or none iff there is no such variable |
| `MtdSize.MemsizeRoundTrip` | u-boot/common/cmd_jffs2.c:191-238 | memsize_parse inverts memsize_format for every 32-bit size, whatever follows that is no digit and no suffix |
| `MtdNumbers.NumberIs` | u-boot/lib_generic/vsprintf.c:24-49 | every number, octal, decimal or hexadecimal in either case and of any length, is read modulo the word size |
| `MtdNumbers.SizeIs` | u-boot/common/cmd_jffs2.c:191-211 | with each of the six suffixes, the number times 1024, its square or its cube, modulo the word size |
| `MtdSize.SimpleStrtoul` | u-boot/lib_generic/vsprintf.c:24-49 | the loop reads octal, decimal and hexadecimal numbers modulo the word size |
| `MtdSize.ReadMemsize` | u-boot/common/cmd_jffs2.c:191-211 | the suffixes that fall through multiply by 2 to the 10, 20 or 30 |
| `MtdParts.AcceptedPart` | u-boot/common/cmd_jffs2.c:360-390 | an accepted partition is not empty, lies inside the device without wrap, and is accepted again |
| `MtdParts.NandAccepted` | u-boot/common/cmd_jffs2.c:323-390 | a NAND partition is accepted iff it is a positive number of whole erase blocks inside the device |
| `MtdParts.UnsupportedRefused` | u-boot/common/cmd_jffs2.c:323-390 | on a chip of any other type none is |
| `MtdParts.PartReads` | u-boot/common/cmd_jffs2.c:540-648 | reading back one printed partition: everything comes back, and exactly when it fails |
| `MtdText.SlotIs` | u-boot/common/cmd_jffs2.c:482-507 | where the sorted insertion puts a partition |
| `MtdText.PartsRead` | u-boot/common/cmd_jffs2.c:844-865 | the partitions of a device come back with offsets left out where they follow by themselves |
| `MtdText.DeviceReads` | u-boot/common/cmd_jffs2.c:792-917 | a device comes back with its partitions sorted anew, or is rejected |
| `MtdText.RoundTrip` | u-boot/common/cmd_jffs2.c:1032-1138 | what parsing the generated text gives, for every list of regular devices: the same sizes, offsets, names and flags with each device's partitions sorted anew, or failure |
| `MtdOrder.SortTurnsGroups` | u-boot/common/cmd_jffs2.c:482-507 | sorting a sorted list anew turns the partitions at each offset around, and fails exactly for two at offset 0 |
| `MtdOrder.SortStaysExactly` | u-boot/common/cmd_jffs2.c:482-507 | the list stays as it was iff the partitions at each offset read the same backwards |
| `MtdOrder.StrictIsSymmetric` | u-boot/common/cmd_jffs2.c:482-507 | which is so when no two offsets are equal |
| `MtdOrder.RoundTripExactly` | u-boot/common/cmd_jffs2.c:1032-1138 | the device list comes back as it was iff no partition is below 4096, only the last of a device has the special size, at most one is at offset 0, and those at each offset read the same backwards |
| `MtdSound.AcceptedText` | u-boot/common/cmd_jffs2.c:1315-1362 | whatever text is accepted gives devices of known ids, no chip twice, each with partitions that are accepted, printable and in order |
| `MtdSound.GeneratedFromParsed` | u-boot/common/cmd_jffs2.c:1032-1362 | so the text generated from any accepted text reads back the same, iff no size is below 4096, only the last has the special size, and those at one offset read the same backwards |
| `MtdSound.SortAllFacts` | u-boot/common/cmd_jffs2.c:461-508 | sorting fails iff two partitions are at offset 0, and otherwise gives the same partitions in order |
| `MtdSound.PartEnds` | u-boot/common/cmd_jffs2.c:360-640 | a definition is read only if its size is at least 4096 and it ends at a comma, which must not follow a fill-up partition, or at the end of a device or of the text |
| `MtdOrder.TextToTheLetter` | u-boot/common/cmd_jffs2.c:1032-1138 | the text of two devices, character by character |
| `MtdOrder.FillUpRefused` | u-boot/common/cmd_jffs2.c:360-363 | a device list made with a fill-up partition whose text is refused |
| `MtdOrder.EqualOffsetsSwapped` | u-boot/common/cmd_jffs2.c:493-504 | two partitions at one offset change places |
| `MtdParser.ReadPart` | u-boot/common/cmd_jffs2.c:540-648 | the cursor through one definition, with every error exit |
| `MtdParser.ValidateNor` | u-boot/common/cmd_jffs2.c:274-312 | true iff both ends of the partition are sector boundaries of its bank |
| `MtdParser.Validate` | u-boot/common/cmd_jffs2.c:323-390 | accepts and fills in the size as specified, with 32-bit wrap |
| `MtdParser.InsertSorted` | u-boot/common/cmd_jffs2.c:461-508 | the list walk inserts before the first partition that does not start earlier, and refuses a second one at offset 0 |
| `MtdParser.ReadParts` | u-boot/common/cmd_jffs2.c:837-865 | the loop with its running offset reads what the grammar says |
| `MtdParser.ReadDevice` | u-boot/common/cmd_jffs2.c:792-917 | id, partitions, separator and sorting of one device |
| `MtdParser.ReadMtdparts` | u-boot/common/cmd_jffs2.c:1315-1362 | the device list, or none at all when anything is wrong |
| `MtdPrinter.Printer.PutPart` | u-boot/common/cmd_jffs2.c:1073-1119 | writes one partition, its offset only where there is a gap, iff it fits |
| `MtdPrinter.Printer.Generate` | u-boot/common/cmd_jffs2.c:1032-1149 | succeeds iff everything behind the prefix fits buflen - 1, and then the buffer is prefix, text and NUL |
| `MtdList.AddKeeps` | u-boot/common/cmd_jffs2.c:461-529 | an addition keeps order, count and bounds, and the current number stays with its partition iff it need not go beyond 8 bits |
| `MtdList.AddExactly` | u-boot/common/cmd_jffs2.c:461-529 | an addition succeeds iff the partition is accepted and offset 0 is not taken twice |
| `MtdList.DeleteKeeps` | u-boot/common/cmd_jffs2.c:399-432 | a deletion keeps order and count; the current number goes to 0 with its partition and otherwise follows it iff the deleted one is no later duplicate of its offset |
| `MtdList.RunFollows` | u-boot/common/cmd_jffs2.c:399-529 | over every run of additions and deletions, until the device goes with its last partition, the invariant holds and the current number names the partition it is meant to name |
| `MtdList.StrictRunFollows` | u-boot/common/cmd_jffs2.c:399-529 | for runs that only add at new offsets this needs no condition on the deletions |
| `MtdList.StrictKept` | u-boot/common/cmd_jffs2.c:461-529 | with all offsets different the list stays strictly sorted |
| `MtdList.StrictNeverMisses` | u-boot/common/cmd_jffs2.c:399-432 | and then no deletion misleads the current number |
| `MtdList.DuplicateAstray` | u-boot/common/cmd_jffs2.c:418-421 | two partitions at one offset: deleting the second leaves number 255 |
| `MtdList.PartList.CurrentInfo` | u-boot/common/cmd_jffs2.c:1715-1746 | the partition with the current number, if there is one |
| `MtdList.PartList.PartSortAdd` | u-boot/common/cmd_jffs2.c:461-508 | the list and the current number after an insertion |
| `MtdList.PartList.PartAdd` | u-boot/common/cmd_jffs2.c:517-529 | validation, insertion and count |
| `MtdList.PartList.PartDel` | u-boot/common/cmd_jffs2.c:399-432 | the list, count and current number after a deletion |
| `FlashRanges.FillMeans` | u-boot/common/cmd_flash.c:198-278 | for every range and every board, its chips in any order: accepted exactly when the ends fit, something is picked exactly when it starts on a sector, and the picked sectors cover the range up to where the flash breaks off; all this iff the walk does not wrap |
| `FlashRanges.CoversExactlyWhen` | u-boot/common/cmd_flash.c:198-278 | a successful selection covers the whole range iff the flash is unbroken from its first to its last address and the walk does not wrap |
| `FlashRanges.WrapPicks` | u-boot/common/cmd_flash.c:245-264 | a walk wraps when it comes to the end of the address space and a chip at address 0 comes later in the table; the range is then accepted and address 0 is picked, which is not in it |
| `FlashRanges.AscendingNeverWraps` | u-boot/common/cmd_flash.c:198-278 | with the chips in ascending order that cannot happen |
| `FlashRanges.FillCounts` | u-boot/common/cmd_flash.c:245-264 | the count is the number of picked sectors, all of which exist |
| `FlashRanges.GapCutsShort` | u-boot/common/cmd_flash.c:245-276 | a concrete board on which a range is accepted and cut short |
| `FlashRanges.ReverseCutsShort` | u-boot/common/cmd_flash.c:265-276 | a board with adjacent chips in reverse order on which one is, although the flash has no gap |
| `FlashDriver.ScanBank` | u-boot/common/cmd_flash.c:228-244 | the loop over sectors finds the ones that start and end the range |
| `FlashDriver.FillSectRanges` | u-boot/common/cmd_flash.c:198-278 | arrays, count and return code are those of the plan |
| `FlashDriver.FlashChips.SectProtect` | u-boot/common/cmd_flash.c:754-801 | code 0 iff the range is accepted and starts on a sector, and then exactly the bits of its sectors are set, as far as the flash is unbroken; otherwise code 1 and none |
| `FlashDriver.FlashChips.SectErase` | u-boot/common/cmd_flash.c:446-481 | the picked ranges are erased bank by bank up to the first failure; when the range is accepted, starts on a sector and nothing fails the code is 0, and code 0 means that exactly its sectors were erased |
| `FlashPartition.WholeSectors` | u-boot/common/cmd_jffs2.c:274-312 | an accepted NOR partition occupies whole sectors of its bank |
| `FlashPartition.NorAccepted` | u-boot/common/cmd_jffs2.c:274-312 | a NOR partition is accepted iff it is a run of whole sectors of its bank |
| `FlashPartition.OneBank` | u-boot/common/cmd_flash.c:218-264 | with the chips in any order, a range of whole sectors of one bank picks just these, iff no wrap leads to a chip at address 0 behind it |
| `FlashPartition.PartitionErased` | u-boot/common/cmd_flash.c:389-405 | any accepted NOR partition, turned into addresses, is accepted by the range mapping, which picks exactly its sectors in its own bank and none elsewhere, iff it does not end at the last address of all in front of a chip at address 0 |
| `FlashPartition.NoneBehind` | u-boot/common/cmd_flash.c:218-264 | with the chips in ascending order that exception cannot occur |
| `FlashPartition.ErasePartition` | u-boot/common/cmd_flash.c:389-405 | erasing an accepted partition makes one call, for exactly its sectors in its own bank, and returns its result |
| `BootImage.TableInMemory` | u-boot/common/cmd_bootm.c:301-308 | the words of the length table and the zero behind it, for every image |
| `BootImage.NetworkOrder` | u-boot/common/cmd_bootm.c:301-308 | words of the table have their most significant octet first |
| `BootImage.PartInMemory` | u-boot/README:2936-2941 | each part of an image starts on the next word boundary |
| `BootImage.Kernel` | u-boot/common/cmd_bootm.c:301-308 | data and len denote exactly the first part, whatever the number of parts |
| `BootImage.Ramdisk` | u-boot/common/cmd_bootm.c:729-746 | data and len denote exactly the second part |
| `BootImage.Place` | u-boot/common/cmd_bootm.c:595-801 | the addresses computed, with wrap, and exactly when they come out fine |
| `BootImage.TextFine` | u-boot/common/cmd_bootm.c:595-611 | command line and board info are whole, in order, and below stack and kernel reach |
| `BootImage.PlacementExactly` | u-boot/common/cmd_bootm.c:769-801 | command line, board info and ramdisk are disjoint, below the stack, aligned and under initrd_high, and the end handed on is the ramdisk's end, iff the subtraction that places the ramdisk does not wrap |
| `BootImage.TextTight` | u-boot/common/cmd_bootm.c:595-601 | limit, command line and board info are aligned to 16 and waste no more than that |
| `BootImage.RamdiskTight` | u-boot/common/cmd_bootm.c:769-801 | the ramdisk ends less than a page below stack, initrd_high or board info |
| `BootImage.SmallLimitAstray` | u-boot/common/cmd_bootm.c:785-801 | a concrete initrd_high for which it wraps |
| `LogStream.StreamLeveled` | u-boot/common/cmd_log.c:216-264 | over every sequence of calls each line of the stream starts with <0> to <7> |
| `LogStream.SplitExactly` | u-boot/common/cmd_log.c:216-264 | cutting a call in two makes no difference to the stream iff the cut does not go through a level |
| `LogStream.LineMarked` | u-boot/common/cmd_log.c:216-264 | each line goes to the stream as it is, with <4> in front unless it starts with <0> to <7> |
| `LogStream.PartMarked` | u-boot/common/cmd_log.c:228-264 | so does a line that is not finished, and its level is remembered |
| `LogStream.TornExample` | u-boot/common/cmd_log.c:127-133 | a level logged in two calls gets another one in front |
| `LogBuffer.WindowGrows` | u-boot/common/cmd_log.c:245-249 | one more character in the ring, over the oldest one when it is full, also where the start wraps |
| `LogBuffer.Log.Store` | u-boot/common/cmd_log.c:244-251 | the ring keeps holding the last 16384 characters of the stream |
| `LogBuffer.Log.OpenLine` | u-boot/common/cmd_log.c:228-242 | the level is recognised, or written over the characters in front of the line |
| `LogBuffer.Log.Printk` | u-boot/common/cmd_log.c:216-264 | the stream grows by the marked line, the ring holds its end, and the level carries over |
| `Eeprom.BlockSelected` | u-boot/common/cmd_eeprom.c:145 | with disjoint bits the device recovers the block number from the selecting octet |
| `Eeprom.BurstInside` | u-boot/common/cmd_eeprom.c:188-193 | a burst inside a page writes what is wanted where it is wanted |
| `Eeprom.BurstWraps` | u-boot/common/cmd_eeprom.c:188-193 | one over the end of the page does not |
| `Eeprom.Bus.EepromRead` | u-boot/common/cmd_eeprom.c:114-163 | on success the octets from offset on, for any page and transfer size; it succeeds iff every transfer it makes is acknowledged |
| `Eeprom.Bus.EepromWrite` | u-boot/common/cmd_eeprom.c:174-328 | on success exactly the octets from offset on are those of the buffer; nothing outside changes in any case; it succeeds iff every transfer it makes is acknowledged |
| `Eeprom.WriteThenRead` | u-boot/common/cmd_eeprom.c:114-328 | what was written is read back, and without faults both succeed |
| `Floppy.ChsExact` | u-boot/common/cmd_fdc.c:309-313 | track, head and sector exist and recombine to the block number |
| `Floppy.HandedPiece` | u-boot/common/cmd_fdc.c:527-566 | when a transfer comes to its end, and what stands in the buffer then |
| `Floppy.PieceExactly` | u-boot/common/cmd_fdc.c:527-545 | that is the wanted data iff the read did not break off within its last seven octets, or by chance |
| `Floppy.Drive.PiecesExactly` | u-boot/common/cmd_fdc.c:515-582 | the transfers that complete leave the blocks asked for iff each of them is right |
| `Floppy.Drive.IssueRead` | u-boot/common/cmd_fdc.c:305-396 | the controller hands out the blocks from the block number to the end of its track side |
| `Floppy.Drive.TakeOctets` | u-boot/common/cmd_fdc.c:527-566 | completes iff enough octets are handed out, and touches nothing in front of its place |
| `Floppy.Drive.ReadData` | u-boot/common/cmd_fdc.c:482-598 | whenever it succeeds the buffer holds what the completed transfers handed out, which is the blocks in order iff each of them is right, and every command was taken; when all commands are taken it succeeds iff at most 24 reads break off early; no read crosses a track side; it always ends |
| `Floppy.Drive.Recover` | u-boot/common/cmd_fdc.c:541-560 | every fifth failure leads to a recalibration and a seek, four times; the one after these 24 ends the read |
| `Floppy.LateBreak` | u-boot/common/cmd_fdc.c:527-545 | a successful read with status octets at its end |

## Left out

- NandDevice.NandChip.ReadWrite: counts in whole pages of 512 bytes on 8-bit chips; columns inside a page, 256-byte pages, 16-bit buses and the JFFS2 clean marker are not modelled.
- NandDevice.NandChip.ReadWrite: requires enough good blocks for a skipping walk, because the driver otherwise runs on beyond the chip for ever (`cmd_nand.c:411`).
- NandDevice.NandChip.WritePage: from column 0; for a start inside a page the driver sends the column to the chip and yet transfers a whole page with its out-of-band bytes from there (`cmd_nand.c:1124-1139`), so that the outcome depends on how the chip treats what runs over the end of its page.
- NandDevice.NandChip.ReadEcc: whole pages from column 0, for the same reason (`cmd_nand.c:928-933`).
- NandDevice.NandChip.WriteEcc: whole pages only; for other lengths the test at `cmd_nand.c:1293` looks at the whole length instead of the rest.
- NAND: erase, the read cache, program failures and write protection, and read-back verification.
- KermitReceiver.Receiver.KRecv: when the line runs dry inside a packet, where the C code waits for ever, only the replies sent and the settings are stated.
- Kermit: damage that the block check does not find; what such a packet holds is taken as sent.
- Kermit: the unused counters (`os_data_count`, `os_data_state`), the S-record formats, and baud-rate changes around a download.
- EnvStore.Environment.SetEnv: whether the console, the serial line or the user takes a setting is a parameter; the effects of a setting outside the buffer (baud rate, addresses, boot file) and the checksum are not modelled. A value given as a null pointer together with an argument count of three is taken as no value.
- Environment: `getenv_r`, `askenv`, `printenv` and saving.
- MtdText.RoundTrip: names that the parser generates itself are not part of the text; such partitions come back without a name of their own, as they went.
- MtdText.RoundTrip: no chip occurs twice in the device list, which the parser and the device list itself ensure.
- MtdList.RunFollows: the deletion of the last partition removes the device and ends the run; which device becomes current then is not modelled.
- mtdparts: `mtdids` parsing, `mtdparts add`, saving to environment variables, memory allocation.
- FlashRanges.FillMeans: chips found have at least one sector, their sectors ascend, and no two chips overlap.
- Flash: parsing of address arguments, sector numbers given by the user, hardware protection, data flash.
- BootImage.PlacementExactly: for a copied ramdisk, without a log buffer in memory; there must be room for command line and board info above the first page.
- Boot: checksums, decompression, copying in chunks, and all other operating systems.
- LogBuffer.Log.Printk: the echo of messages to the console; lines must fit the scratch buffer.
- Log: `log show`, and taking over an old buffer at start.
- Eeprom.Bus.EepromWrite: a transfer that is not acknowledged is taken to change nothing; the control register of the X40430 and SPI are not modelled.
- Floppy.Drive.ReadData: the controller is a script of answers: each read is intact or breaks off and hands out seven status octets; time-outs, interrupts and the status of a completed read, which the code does not look at, are not modelled.
- SPI, PCI, MII, date, video and IDE commands, the disassembler, and everything outside `common/` except the number reader.
