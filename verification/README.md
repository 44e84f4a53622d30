# morsectrl in Dafny

morsectrl configures a Wi-Fi HaLow chip. This project models the parts of it that carry a
protocol or a format, and proves what they promise over every input, every run of the link and
every interleaving.

The heart is the memory transport over SPI (`transport/sdio_over_spi.c`). A read or write of
any length is cut at 64 kB windows; each window is selected by three CMD52 register writes and
then moved by CMD53s, blocks of 512 octets first and a word-aligned rest after them; each
command is an octet stream with CRC7, start tokens, CRC16 and junk between them. The other end
of the wire is a card (`SdioChip`) that answers octet for octet: it has three window registers
in front of a 32-bit memory, insists on every check, and serves word-aligned accesses inside
the selected window and nothing else. A link is a card and a *weather*: what happens to
transaction number n, which is answered at some pace (junk lags, status octets and
acknowledgement are free, so an answer can be late, bad or missed), not answered at all, or fails
on the bus. The outcome of every command, its return value included, is worked out from the
octets exchanged, and everything about the link is proved for all weathers. The one thing that is
not followed is a read beyond a response buffer, which has no meaning in C: it ends the command
with an error.

The files build on one another:

| files | what they hold |
| --- | --- |
| `Gf2`, `Crc` | division of polynomials over GF(2) and its error detection; `crc7_gen` and `crc16_gen` as that division |
| `SdioCommand`, `SdioFrames` | the command octets and their reading; the streams of a CMD53 and what each side recovers from the other's |
| `SdioChip`, `SdioOverSpi` | the card; `sdio_over_spi_cmd52` and `sdio_over_spi_cmd53` over octet buffers, searched in place |
| `Transfers`, `SdioHost` | whole transfers as a function of how each transaction goes; `sdio_over_spi_memblock_common` proved against it |
| `Refinement`, `Faults`, `TransRaw` | a clean transfer is one plain copy, a read returns what was written; what one lost transaction does; `transraw_memtest` |
| `Mailbox` | `ftdi_spi_send` and the firmware as a state machine over all interleavings |
| `FtdiSpi` | the choice of the SPI and the reset port |
| `Elf` | the off-chip statistics table and the two sections of a board configuration file |
| `Stats`, `Utilities`, `Session`, `WordWrap`, `Bits`, `Gpio` | the statistics stream, numbers in text, the standby session file, help text, `popcount` and `ctz`, and the GPIO listing |
| `Octets`, `Options` | what the others share |

The SDIO commands follow sections 5.1 to 5.3 of the SDIO Simplified Specification; the checks
and tokens follow sections 4.5 and 7.3.3 of the SD Physical Layer Simplified Specification.

## What turned out not to hold

Where a promise fails, the condition under which it does hold is proved exactly.

- A 0 from `sdio_over_spi_memblock_common` does not mean success: the return value of one CMD53 is
  overwritten by the next (`transport/sdio_over_spi.c:861-895`). It means, on every link, that every
  command succeeded and the transfer is the plain copy, exactly when the transfer needs a single
  CMD53 (`Faults.ReturnIsHonest`). Otherwise, with the first data command lost, 0 is returned and
  its octets are not written (`Faults.ZeroDespiteLoss`, `Faults.FirstChunkLost`).
- The buffer's data pointer is restored on every link exactly when the transfer stays inside one
  window: a keyhole failure in a later window returns before the pointer is put back
  (`transport/sdio_over_spi.c:849-854`, `Faults.PointerComesBack`, `Faults.SecondKeyholeLost`).
- The CMD53 token scanner accepts 28 junk octets before each block, but the response buffer holds
  that much junk for at most six blocks (`Faults.ScannerOutrunsBuffer`).
- `ftdi_spi_send` reads only its own response exactly when the firmware has nothing outstanding on
  entry (`Mailbox.OwnResponseIff`, with the schedule of `Mailbox.StaleResponse`).
- A 0 from `ftdi_spi_send` does not mean that there is a response: it always does exactly when the
  firmware keeps no command area, and then there is never a 0 (`Mailbox.ZeroIsHeardIff`, with the
  schedule of `Mailbox.TimeoutReturnsZero`). A 0 without one means 30 polls that found the status
  bit clear (`Mailbox.ZeroMeans`).
- The length that `ftdi_spi_send` hands its caller is the firmware's length field less 4, unchecked:
  it stays within the buffer exactly when that field does (`Mailbox.TrimmedIsWithinIff`).
- The statistics loop compares a record's length with what was left before the record's own header
  was read. It reads beyond the response exactly when complete records are followed by one that is
  up to four octets too long (`Stats.OverrunIff`; an input is in `Stats.OverrunHappens`).
- `get_line` cuts short words too, when blanks at the start of the line have used up its window:
  `WordWrap.WordsAreCutIff` says when and `WordWrap.ShortWordIsCut` shows a word of six letters.
- The JSON that `gpio_control info -j` prints is complete exactly when the mask is not zero and no
  pin's reply ends the listing (`Gpio.JsonIsCompleteIff`). For `0x0` nothing is printed
  (`Gpio.ZeroMaskPrintsNothing`), and an error on the second of two pins leaves the list open after
  a comma (`Gpio.FatalReplyLeavesListOpen`).

## Model

| member | source | states |
|---|---|---|
| Gf2.RegisterDivides | utilities.c:288-314 | for every generator and message, shifting the message through the feedback register leaves m(x)·x^deg = q(x)·g(x) + register |
| Gf2.DivisionIsUnique | utilities.c:288-314 | quotient and remainder are unique, so the register is the remainder |
| Gf2.UndetectedIffMultiple | utilities.c:316-326 | an error passes the check if and only if it is a multiple of the generator |
| Gf2.MultiplesAreWide | utilities.c:316-326 | a non-zero multiple of a generator never fits in as many bits as the generator's degree |
| Gf2.BurstDetected | utilities.c:316-326 | every non-empty burst no wider than the degree is detected, in messages of any length and at any position |
| Gf2.OddErrorDetected | utilities.c:295-311 | with an even number of generator terms every odd number of flipped bits is detected |
| Gf2.RegisterParity | utilities.c:295-311 | the register's parity is the parity of all bits that went through it |
| Gf2.CodewordIsZero | utilities.c:288-326 | a message followed by its check bits leaves the register at zero |
| Crc.Crc16Gen | utilities.c:288-314 | the two loops over a 32-bit register that is never masked compute, in its low half, the check word of the buffer |
| Crc.Crc16IsRemainder | utilities.c:288-314 | that check word is the remainder of m(x)·x^16 by x^16 + x^12 + x^5 + 1, for every buffer |
| Crc.Crc16Check | utilities.c:316-326 | accepts exactly the check word of the buffer |
| Crc.Crc16DetectsBursts | utilities.c:316-326 | damage within 16 consecutive bits of a buffer and its check word is never accepted |
| Crc.Crc16DetectsOddDamage | utilities.c:295-326 | an odd number of damaged bits is never accepted |
| Crc.Crc16OfCodeword | utilities.c:288-326 | the check word of a buffer followed by its check word, high octet first, is zero |
| Crc.Crc7Gen | utilities.c:262-286 | for every octet-multiple bit count up to 64 the register masked once per octet ends in the seven check bits |
| Crc.Crc7IsRemainder | utilities.c:262-286 | those bits are the remainder of m(x)·x^7 by x^7 + x^3 + 1 |
| Crc.Crc7DetectsBursts | transport/sdio_over_spi.c:167-178 | damage within 7 consecutive bits of a command and its CRC7 is always seen |
| SdioCommand.CalcCmdCrcOctet | transport/sdio_over_spi.c:167-178 | packing five octets into a number and shifting in the stop bit yields an octet whose bits are the remainder of the five octets by x^7 + x^3 + 1 and a set bit |
| SdioCommand.DirectBits | transport/sdio_over_spi.c:363-385 | the 40 bits of every CMD52 before its CRC7, field by field: start, direction, 52, R/W, function, stuff, 17-bit address, stuff, data |
| SdioCommand.ExtendedBits | transport/sdio_over_spi.c:611-620 | the 40 bits of every CMD53: start, direction, 53, R/W, function, block mode, incrementing address, 17-bit address of which 16 bits are used, 9-bit count |
| SdioCommand.DamagedCommandIsUnreadable | transport/sdio_over_spi.c:167-178 | a command with damage confined to 7 consecutive of its 48 bits is never read |
| SdioCommand.ValueOfTruncate | transport/sdio_over_spi.c:363-376 | storing a number in an octet keeps exactly its remainder by 256 |
| SdioCommand.DirectRoundTrip | transport/sdio_over_spi.c:363-389 | a reader that checks the polynomial remainder and the stop bit recovers direction, function, 17-bit address and data of every CMD52 |
| SdioCommand.ExtendedRoundTrip | transport/sdio_over_spi.c:609-621 | the same for CMD53: direction, function, block mode, 16-bit address and 9-bit count, 512 sent as 0 |
| SdioFrames.SplitAt | transport/sdio_over_spi.c:628-644 | block i of a payload is its octets from i·size on |
| SdioFrames.TakeSlots | transport/sdio_over_spi.c:623-655 | a card that skips junk to each start token and divides every block by the generator recovers the whole payload from the frame, whatever the payload holds, tokens and junk included |
| SdioFrames.SlotParts | transport/sdio_over_spi.c:628-654 | a slot is its token, the block, two octets whose bits are the remainder of the block by x^16 + x^12 + x^5 + 1 in the order they are sent, and nothing but 0xFF; block and check octets together have check word zero |
| SdioFrames.SlotAt | transport/sdio_over_spi.c:628-654 | slot i of a frame begins i slot lengths into it and is the one of block i |
| SdioFrames.IntactSlotParts | transport/sdio_over_spi.c:701-722 | the card sends a read block between a start token and its remainder |
| SdioFrames.PieceIff | transport/sdio_over_spi.c:701-727 | the host takes a block if and only if it finds a token, the block fits, and the two octets after it hold its remainder |
| SdioFrames.TokenFoundIff | transport/sdio_over_spi.c:433-454 | a token is found if and only if the first octet that is not 0xFF comes before the last of the window and is 0xFC or 0xFE |
| SdioFrames.AckFoundIff | transport/sdio_over_spi.c:464-503 | an acknowledgement is found if and only if the first octet that is not 0xFF comes before the last of the window and accepts |
| SdioFrames.SucceedsIff | transport/sdio_over_spi.c:188-219 | a response reports success if and only if it is 0x00 or 0x01 |
| SdioFrames.AcceptedIff | transport/sdio_over_spi.c:464-503 | an octet accepts a block if and only if its last five bits are 00101; a CRC error and a write error do not |
| SdioFrames.ParseReadSlots | transport/sdio_over_spi.c:701-727 | for every pace and however the blocks arrive, the host keeps exactly the blocks up to the first that is late, cut short by the buffer or fails its check, and succeeds when that is all |
| SdioFrames.OnTimeIff | transport/sdio_over_spi.c:433-454 | all blocks are taken if and only if no lag outlasts the search and the whole stream fits the buffer |
| SdioFrames.AnswersToSlots | transport/sdio_over_spi.c:681-698 | the card's answers to the frame fall one into each block's slot |
| SdioFrames.AcksAreSeenIff | transport/sdio_over_spi.c:464-503 | all acknowledgements are found if and only if each comes before the last octet of its gap and accepts, one junk octet being passed over |
| SdioFrames.AcceptedIsSent | transport/sdio_over_spi.c:714-722 | a block that passes the check, it and its check word damaged by at most one burst, arrived as it was sent |
| SdioFrames.DamageNeverDelivered | transport/sdio_over_spi.c:701-727 | of a card's stream in which every block is damaged by at most one burst the host keeps only blocks that were sent, in order, and reports success if and only if nothing was damaged, late or cut short |
| SdioOverSpi.TransportBuff.Alloc | transport/ftdi_spi.c:555-586 | capacity is the size rounded up to a word and the padding is junk |
| SdioOverSpi.CmdFindResp | transport/sdio_over_spi.c:188-219 | the in-place search is the first octet that is neither junk nor an early token, plus one more status octet |
| SdioChip.RespondsIff | transport/sdio_over_spi.c:188-219 | the response is found if and only if it comes before the last octet of the window as 0x00 or 0x01, one 0xFF or 0xFE being passed over |
| SdioOverSpi.Cmd53FindToken | transport/sdio_over_spi.c:433-454 | the in-place search is the first octet that is not junk, if it is a start token |
| SdioOverSpi.Cmd53FindAck | transport/sdio_over_spi.c:464-503 | the in-place search is the first octet that is not junk, if it accepts the block |
| SdioOverSpi.BuildCmd52 | transport/sdio_over_spi.c:351-389 | the buffer holds 0xFF, the bits of the command field by field, their remainder by x^7 + x^3 + 1 with the stop bit, and room for the response |
| SdioOverSpi.BuildCmd53 | transport/sdio_over_spi.c:606-621 | the buffer starts with 0xFF, the bits of the command field by field and their remainder by x^7 + x^3 + 1 with the stop bit |
| SdioOverSpi.WriteSlot | transport/sdio_over_spi.c:628-654 | in the array: start token, block, the octets of its remainder in the order of the division, 0xFF to the end of the slot, and nothing else changes; the CRC16 of block and check octets is zero |
| SdioOverSpi.FillWrite | transport/sdio_over_spi.c:623-655 | header, gap and slots tile the whole transaction: every octet of it is determined |
| SdioOverSpi.TransactionSizes | transport/sdio_over_spi.c:543-585 | how many octets each kind of transaction takes |
| SdioOverSpi.BlockWriteLayout | transport/sdio_over_spi.c:623-655 | a block-mode write has its slot for payload octets 512i to 512i + 511 at octets 15 + 765i to 15 + 765(i + 1), behind token 0xFC and with 250 octets of junk after it |
| SdioOverSpi.ByteWriteLayout | transport/sdio_over_spi.c:623-655 | a byte-mode write has one slot at octet 15, behind token 0xFE and with 30 octets of junk after it |
| SdioOverSpi.WriteSucceedsIff | transport/sdio_over_spi.c:657-698 | a served write returns 0 if and only if the response succeeds in time and every block is accepted within its gap of 250 octets, 30 in byte mode |
| SdioOverSpi.ReadSucceedsIff | transport/sdio_over_spi.c:657-727 | a served read returns 0 if and only if the response succeeds in time, no token lags by 29 octets, 249 in byte mode, and the stream fits the buffer |
| SdioOverSpi.CheckAcks | transport/sdio_over_spi.c:681-698 | succeeds exactly when every slot holds an acknowledgement |
| SdioOverSpi.ReadBlocks | transport/sdio_over_spi.c:701-727 | copies exactly the blocks the stream parses to, on failure the ones before the bad one, and returns 0 exactly when that is all of them |
| SdioOverSpi.WriteOutcome | transport/sdio_over_spi.c:623-698 | a card of any pace that serves the write stores the host's payload at the 32-bit address, and the host finds exactly the answers the card gave; what is not served is met with silence |
| SdioOverSpi.ReadOutcome | transport/sdio_over_spi.c:657-727 | from a card of any pace exactly the blocks that are on time are read back, as they are in memory |
| SdioOverSpi.Transport.Cmd52 | transport/sdio_over_spi.c:346-405 | on every link: 0 exactly when the response is found, and the register written whenever the card took the command |
| SdioOverSpi.Transport.Cmd53Write | transport/sdio_over_spi.c:513-734 | on every link: return value, chip and buffer are the outcome of the exchange; a served write is stored even when its answer is late or bad |
| SdioOverSpi.Transport.Cmd53Read | transport/sdio_over_spi.c:513-734 | on every link: return value, chip and buffer are the outcome of the exchange, the blocks before the first bad one included |
| SdioHost.SetupKeyhole | transport/sdio_over_spi.c:787-816 | on every link: three register writes, the first that does not return 0 ending them |
| SdioHost.SectionRoom | transport/sdio_over_spi.c:840-841 | the 32-bit sum wraps in the last window and the distance is then too large, never too small |
| SdioHost.MemblockCommon | transport/sdio_over_spi.c:818-907 | on every link the whole loop over windows, with its in-place buffer, is the transfer function: chip, buffer, data pointer, transaction count and return value |
| Transfers.WindowAligned | transport/sdio_over_spi.c:837-841 | a window that is not the last ends on a word and on the boundary; its chunks stay inside the padded buffer |
| Refinement.KeyholeSelects | transport/sdio_over_spi.c:787-816 | when the keyhole returns 0 the three registers rebuild the upper half of the address |
| Refinement.KeyholeLeaves | transport/sdio_over_spi.c:787-816 | on every link bits 16 to 23 of the address go into register 0x1_0000, bits 24 to 31 into 0x1_0001 and 2 into 0x1_0002, in this order, up to the first write that does not return 0; only writes that the card hears take place |
| Refinement.PlanIsSound | transport/sdio_over_spi.c:837-900 | over a whole transfer every CMD53 is word-aligned, inside one window, of 1..128 blocks or 4..512 octets, and together they cover it exactly once |
| Refinement.SoundAddsUp | transport/sdio_over_spi.c:837-900 | the chunk sizes add up to the transfer, rounded up to words |
| Refinement.LoopClock | transport/sdio_over_spi.c:837-900 | a transfer that is not given up makes three register writes a window and one CMD53 a chunk |
| Refinement.MovesCopied | transport/sdio_over_spi.c:861-894 | chunks that tile a stretch of a selected window copy it when every command returns 0 |
| Refinement.TransferCopies | transport/sdio_over_spi.c:818-907 | a transfer whose every command returned 0 is one plain copy, returns 0 and restores the buffer; a transfer that is given up says so |
| Refinement.WriteRefines | transport/sdio_over_spi.c:818-907 | when every command returned 0 memory ends as a plain write of the buffer, and at most three octets after it change |
| Refinement.ReadRefines | transport/sdio_over_spi.c:818-907 | when every command returned 0 the buffer ends as a plain read, memory unchanged |
| Refinement.WriteThenRead | transraw.c:122-136 | over every address, length, content, pace and receiving buffer, when every command returned 0 what is read back is what was written |
| TransRaw.MemTest | transraw.c:94-160 | the test returns 0 exactly when both transfers do and the buffers agree, and so whenever every command returned 0 |
| TransRaw.FillPattern | transraw.c:114-120 | the pattern is in place in every whole word |
| Faults.FitsOnAverage | transport/sdio_over_spi.c:575-583 | a block-mode read fits its buffer if and only if its junk is at most 27 octets a block and six more in all |
| Faults.ScannerOutrunsBuffer | transport/sdio_over_spi.c:575-583 | every lag the scanner accepts fits the buffer if and only if there are at most six blocks |
| Faults.FirstChunkLost | transport/sdio_over_spi.c:861-895 | with the first CMD53 lost the rest of the transfer is moved exactly, and 0 is returned unless the transfer was a single command |
| Faults.ReturnIsHonest | transport/sdio_over_spi.c:861-895 | a returned 0 means on every link that every command succeeded and the transfer is the plain copy, if and only if the transfer needs one CMD53 |
| Faults.ZeroDespiteLoss | transport/sdio_over_spi.c:861-895 | for every other transfer there is a link on which 0 is returned and the first chunk's octets are still the old ones |
| Faults.PointerComesBack | transport/sdio_over_spi.c:849-904 | the data pointer is restored on every link if and only if the transfer stays in one window |
| Faults.SecondKeyholeLost | transport/sdio_over_spi.c:849-854 | where the pointer is left when the second window's keyhole fails |
| Mailbox.RunKeepsSafe | transport/ftdi_spi.c:917-985 | the invariant of host, firmware and the memory between them is kept by every step of either side |
| Mailbox.OwnResponse | transport/ftdi_spi.c:917-985 | over every interleaving from a quiescent start a returned response answers this call's command, word for word, within 30 polls |
| Mailbox.StaleResponse | transport/ftdi_spi.c:917-970 | with anything outstanding on entry some interleaving hands the host an earlier command's response |
| Mailbox.OwnResponseIff | transport/ftdi_spi.c:917-985 | responses are always this call's if and only if nothing is outstanding on entry |
| Mailbox.TimeoutReturnsZero | transport/ftdi_spi.c:947-967 | from any start the schedule with a firmware that never answers: 30 polls that find the bit clear, then 0 and no response |
| Mailbox.ZeroIsHeardIff | transport/ftdi_spi.c:947-967 | a 0 comes with a response on every interleaving if and only if there is no command area |
| Mailbox.ZeroMeans | transport/ftdi_spi.c:947-967 | from any start and over every interleaving a 0 means a response that the last poll announced, or 30 polls that found the bit clear |
| Mailbox.FinishedIsHeard | transport/ftdi_spi.c:947-985 | over every interleaving from a quiescent start a call that returns 0 has its response when the firmware finished its work before the last poll |
| Mailbox.TrimmedIsWithinIff | transport/ftdi_spi.c:987-989 | for a response that begins with a header of six 16-bit fields: the trimmed length stays within the buffer if and only if the length field does |
| Mailbox.TrimmedIs | transport/ftdi_spi.c:987-989 | of a response headed by flags, id, length, host id, interface and padding the data length is the length field less 4, or 2^64 plus that when it is below 4 |
| Mailbox.EightOctetsOfData | command.h:23-38 | flags 1, message 5, length 12: eight octets of data |
| Mailbox.AnswerIsHeard | transport/ftdi_spi.c:947-1000 | for every number of polls that found nothing there is an interleaving in which the next one finds the answer and the call returns it with 0 |
| Mailbox.Line.AwaitStatus | transport/ftdi_spi.c:947-967 | the polling loop's every outcome is a run of the machine |
| Mailbox.Line.Send | transport/ftdi_spi.c:860-1000 | the call's every execution is an interleaving of the machine, its response is its own when the start was quiescent, the status bit is clear after it unless the last access failed, and the data length is the header's length field less 4, wrapping below 4 |
| FtdiSpi.ChanInfo.SetSpiAndResetChan | transport/ftdi_spi.c:374-391 | keeps the two lowest ports seen so far, in order |
| FtdiSpi.ChanInfo.Enumerate | transport/ftdi_spi.c:436-488 | after the loop the SPI port is the adapter's lowest location and the reset port the next; it fails exactly when fewer than two were found |
| Elf.StatsLoad | elf_file.c:253-313 | the two passes agree: the octets at every off-chip section's offset in the file are in the blob behind those of the off-chip sections before it, nothing else is, and the records are counted section by section |
| Elf.SectionIsCopied | elf_file.c:297-302 | the stretch of the blob that belongs to an off-chip section is the stretch of the file that its header points to |
| Elf.NextSection | elf_file.c:253-313 | a section whose name holds _offchip_ adds its size, and its number of whole records, and any other adds nothing |
| Elf.ContainsIff | elf_file.c:297-297 | a name is off-chip if and only if the text stands somewhere in it |
| Elf.BlobHoldsTheRecords | elf_file.c:288-302 | when sections hold whole records the blob's records are theirs, in order, and as many as counted |
| Elf.RecordsFit | elf_file.c:301-301 | the counted records always fit the blob |
| Elf.FindSections | elf_file.c:436-462 | the in-place search is the section look-up |
| Elf.LookFindsLast | elf_file.c:436-462 | of several sections with a name the last one is taken |
| Elf.SectionNamedIs | elf_file.c:436-462 | it is the last of the name, and one without offset and size when there is none |
| Elf.LoadableIff | elf_file.c:463-479 | both sections are loaded if and only if the last of each name has an offset and a size and the first an address from 0x1_0000 on |
| Elf.LoadElfBlob | elf_file.c:369-400 | on every link a section is written from a buffer padded to a word, and a failure is reported as -1; when all goes well memory holds the octets at the section's offset in the file |
| Elf.TwoBlobs | elf_file.c:481-489 | whenever every command returned 0 memory ends with board_config followed at once by the regdom, nothing else changed but the padding |
| Elf.LoadBcf | elf_file.c:407-492 | nothing is touched unless both sections are there; a failure of the first stops before the second; when both go well memory holds the octets at the two sections' offsets in the file, one directly after the other |
| Stats.DecodeEncoded | stats.c:191-240 | decoding inverts encoding for every list of records, with up to four octets after them |
| Stats.ResponseSplits | stats.c:191-240 | every response is the encoding of the visited records and a leftover that is not a record and decides how the loop ends |
| Stats.VisitsIff | stats.c:191-240 | the loop visits given records and ends in a given way if and only if the response is their encoding and a matching leftover |
| Stats.OverrunIff | stats.c:191-204 | it reads beyond the response if and only if complete records are followed by one that is up to four octets too long |
| Stats.OverrunHappens | stats.c:191-204 | five octets on which it does |
| Stats.LowOctetFirst | stats.c:193-197 | tag and length are read low octet first |
| Stats.ShownIs | stats.c:209-231 | decimal values of types that start with uint are unsigned, formats beyond the last are the last, every other format is kept |
| Stats.EveryRecordIsShown | stats.c:191-240 | without a filter every record makes one row, in order, with its payload and the key and format of the first metadata with its tag |
| Stats.FilterKeeps | stats.c:215-232 | a filter drops exactly the rows of known records with another key |
| Stats.GetStatsOffchip | offchip_statistics.c:16-32 | the first metadata record with the tag, or none |
| Stats.ShowRecord | stats.c:206-236 | a record is shown in a format of the table, DEC for uint types as U_DEC, and correcting the metadata in place changes nothing that is shown later |
| Stats.ShowStats | stats.c:191-240 | the loop shows every record, in order, by the metadata as it was before |
| Utilities.NumberRoundTrip | utilities.c:92-100 | strtoul in base 0 undoes %u for every 32-bit number |
| Utilities.AcceptedIff | utilities.c:112-120 | a text without spaces and sign is a number if and only if it holds nothing but digits of base 16 after 0x, 8 after 0, or 10 |
| Utilities.TrailingTextIsRefused | utilities.c:112-120 | a number followed by anything but a digit is refused |
| Utilities.DigitsOn | utilities.c:112-120 | one more digit multiplies the number by the base and adds the digit |
| Utilities.NegativeNumbersWrap | utilities.c:112-120 | a minus sign before a number yields 2^64 less the number |
| Utilities.OctetRoundTrip | utilities.h:289-298 | %hhx undoes %02x |
| Session.MacRoundTrip | utilities.h:289-298 | scanning a printed address recovers all its octets |
| Session.LoadLine | standby.c:363-391 | fgets, strip and the search for '=' recover the key and value of a printed line |
| Session.StoreThenLoad | standby.c:433-437 | loading a stored session restores all five fields, whatever was in them before |
| Session.StoredText | standby.c:433-437 | the five lines of the file, key by key |
| Session.CommentsArePassedOver | standby.c:367-368 | an empty line or a comment is passed over, whatever it holds |
| Session.NoKeyOrNoValueFails | standby.c:370-390 | any other line without an equals sign, or with nothing before or after it, ends the loading with an error |
| Session.UnknownKeysChangeNothing | standby.c:320-329 | a key that is none of the five changes nothing and is no error |
| Session.UnreadableValueFails | standby.c:272-318 | a value that is no number, or an address of fewer than six octets, is an error |
| Session.LineLengthIff | standby.c:363-363 | a line ends with its line break, with the text or after 254 characters, whichever comes first |
| Session.LongLineIsSplit | standby.c:363-363 | a line that is too long is taken 254 characters at a time, each piece as a line of its own |
| Session.BlanksAreStripped | standby.c:370-376 | blanks before the key and after the value are dropped, and no others |
| Session.OnlyColonsSeparate | utilities.h:289-298 | an address ends at the first separator that is not a colon |
| Session.Context.Process | standby.c:267-329 | each key assigns its field, cut to the field's width; a bad value fails and an unknown key does not |
| Session.Context.ConfigParse | standby.c:342-394 | the loop over any text is the load function |
| WordWrap.GetLine | params.c:171-206 | the two loops compute the line function |
| WordWrap.LineIsLine | params.c:171-206 | what a line is: where it starts, that it ends at a break, at the last space of its window or at its end |
| WordWrap.WrapIsCut | params.c:208-222 | the printed lines are slices of the text, spaces inside them included, each cut where the one before it ended, with only blanks passed over before each and after the last |
| WordWrap.LineAdvances | params.c:213-221 | the end of a line is always beyond its start, even when the line is empty, so the printing loop ends |
| WordWrap.WordsAreCutIff | params.c:181-205 | a line cuts a word if and only if the first ink lies in its window and no blank follows up to the character after the window |
| WordWrap.ShortWordIsCut | params.c:176-205 | 58 blanks and a word of six letters, printed as two lines of three |
| WordWrap.WrapKeepsInk | params.c:208-222 | the printed lines hold the text's characters in order with only spaces and line breaks dropped |
| WordWrap.LinesAreShort | params.c:171-222 | no line has more than 61 characters or holds a line break |
| WordWrap.PrintParamHelp | params.c:208-222 | prints those slices |
| Bits.SwarCounts | utilities.c:148-155 | the word-parallel sum is the number of set bits, for all 2^32 words |
| Bits.Popcount | utilities.c:148-155 | the same of the method, kept in an octet |
| Bits.Ctz | utilities.c:157-176 | -1 for zero, else the index of the lowest set bit |
| Bits.SetBit | gpio.c:244-244 | ORing BIT(i) sets bit i and no other |
| Gpio.PinHandler | gpio.c:206-248 | the mask's bits are exactly the pins named, or the mask is the one hexadecimal argument, or the first bad argument's error is returned |
| Gpio.JudgeIff | gpio.c:206-248 | the arguments are pins if and only if each is a number below 32 without sign or 0x; otherwise the first that is not decides: -EINVAL, -ENODEV, or the mask when it is the only one |
| Gpio.ModeReadsFlags | gpio.c:258-318 | the row says what the bits 0x04, 0x08, 0x10 and 0x20 of the flags say, for pins that are reported on and for others |
| Gpio.NamedPinsListed | gpio.c:428-436 | the set bits in ascending order are the pins named, each once |
| Gpio.CountIsSize | gpio.c:428-428 | the number of set bits is the number of distinct pins |
| Gpio.CfmInfo | gpio.c:258-318 | exactly one row, for the pin that was asked about |
| Gpio.PrintPins | gpio.c:427-487 | one row per set bit in ascending order up to a reply that ends the listing: plainly the header and the rows, as JSON with brackets and commas |
| Gpio.JsonLayout | gpio.c:459-478 | as JSON: a bracket, rows with commas exactly between them, and a bracket after the last |
| Gpio.PlainLayout | gpio.c:457-470 | without -j: nothing for no pins, else the header once and the row of every pin, in order |
| Gpio.JsonIsCompleteIff | gpio.c:427-487 | the output is a complete JSON list if and only if the mask is not zero and no pin's reply ends the listing |
| Gpio.ZeroMaskPrintsNothing | gpio.c:206-244 | the argument 0x0 is accepted, returns 0 and prints nothing |
| Gpio.FatalReplyLeavesListOpen | gpio.c:447-451 | with an error on the second of two pins the list ends in a comma |
| Gpio.Info | gpio.c:383-490 | bad arguments print nothing; decimal ones list the pins they name and a hexadecimal one lists its bits, up to the first reply that ends the listing |

## Left out

- SdioOverSpi.Transport.Cmd52: does not model the data a CMD52 read returns, because the program never extracts it.
- SdioOverSpi.Transport.Cmd53Read: a search or a copy that would leave the response buffer ends the command with an error; the program reads on, into whatever lies there.
- SdioOverSpi.Cmd53FindToken: the same.
- SdioHost.MemblockCommon: for word-aligned addresses and transfers that end below 2^32, as its callers are told to.
- Mailbox.Line.Send: the contents of the manifest are not modelled, and the two memory areas lie apart from the registers.
- Mailbox.TimeoutReturnsZero: the error message printed on that path.
- Stats.ShowStats: stops where the program would read beyond the response; the formatting of a value is not modelled.
- Elf.StatsLoad: sections lie inside the file and names are already looked up; the octets of the ELF headers are not parsed, and the offset does not wrap.
- Elf.LoadBcf: for a board_config whose address and size are word multiples, and sections inside the file.
- Session.Context.ConfigParse: the line buffer is cut on values, not in place; opening and closing the file, and the directories, are left out.
- Gpio.PinHandler: a pin list starts from an empty mask.
- WordWrap.GetLine: a text without NUL characters.
- FtdiSpi.ChanInfo.Enumerate: opening the channels.
- CMD0, CMD63, resets, initial clocks and sleeps: I/O and timing.
- The function number of a memory command is always 2, so the table of block sizes is one constant.
- `load_blobs`: its count of program headers multiplies entry size by entry number, and it takes memory size for file size.
- The other commands, nl80211, libmpsse, sysfs GPIO, getopt, usage text and floating-point conversions: argument checks, foreign libraries and user interface.
- Allocation failures, leaks and big-endian hosts.
- Concurrency inside the host: one call at a time.
