# MFRC522 reader driver, modelled in Dafny

This project models the Python driver for the NXP MFRC522 contactless reader chip
(`src/mfrc522/MFRC522.py`) and the two reader classes built on it
(`src/mfrc522/BasicMFRC522.py`, `src/mfrc522/SimpleMFRC522.py`), and proves what
they do with the chip and with a MIFARE Classic card.

## What is modelled

- **The chip** (`chip.dfy`, module `ChipSim`). The hardware behind the SPI bus is a class
  `Chip`. It has a 64-entry register file, the FIFO contents and a log of the frames each
  chip command sent. Configuration registers read back what was last written. The
  registers the chip drives itself are scripted: the k-th such read of register r
  answers `respond(r, k)`. These are the interrupt, error, FIFO, control, CRC-result and
  Status2 registers. Every proof therefore holds for every possible behaviour of chip
  and card.
- **The driver** (`registers.dfy`, `exchange.dfy`, `picc.dfy`, `driver.dfy`). Class
  `Driver.MFRC522` covers:
  - register access over SPI and the read-modify-write bit helpers;
  - the antenna switch;
  - `MFRC522_ToCard`: FIFO load, command start, polling CommIrqReg up to 2000 times,
    classification, and draining up to 16 bytes;
  - `CalulateCRC`;
  - the card commands Request, Anticoll, SelectTag, Authenticate, StopCrypto1, ReadTag
    and the two-phase WriteTag.

  Each method's contract gives its result and the chip's new register file, FIFO and
  frame log as functions of the script (`Exchange.ExchangeOutcome`, `Driver.ExchangeRegs`,
  and so on). Lemmas state what those functions mean:
  - the three-way status classification;
  - the timeout condition;
  - authentication never reports MI_NOTAGERR;
  - the BCC check;
  - WriteTag raises exactly when its WRITE command's exchange failed.
- **One attempt of a reader class** (`sessions.dfy`, module `Sessions`). Every card
  command the driver runs is appended to a ghost log `calls`. Predicates over that log
  describe one read, write, clear or id attempt:
  - REQA, anticollision, SELECT, key-A authentication of the trailer (and, for writes
    and clears, a READ of the trailer);
  - the block reads or writes, in order;
  - StopCrypto1 exactly once, as the last call, on the normal and the exception path.

  The methods `ReadOnce`, `WriteOnce`, `ClearOnce` and `ReadIdOnce` are the `*_no_block`
  methods shared by both classes, after the trailer check.
- **Retrying and multi-sector calls** (`retry.dfy`, `basic.dfy`, `simple.dfy`). A
  `while not id` loop repeats an attempt until it answers with an id other than 0 and
  None. The `*_sectors` loops run one sector call per trailer, in order.
  `Basic.BasicReader` and `Simple.SimpleReader` hold the reader and key A. Simple is
  Basic fixed to trailer 11, blocks 8-10 and the default key, without the trailer check
  (`Simple.TrailerOfBlockAddrs` shows nothing is lost).
- **Pure helpers** (`sector.dfy`, module `Sector`): the trailer test, `_uid_to_num`,
  `_split_string`, and the text-to-block encoding and decoding.

Where the driver's documented behaviour and its code differ, the model follows the code:
- `MFRC522_ToCard` clears StartSend after the wait for every command, not only for
  Transceive.
- The exchange counts as timed out whenever the counter reaches 0, even when the last
  poll showed an interrupt (`Exchange.TimeoutIff`).
- `AntennaOff` always writes TxControlReg.
- SelectTag checks the answer's bit count (24) only.
- A write pads the text on the right with spaces (`str.ljust`) and does not truncate
  it. Only the first 48 encoded bytes reach the card, and the text reported is
  `text[0:48]`.
- A Transceive whose answer leaves the FIFO level at 0 still drains one byte, and reports a bit count of RxLastBits - 8 (negative) or 0 (`Exchange.DrainCount`, `Exchange.BitLength`).
- WriteTag's debug line indexes the first byte of the WRITE command's answer, so it
  raises IndexError when the exchange returned nothing (`Driver.WriteOutcome.PhaseARaised`).

## Model

| member | source | states |
|---|---|---|
| Registers.Index | src/mfrc522/MFRC522.py:175 | the chip addresses register `addr & 0x3F`, the named register itself for every address below 64 |
| Registers.WriteAddress | src/mfrc522/MFRC522.py:175 | the write address byte has bit 7 and bit 0 clear, is not a read byte, and decodes back to the addressed register |
| Registers.ReadAddress | src/mfrc522/MFRC522.py:190 | the read address byte is the write byte with bit 7 set, is a read byte, and decodes to the same register |
| Registers.AddressInjective | src/mfrc522/MFRC522.py:175 | two register names give the same write byte exactly when they reach the same register; no read byte equals a write byte |
| Registers.Status.Code | src/mfrc522/MFRC522.py:35-37 | MI_OK, MI_NOTAGERR, MI_ERR are 0, 1, 2; only MI_OK is 0 |
| ChipSim.Chip.Transfer | src/mfrc522/MFRC522.py:164-191 | a read transfer returns the register (or the script's next answer) and changes nothing else; a write transfer stores the byte, pushes to or flushes the FIFO, and logs the frame a command start sends |
| Driver.MFRC522.WriteReg | src/mfrc522/MFRC522.py:164-175 | the register holds the value afterwards, with the FIFO and frame-log effects of that write, and no script entry is used |
| Driver.MFRC522.ReadReg | src/mfrc522/MFRC522.py:177-191 | the value is what the register reads now; only the script position moves |
| Driver.MFRC522.SetBitMask | src/mfrc522/MFRC522.py:204-217 | the register becomes its value as read now OR mask, and nothing else in the register file changes |
| Driver.MFRC522.ClearBitMask | src/mfrc522/MFRC522.py:219-232 | the register becomes its value as read now AND NOT mask, and nothing else in the register file changes |
| Driver.AntennaOnValue | src/mfrc522/MFRC522.py:234-247 | TxControlReg has both driver bits set and its other six bits unchanged; a register with both bits set is left as it is |
| Driver.AntennaOnIdempotent | src/mfrc522/MFRC522.py:238-247 | switching the antenna on twice is switching it on once |
| Driver.MFRC522.AntennaOn | src/mfrc522/MFRC522.py:234-247 | only TxControlReg changes, to its antenna-on value; no script entry is used |
| Driver.AntennaOffValue | src/mfrc522/MFRC522.py:249-255 | TxControlReg has both driver bits clear and its other six bits unchanged |
| Driver.MFRC522.AntennaOff | src/mfrc522/MFRC522.py:249-255 | only TxControlReg changes, to its antenna-off value |
| Driver.MFRC522.PrepareCommand | src/mfrc522/MFRC522.py:279-293 | the command's interrupt enables are armed, Set1 is cleared, the FIFO is empty, the chip is idle, and two script entries are used |
| Driver.MFRC522.LoadFifo | src/mfrc522/MFRC522.py:295-297 | the FIFO holds its old contents followed by every byte of sendData, in order |
| Driver.MFRC522.Launch | src/mfrc522/MFRC522.py:299-304 | writing the command (and StartSend for Transceive) sends exactly one frame, the FIFO contents, unless the command is Idle |
| Driver.MFRC522.StartCommand | src/mfrc522/MFRC522.py:287-304 | after the setup the FIFO holds exactly sendData and the chip has sent one frame of sendData |
| Exchange.PollReadsStop | src/mfrc522/MFRC522.py:307-314 | a poll loop stops on the first read that shows a bit of its mask, or after its last permitted read, and no earlier read showed one |
| Exchange.IrqTable | src/mfrc522/MFRC522.py:279-285 | every interrupt that ends a command's wait is enabled for it; the timer interrupt is enabled for Transceive only and is never a wait bit; IdleIRq ends the wait of authentication and Transceive, RxIRq that of Transceive only; other commands wait on the timer or the counter |
| Driver.MFRC522.WaitForIrq | src/mfrc522/MFRC522.py:306-314 | the loop reads CommIrqReg as many times as the poll count says, returns the last value read and the counter's final value, and changes no register |
| Exchange.TimeoutIff | src/mfrc522/MFRC522.py:307-320 | the counter reaches 0 exactly when none of the first 1999 polls showed the timer bit or a wait bit |
| Exchange.DrainCount | src/mfrc522/MFRC522.py:336-339 | between 1 and 16 bytes are drained: one byte for an empty FIFO, a level in 1..16 whole, 16 for a larger level |
| Exchange.BitLength | src/mfrc522/MFRC522.py:329-334 | the bit count lies within the last byte of the FIFO level (so an empty FIFO gives a count of at most 0, above -8) and its remainder mod 8 is RxLastBits |
| Exchange.FifoBytesInOrder | src/mfrc522/MFRC522.py:341-342 | the j-th byte returned is the j-th read of FIFODataReg |
| Driver.MFRC522.Drain | src/mfrc522/MFRC522.py:341-342 | count FIFODataReg reads, in order, and nothing else changes |
| Driver.MFRC522.ReadAnswer | src/mfrc522/MFRC522.py:328-342 | the answer has the bit length of the level and RxLastBits read, and the drain count's bytes from the FIFO |
| Exchange.Verdict | src/mfrc522/MFRC522.py:320-344 | MI_ERR carries no data; only Transceive returns data, 1 to 16 bytes of it |
| Driver.MFRC522.Conclude | src/mfrc522/MFRC522.py:319-344 | the status and answer are the verdict on ErrorReg, the last poll and (for Transceive) the FIFO |
| Driver.MFRC522.AwaitIrq | src/mfrc522/MFRC522.py:306-317 | the wait loop's reads and result, followed by clearing StartSend whatever the command; only BitFramingReg changes |
| Driver.MFRC522.FinishCommand | src/mfrc522/MFRC522.py:306-347 | MI_ERR with no data on timeout, otherwise the verdict; StartSend is cleared for every command |
| Exchange.ExchangeOutcome | src/mfrc522/MFRC522.py:257-347 | an MI_ERR exchange carries no data; only Transceive carries data, at most 16 bytes; a timeout is MI_ERR |
| Exchange.ExchangeStatus | src/mfrc522/MFRC522.py:319-344 | MI_ERR exactly on timeout or an ErrorReg bit in 0x1B; MI_NOTAGERR exactly when no error and the last poll shows the timer bit with the command's enables |
| Exchange.AuthentNeverNoTag | src/mfrc522/MFRC522.py:280-325 | an authentication exchange never reports MI_NOTAGERR, since its enables leave the timer bit off |
| Driver.ExchangeRegsFrame | src/mfrc522/MFRC522.py:287-317 | an exchange writes no register outside CommIEn, CommIrq, FIFOLevel, FIFOData, Command and BitFraming |
| Driver.MFRC522.ToCard | src/mfrc522/MFRC522.py:257-347 | the (status, backData, backLen) triple is the exchange outcome of the script; the chip sent exactly sendData; the register file is the exchange's |
| Driver.MFRC522.StartCrc | src/mfrc522/MFRC522.py:437-446 | CRCIRq cleared, FIFO flushed and loaded with data, and one CalcCRC frame of data sent |
| Driver.MFRC522.WaitForCrc | src/mfrc522/MFRC522.py:448-454 | the loop reads DivIrqReg until CRCIRq shows or 255 reads are used, and changes no register |
| Driver.MFRC522.ReadCrcResult | src/mfrc522/MFRC522.py:457-460 | the CRC is CRCResultRegL then CRCResultRegM, low byte first |
| Driver.CrcRegsFrame | src/mfrc522/MFRC522.py:437-446 | the CRC run writes no register outside DivIrq, FIFOLevel, FIFOData and Command |
| Driver.MFRC522.CalculateCrc | src/mfrc522/MFRC522.py:426-460 | the result is the two CRC result bytes read after the poll loop, whether or not CRCIRq showed; one CalcCRC frame of data is sent |
| Driver.WithCrc | src/mfrc522/MFRC522.py:484-487 | the frame sent is the command frame followed by two CRC bytes |
| Driver.CrcExchangeOutcome | src/mfrc522/MFRC522.py:600-607 | after a CRC run, an exchange fails exactly when it returns no data, and returns at most 16 bytes |
| Driver.MFRC522.TransceiveWithCrc | src/mfrc522/MFRC522.py:484-490 | the chip sends CalcCRC over the frame, then Transceive of the frame with its CRC; the outcome is that exchange's |
| Driver.MFRC522.Request | src/mfrc522/MFRC522.py:349-380 | 7-bit framing, one Transceive frame [reqMode]; status is MI_OK only for an OK exchange of exactly 16 bits; the call is logged |
| Picc.XorFour | src/mfrc522/MFRC522.py:413-414 | the check value is b0 ^ b1 ^ b2 ^ b3 |
| Driver.MFRC522.SerialCheck | src/mfrc522/MFRC522.py:409-414 | the loop computes the XOR of the first four answer bytes |
| Picc.BccValidIffXorZero | src/mfrc522/MFRC522.py:411-418 | a five-byte answer passes the BCC check exactly when the XOR of all five bytes is 0 |
| Picc.BccOfUidAccepted | src/mfrc522/MFRC522.py:411-418 | every four-byte UID followed by its BCC passes the check |
| Driver.MFRC522.Anticoll | src/mfrc522/MFRC522.py:382-424 | byte framing, one Transceive frame [0x93, 0x20]; an OK answer stays OK only with five bytes and a valid BCC; the call is logged |
| Sessions.CardAnticoll | src/mfrc522/MFRC522.py:408-421 | an anticollision that reports MI_OK returned a five-byte UID whose BCC is valid |
| Driver.MFRC522.SelectTag | src/mfrc522/MFRC522.py:462-499 | SELECT [0x93, 0x70, uid[0..5]] with its CRC; the result is the SAK byte of a 24-bit OK answer, else 0 |
| Driver.MFRC522.Authenticate | src/mfrc522/MFRC522.py:501-540 | MFAuthent over mode, block, key and uid[0..4]; the status is the exchange's and never MI_NOTAGERR; the Status2Reg read changes nothing |
| Driver.MFRC522.StopCrypto1 | src/mfrc522/MFRC522.py:542-546 | Status2Reg loses MFCrypto1On and keeps its other bits as read; the call is logged |
| Driver.MFRC522.ReadTag | src/mfrc522/MFRC522.py:548-581 | READ [0x30, block] with its CRC; the answer is returned only when it is exactly 16 bytes, whatever the status |
| Driver.MFRC522.WriteData | src/mfrc522/MFRC522.py:616-627 | the data phase sends the first 16 data bytes with their CRC and reports whether a 4-bit ACK came back |
| Driver.MFRC522.WriteFollowUp | src/mfrc522/MFRC522.py:609-633 | the data phase runs exactly when the WRITE command was ACKed; an empty answer raises; a refused one changes nothing more |
| Driver.WriteTagRaisesIffErr | src/mfrc522/MFRC522.py:606-614 | WriteTag raises exactly when the WRITE command's exchange ended in MI_ERR |
| Driver.WriteTagDataSentIffAcked | src/mfrc522/MFRC522.py:609-620 | the data block is sent exactly when the WRITE command got a 4-bit ACK |
| Driver.MFRC522.WriteTag | src/mfrc522/MFRC522.py:583-633 | WRITE [0xA0, block] with its CRC, then the 16 data bytes with theirs only after an ACK; the ghost results name the state after the first phase, and the final state is that state plus the data phase, or unchanged without one |
| Sector.TrailerIsLastOfFour | src/mfrc522/BasicMFRC522.py:360-364 | a block is a trailer exactly when it is the last of its group of four (t mod 4 == 3) |
| Sector.UidValue | src/mfrc522/BasicMFRC522.py:366-379 | the id of a UID is below 2^40 |
| Sector.BigEndianBound | src/mfrc522/BasicMFRC522.py:376-379 | the fold of n bytes is below 256^n |
| Sector.BigEndianInjective | src/mfrc522/BasicMFRC522.py:376-379 | two byte strings of one length with the same fold are equal |
| Sector.UidValueInjective | src/mfrc522/BasicMFRC522.py:366-379 | two UIDs with the same id agree on their first five bytes |
| Sector.UidZeroIff | src/mfrc522/BasicMFRC522.py:366-379 | the id is 0, which the retry loops reject, exactly when the first five UID bytes are 0 |
| Sector.UidToNum | src/mfrc522/SimpleMFRC522.py:182-186 | the accumulator loop computes the big-endian value of uid[0..5] |
| Sector.ChunkCount | src/mfrc522/BasicMFRC522.py:391-393 | the number of chunks is the least number of 48-character chunks that covers the text |
| Sector.Padded | src/mfrc522/BasicMFRC522.py:396-397 | the padded text starts with the text, is NUL past it, and has 48 characters per chunk |
| Sector.Chunks | src/mfrc522/BasicMFRC522.py:381-399 | every chunk has exactly 48 characters |
| Sector.ChunkWindow | src/mfrc522/BasicMFRC522.py:392-397 | chunk j is text[48j : 48j+48], NUL-padded when the text ends inside it |
| Sector.ChunksConcat | src/mfrc522/BasicMFRC522.py:381-399 | the chunks put together are the text followed by its NUL padding |
| Sector.ChunksPrefix | src/mfrc522/BasicMFRC522.py:381-399 | the first k chunks put together are the first 48k padded characters |
| Sector.SplitString | src/mfrc522/BasicMFRC522.py:381-399 | an empty text raises; any other text is cut into its chunks |
| Sector.LeftJustify | src/mfrc522/BasicMFRC522.py:248 | the text is kept whole and padded with spaces up to the width |
| Sector.AsciiBytes | src/mfrc522/BasicMFRC522.py:248 | one byte per character, with the character's code |
| Sector.Chars | src/mfrc522/BasicMFRC522.py:134-135 | one character per byte, with the byte's value |
| Sector.WriteBytes | src/mfrc522/BasicMFRC522.py:247-248 | the encoding succeeds exactly for ASCII texts and then gives at least 48 bytes |
| Sector.Clip | src/mfrc522/BasicMFRC522.py:259 | the reported text is the text's first min(len, 48) characters |
| Sector.WrittenBytesDecode | src/mfrc522/BasicMFRC522.py:247-259 | decoding the 48 bytes written gives the space-padded text, which starts with the text reported |
| Sessions.DataBlocks | src/mfrc522/BasicMFRC522.py:100 | the data blocks of trailer t are t-3, t-2, t-1, in that order |
| Sessions.GatheredBlocks | src/mfrc522/BasicMFRC522.py:128-131 | the bytes gathered from n block reads are a whole number of 16-byte blocks, at most n |
| Sessions.Detect | src/mfrc522/BasicMFRC522.py:72-80 | REQA in idle mode, then anticollision; no card when either fails, otherwise the five-byte UID |
| Sessions.ReadIdOnce | src/mfrc522/BasicMFRC522.py:65-83 | None without a card, otherwise the id of the UID found; nothing else is sent |
| Sessions.Open | src/mfrc522/BasicMFRC522.py:113-119 | SELECT then key-A authentication of the trailer with the reader's key; whether it succeeded is returned |
| Sessions.ReadBlocks | src/mfrc522/BasicMFRC522.py:126-135 | one ReadTag per block, in order; the data is the blocks that came back, concatenated |
| Sessions.ReadOnce | src/mfrc522/BasicMFRC522.py:100-148 | the sentinel without a card; otherwise find, open, read the data blocks only after a successful authentication, stop Crypto1, and answer the id and the text read |
| Sessions.ReadTextLength | src/mfrc522/BasicMFRC522.py:122-141 | a read attempt's text has 0, 16, 32 or 48 characters |
| Sessions.ReadStopsOnce | src/mfrc522/BasicMFRC522.py:125-148 | a read attempt that found a card stops Crypto1 exactly once, as its last call; one without a card never does |
| Sessions.OpenTrailer | src/mfrc522/BasicMFRC522.py:233-242 | the opening of a write: select, authenticate, then READ the trailer whatever the authentication gave |
| Sessions.WriteBlocks | src/mfrc522/BasicMFRC522.py:250-253 | WriteTag(block j, data[16j : 16j+16]) in order; the loop ends early exactly when a WriteTag raised |
| Sessions.WriteText | src/mfrc522/BasicMFRC522.py:244-253 | nothing after a failed authentication; a non-ASCII text reaches the handler before any write; otherwise the padded bytes go to the data blocks |
| Sessions.WriteOnce | src/mfrc522/BasicMFRC522.py:219-263 | the sentinel without a card, on an encoding error, or when a WriteTag raised; otherwise the id and text[0:48]; Crypto1 is stopped on both paths |
| Sessions.WriteReportsClip | src/mfrc522/BasicMFRC522.py:259 | a write attempt that answers reports text[0:48], whatever happened to the blocks |
| Sessions.WriteStopsOnce | src/mfrc522/BasicMFRC522.py:244-263 | a write attempt that found a card stops Crypto1 exactly once, last, on the normal and the exception path |
| Sessions.ClearOnce | src/mfrc522/BasicMFRC522.py:315-358 | as a write attempt, with 16 zero bytes for every data block; answers the id or the sentinel |
| Sessions.ClearStopsOnce | src/mfrc522/BasicMFRC522.py:341-358 | a clear attempt that found a card stops Crypto1 exactly once, last |
| Retries.SettledAtFirstAccepted | src/mfrc522/BasicMFRC522.py:32-35 | a retry loop ends at its first attempt with a non-zero id, and that attempt is its result |
| Retries.SettledUnique | src/mfrc522/BasicMFRC522.py:32-35 | the attempts decide the loop's result |
| Retries.ReadUntilFound | src/mfrc522/BasicMFRC522.py:32-35 | read attempts are repeated while the id is None or 0; the result is the first accepted attempt, or exhaustion |
| Retries.ReadSettledLength | src/mfrc522/BasicMFRC522.py:32-35 | the text of a settled read is whole blocks, at most 48 characters |
| Retries.WriteUntilDone | src/mfrc522/BasicMFRC522.py:163-170 | write attempts are repeated while the id is None or 0 |
| Retries.WriteSettledText | src/mfrc522/BasicMFRC522.py:163-170 | a settled write reports text[0:48] |
| Retries.ClearUntilDone | src/mfrc522/BasicMFRC522.py:276-283 | clear attempts are repeated while the id is None or 0 |
| Retries.IdReply | src/mfrc522/BasicMFRC522.py:60-63 | an id attempt answers exactly when it found an id, and with that id |
| Retries.ReadIdUntilFound | src/mfrc522/BasicMFRC522.py:60-63 | id attempts are repeated while the id is None or 0 |
| Basic.BasicReader.constructor | src/mfrc522/BasicMFRC522.py:12-20 | the reader keeps the driver and the key A it is given |
| Basic.BasicReader.ReadNoBlock | src/mfrc522/BasicMFRC522.py:85-148 | ValueError before any card command for a block that is not a trailer; otherwise one read attempt |
| Basic.BasicReader.ReadSector | src/mfrc522/BasicMFRC522.py:22-35 | raises exactly for a non-trailer; a result has a non-zero id and whole blocks of text, at most 48 characters |
| Basic.BasicReader.ReadSectors | src/mfrc522/BasicMFRC522.py:37-51 | one read_sector per trailer, in order, stopping at the first that did not settle; the texts concatenated with the last id; an empty list raises |
| Basic.BasicReader.ReadIdNoBlock | src/mfrc522/BasicMFRC522.py:65-83 | one id attempt |
| Basic.BasicReader.ReadId | src/mfrc522/BasicMFRC522.py:53-63 | id attempts until one is not None or 0 |
| Basic.BasicReader.WriteNoBlock | src/mfrc522/BasicMFRC522.py:204-263 | ValueError before any card command for a non-trailer; otherwise one write attempt |
| Basic.BasicReader.WriteSector | src/mfrc522/BasicMFRC522.py:150-170 | raises exactly for a non-trailer; a result has a non-zero id and reports text[0:48] |
| Basic.BasicReader.WriteSectors | src/mfrc522/BasicMFRC522.py:172-202 | an empty text raises; chunk i goes to trailer i for as many trailers and chunks as both exist; the text reported is the padded text up to the last sector written |
| Basic.BasicReader.ClearNoSector | src/mfrc522/BasicMFRC522.py:302-358 | ValueError before any card command for a non-trailer; otherwise one clear attempt |
| Basic.BasicReader.ClearSector | src/mfrc522/BasicMFRC522.py:265-283 | raises exactly for a non-trailer; otherwise clear attempts until one has a non-zero id |
| Basic.BasicReader.ClearSectors | src/mfrc522/BasicMFRC522.py:285-300 | one clear_sector per trailer, in order, stopping at the first that did not settle; the last id; an empty list raises |
| Simple.TrailerOfBlockAddrs | src/mfrc522/SimpleMFRC522.py:21 | block 11 is a trailer whose data blocks are exactly BLOCK_ADDRS, none of which is a trailer |
| Simple.SimpleReader.constructor | src/mfrc522/SimpleMFRC522.py:14-21 | the reader keeps the driver, with KEY six 0xFF bytes |
| Simple.SimpleReader.ReadNoBlock | src/mfrc522/SimpleMFRC522.py:68-112 | one read attempt of blocks 8-10 under trailer 11; its text is whole blocks, at most 48 characters |
| Simple.SimpleReader.Read | src/mfrc522/SimpleMFRC522.py:23-33 | read attempts until a non-zero id; never raises; the text is whole blocks, at most 48 characters |
| Simple.SimpleReader.ReadIdNoBlock | src/mfrc522/SimpleMFRC522.py:47-66 | one id attempt |
| Simple.SimpleReader.ReadId | src/mfrc522/SimpleMFRC522.py:35-45 | id attempts until a non-zero id; never raises |
| Simple.SimpleReader.WriteNoBlock | src/mfrc522/SimpleMFRC522.py:130-180 | one write attempt to blocks 8-10; an answer reports text[0:48] |
| Simple.SimpleReader.Write | src/mfrc522/SimpleMFRC522.py:114-128 | write attempts until a non-zero id; never raises; the result reports text[0:48] |

## Left out

- SPI and GPIO set-up, `Reset`, `Close` and `Init`: the transport is the simulated chip, and its construction is not part of this model.
- `time.sleep` between polls and all logging: they have no effect on results.
- The CRC_A algorithm: the chip computes it, so the model takes the CRC result registers' values from the script.
- The card's memory: the model states what the driver sends and how it reads the chip's answers, not what a card stores. A write followed by a read of the same card is therefore not related.
- Failures of the SPI transport or GPIO: their exceptions are not modelled.
- Retries.ReadUntilFound: the source retries without bound. The model stops after a `retries` parameter and reports `Exhausted`. The same holds for the other retrying methods (`WriteUntilDone`, `ClearUntilDone`, `ReadIdUntilFound`, and the `ReadSector`, `WriteSector`, `ClearSector`, `Read`, `ReadId`, `Write` methods of the reader classes).
- Basic.BasicReader.ReadSectors: block and trailer numbers are bytes (`bv8`), not Python integers. The same holds for every method taking a block number.
- Basic.BasicReader.constructor: the Python reader creates its own MFRC522 instance; the model is given one.
- Simple.SimpleReader.constructor: the same.
- Basic.BasicReader.WriteNoBlock: `str(text)` is not modelled; the text is already a string.
- Sessions.ReadOnce: the `except:` handler of a read is not modelled. Nothing inside that `try` block raises in the model: ReadTag never raises, and `chr` never fails on a byte.
- Driver.MFRC522.WriteTag: requires at least 16 data bytes. A shorter list would raise IndexError after an ACK; every caller passes 16 bytes.
- Driver.MFRC522.SelectTag: requires a UID of at least five bytes, and Authenticate requires at least four. Anticoll only accepts five-byte answers, so every caller passes five.
- The reader classes' contracts are stated over the ghost log of card commands, not over the chip's registers. The chip-level effect of each command is stated by the driver method it calls.
- PICC commands the driver defines but never sends (HALT, DECREMENT, INCREMENT, RESTORE, TRANSFER, key B) are not modelled.
