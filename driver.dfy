/**
 * The MFRC522 driver class (src/mfrc522/MFRC522.py): register access over SPI,
 * read-modify-write bit updates, the antenna switch, the MFRC522_ToCard exchange,
 * the chip-side CRC and the card commands built on them.  Every method works on
 * the simulated chip `spi`; what each card-level command reported is appended
 * to the ghost log `calls`, which the reader classes' contracts are stated over.
 */
module Driver {
  import opened Wrappers
  import opened Registers
  import opened ChipSim
  import opened Exchange
  import opened Picc

  /** Result of WriteTag: line 614 indexes an empty answer, or the first phase was refused, or the data was sent. */
  datatype WriteOutcome = PhaseARaised | PhaseARejected | DataSent(acked: bool)

  /** One card-level command as the driver ran it, with what it reported. */
  datatype Call =
    | RequestCall(mode: bv8, status: Status, bits: int)
    | AnticollCall(status: Status, uid: seq<bv8>)
    | SelectCall(uid: seq<bv8>, size: bv8)
    | AuthCall(mode: bv8, block: bv8, key: seq<bv8>, uid: seq<bv8>, status: Status)
    | StopCall
    | ReadCall(block: bv8, result: Option<seq<bv8>>)
    | WriteCall(block: bv8, data: seq<bv8>, outcome: WriteOutcome)

  /** Last byte pushed into the FIFO data register, or its previous value when nothing was pushed. */
  function LastPushed(old_: bv8, data: seq<bv8>): bv8
  {
    if data == [] then old_ else data[|data| - 1]
  }

  /** Registers MFRC522_ToCard writes. */
  function ExchangeTouched(): set<int>
  {
    {CommIEnReg as int, CommIrqReg as int, FIFOLevelReg as int, FIFODataReg as int, CommandReg as int, BitFramingReg as int}
  }

  /** Registers CalulateCRC writes. */
  function CrcTouched(): set<int>
  {
    {DivIrqReg as int, FIFOLevelReg as int, FIFODataReg as int, CommandReg as int}
  }

  /**
   * Register file after MFRC522_ToCard(command, sendData) started at script position k:
   * the interrupt enables, the cleared Set1 bit of CommIrqReg, the flushed FIFO, the last
   * byte pushed, the command, and StartSend cleared again.
   */
  function ExchangeRegs(regs: seq<bv8>, respond: Respond, k: nat, command: bv8, sendData: seq<bv8>): (r: seq<bv8>)
    requires |regs| == 64
    ensures |r| == 64
    ensures r[BitFramingReg] == regs[BitFramingReg] & 0x7F && r[CommandReg] == command
    ensures r[CommIEnReg] == IrqEn(command) | 0x80
  {
    regs[CommIEnReg as int := IrqEn(command) | 0x80]
        [CommIrqReg as int := respond(CommIrqReg as int, k) & 0x7F]
        [FIFOLevelReg as int := respond(FIFOLevelReg as int, k + 1) | 0x80]
        [FIFODataReg as int := LastPushed(regs[FIFODataReg], sendData)]
        [CommandReg as int := command]
        [BitFramingReg as int := regs[BitFramingReg] & 0x7F]
  }

  /** Register file after CalulateCRC(data) started at script position k. */
  function CrcRegs(regs: seq<bv8>, respond: Respond, k: nat, data: seq<bv8>): (r: seq<bv8>)
    requires |regs| == 64
    ensures |r| == 64 && r[CommandReg] == PcdCalcCrc
  {
    regs[DivIrqReg as int := respond(DivIrqReg as int, k) & !0x04]
        [FIFOLevelReg as int := respond(FIFOLevelReg as int, k + 1) | 0x80]
        [FIFODataReg as int := LastPushed(regs[FIFODataReg], data)]
        [CommandReg as int := PcdCalcCrc]
  }

  /** MFRC522_ToCard writes no register outside ExchangeTouched. */
  lemma ExchangeRegsFrame(regs: seq<bv8>, respond: Respond, k: nat, command: bv8, sendData: seq<bv8>)
    requires |regs| == 64
    ensures forall i :: 0 <= i < 64 && i !in ExchangeTouched() ==>
      ExchangeRegs(regs, respond, k, command, sendData)[i] == regs[i]
  {
  }

  /** CalulateCRC writes no register outside CrcTouched. */
  lemma CrcRegsFrame(regs: seq<bv8>, respond: Respond, k: nat, data: seq<bv8>)
    requires |regs| == 64
    ensures forall i :: 0 <= i < 64 && i !in CrcTouched() ==> CrcRegs(regs, respond, k, data)[i] == regs[i]
  {
  }

  /** TxControlReg after AntennaOn: both driver bits (Tx1RFEn, Tx2RFEn) set, the other six kept. */
  function AntennaOnValue(v: bv8): (w: bv8)
    ensures w & 0x03 == 0x03 && w & 0xFC == v & 0xFC
    ensures v & 0x03 == 0x03 ==> w == v
  {
    v | 0x03
  }

  /** TxControlReg after AntennaOff: both driver bits cleared, the other six kept. */
  function AntennaOffValue(v: bv8): (w: bv8)
    ensures w & 0x03 == 0 && w & 0xFC == v & 0xFC
  {
    v & 0xFC
  }

  /** Switching the antenna on twice leaves the register as switching it on once. */
  lemma AntennaOnIdempotent(v: bv8)
    ensures AntennaOnValue(AntennaOnValue(v)) == AntennaOnValue(v)
  {
  }

  /** Register file after MFRC522_ToCard's setup: interrupt enables, Set1 cleared, FIFO flushed, Idle. */
  function PreparedRegs(regs: seq<bv8>, respond: Respond, k: nat, command: bv8): (r: seq<bv8>)
    requires |regs| == 64
    ensures |r| == 64
  {
    regs[CommIEnReg as int := IrqEn(command) | 0x80]
        [CommIrqReg as int := respond(CommIrqReg as int, k) & !0x80]
        [FIFOLevelReg as int := respond(FIFOLevelReg as int, k + 1) | 0x80]
        [CommandReg as int := PcdIdle]
  }

  /** Register file after pushing data into the FIFO. */
  function LoadedRegs(regs: seq<bv8>, data: seq<bv8>): (r: seq<bv8>)
    requires |regs| == 64
    ensures |r| == 64
  {
    regs[FIFODataReg as int := LastPushed(regs[FIFODataReg], data)]
  }

  /** Register file after writing the command and, for Transceive, setting StartSend. */
  function LaunchedRegs(regs: seq<bv8>, command: bv8): (r: seq<bv8>)
    requires |regs| == 64
    ensures |r| == 64
  {
    var r := regs[CommandReg as int := command];
    if command == PcdTransceive then r[BitFramingReg as int := r[BitFramingReg] | 0x80] else r
  }

  /** Register file once MFRC522_ToCard has started its command, before the wait loop. */
  function StartedRegs(regs: seq<bv8>, respond: Respond, k: nat, command: bv8, sendData: seq<bv8>): (r: seq<bv8>)
    requires |regs| == 64
    ensures |r| == 64
  {
    LaunchedRegs(LoadedRegs(PreparedRegs(regs, respond, k, command), sendData), command)
  }

  /** Clearing StartSend after the wait turns the started register file into ExchangeRegs. */
  lemma ExchangeRegsAfterStart(regs: seq<bv8>, respond: Respond, k: nat, command: bv8, sendData: seq<bv8>)
    requires |regs| == 64
    ensures var s := StartedRegs(regs, respond, k, command, sendData);
      s[BitFramingReg as int := s[BitFramingReg] & !0x80] == ExchangeRegs(regs, respond, k, command, sendData)
  {
  }

  /** A card frame with the CRC_A that CalulateCRC, started at script position k, appends to it. */
  function WithCrc(respond: Respond, k: nat, frame: seq<bv8>): (f: seq<bv8>)
    ensures |f| == |frame| + 2 && f[..|frame|] == frame
  {
    frame + CrcOf(respond, k)
  }

  /** Outcome of sending a frame with its CRC_A, the CRC run starting at script position k. */
  function CrcExchangeOutcome(respond: Respond, k: nat): (o: Outcome)
    ensures o.status == Err <==> o.backData == []
    ensures |o.backData| <= MaxLen
  {
    ExchangeOutcome(respond, k + CrcReads(respond, k), PcdTransceive)
  }

  /** Scripted reads of the CRC run and the exchange that follows it. */
  function CrcExchangeReads(respond: Respond, k: nat): nat
  {
    CrcReads(respond, k) + ExchangeReads(respond, k + CrcReads(respond, k), PcdTransceive)
  }

  /** Register file after the CRC run and the exchange. */
  function CrcExchangeRegs(regs: seq<bv8>, respond: Respond, k: nat, frame: seq<bv8>): (r: seq<bv8>)
    requires |regs| == 64
    ensures |r| == 64
  {
    ExchangeRegs(CrcRegs(regs, respond, k, frame), respond, k + CrcReads(respond, k), PcdTransceive, WithCrc(respond, k, frame))
  }

  /** The two chip commands: CalcCRC over the frame, then Transceive of the frame with its CRC_A. */
  function CrcExchangeFrames(respond: Respond, k: nat, frame: seq<bv8>): seq<Frame>
  {
    [Frame(PcdCalcCrc, frame), Frame(PcdTransceive, WithCrc(respond, k, frame))]
  }

  /** The CRC run and the exchange, given the state between them. */
  lemma CrcExchangePhases(regs: seq<bv8>, respond: Respond, k: nat, frame: seq<bv8>, regs1: seq<bv8>, k1: nat, buf: seq<bv8>)
    requires |regs| == 64 && regs1 == CrcRegs(regs, respond, k, frame)
    requires k1 == k + CrcReads(respond, k) && buf == WithCrc(respond, k, frame)
    ensures CrcExchangeOutcome(respond, k) == ExchangeOutcome(respond, k1, PcdTransceive)
    ensures k + CrcExchangeReads(respond, k) == k1 + ExchangeReads(respond, k1, PcdTransceive)
    ensures CrcExchangeRegs(regs, respond, k, frame) == ExchangeRegs(regs1, respond, k1, PcdTransceive, buf)
  {
  }

  /**
   * WriteTag's result from the WRITE command's answer a and the data block's answer b:
   * the data phase counts only after an ACK to the WRITE command; otherwise line 614
   * raises on an empty answer, and a non-empty refused answer ends the call quietly.
   */
  function WriteResult(a: Outcome, b: Outcome): WriteOutcome
  {
    if Acked(a) then DataSent(Acked(b))
    else if a.backData == [] then PhaseARaised
    else PhaseARejected
  }

  /** WriteTag's result when its first CRC run starts at script position k. */
  function WriteTagOutcome(respond: Respond, k: nat): WriteOutcome
  {
    var kB := k + CrcExchangeReads(respond, k);
    WriteResult(CrcExchangeOutcome(respond, k), CrcExchangeOutcome(respond, kB))
  }

  /** WriteTag's result in two phases: the WRITE command's exchange, then the data block's after it. */
  lemma WriteTagOutcomePhases(respond: Respond, k: nat, kB: nat, a: Outcome)
    requires a == CrcExchangeOutcome(respond, k) && kB == k + CrcExchangeReads(respond, k)
    ensures WriteTagOutcome(respond, k) == WriteResult(a, CrcExchangeOutcome(respond, kB))
  {
  }

  /** WriteTag raises exactly when the WRITE command's exchange ended in MI_ERR. */
  lemma WriteTagRaisesIffErr(respond: Respond, k: nat)
    ensures WriteTagOutcome(respond, k) == PhaseARaised <==> CrcExchangeOutcome(respond, k).status == Err
  {
  }

  /** The data block is sent exactly when the WRITE command was acknowledged. */
  lemma WriteTagDataSentIffAcked(respond: Respond, k: nat)
    ensures WriteTagOutcome(respond, k).DataSent? <==> Acked(CrcExchangeOutcome(respond, k))
  {
  }

  class MFRC522 {
    const spi: Chip
    ghost var calls: seq<Call>

    ghost predicate Valid()
      reads spi
    {
      spi.Valid()
    }

    constructor (spi: Chip)
      requires spi.Valid()
      ensures Valid() && this.spi == spi && calls == []
    {
      this.spi := spi;
      calls := [];
    }

    /** WriteReg: one transfer of the write address byte and the value. */
    method WriteReg(addr: bv8, val: bv8)
      requires Valid()
      modifies spi
      ensures var r := Index(addr);
        && spi.k == old(spi.k)
        && spi.regs == old(spi.regs)[r := val]
        && spi.fifo == FifoAfterWrite(old(spi.fifo), r, val)
        && spi.frames == old(spi.frames) + Started(old(spi.regs[CommandReg]), old(spi.fifo), r, val)
    {
      var rx := spi.Transfer([WriteAddress(addr), val]);
    }

    /** ReadReg: one transfer of the read address byte and a dummy; the answer is the second byte received. */
    method ReadReg(addr: bv8) returns (val: bv8)
      requires Valid()
      modifies spi
      ensures var r := Index(addr);
        && val == old(spi.Peek(r))
        && spi.k == old(spi.k) + Advance(r)
        && spi.regs == old(spi.regs) && spi.fifo == old(spi.fifo) && spi.frames == old(spi.frames)
    {
      var rx := spi.Transfer([ReadAddress(addr), 0]);
      val := rx[1];
    }

    /** SetBitMask: the register becomes its value read now OR mask. */
    method SetBitMask(reg: bv8, mask: bv8)
      requires Valid()
      modifies spi
      ensures var r := Index(reg); var v := old(spi.Peek(r)) | mask;
        && spi.k == old(spi.k) + Advance(r)
        && spi.regs == old(spi.regs)[r := v]
        && spi.fifo == FifoAfterWrite(old(spi.fifo), r, v)
        && spi.frames == old(spi.frames) + Started(old(spi.regs[CommandReg]), old(spi.fifo), r, v)
    {
      var tmp := ReadReg(reg);
      WriteReg(reg, tmp | mask);
    }

    /** ClearBitMask: the register becomes its value read now AND NOT mask. */
    method ClearBitMask(reg: bv8, mask: bv8)
      requires Valid()
      modifies spi
      ensures var r := Index(reg); var v := old(spi.Peek(r)) & !mask;
        && spi.k == old(spi.k) + Advance(r)
        && spi.regs == old(spi.regs)[r := v]
        && spi.fifo == FifoAfterWrite(old(spi.fifo), r, v)
        && spi.frames == old(spi.frames) + Started(old(spi.regs[CommandReg]), old(spi.fifo), r, v)
    {
      var tmp := ReadReg(reg);
      WriteReg(reg, tmp & !mask);
    }

    /** AntennaOn: sets TxControlReg bits 0x03, writing only when they are not both set already. */
    method AntennaOn()
      requires Valid()
      modifies spi
      ensures var t := TxControlReg as int;
        && spi.regs == old(spi.regs)[t := AntennaOnValue(old(spi.regs[t]))]
        && spi.k == old(spi.k) && spi.fifo == old(spi.fifo) && spi.frames == old(spi.frames)
    {
      var temp := ReadReg(TxControlReg);
      if temp & 0x03 != 0x03 {
        SetBitMask(TxControlReg, 0x03);
      } else {
        assert spi.regs == spi.regs[TxControlReg as int := temp | 0x03];
      }
    }

    /** AntennaOff: clears exactly TxControlReg bits 0x03. */
    method AntennaOff()
      requires Valid()
      modifies spi
      ensures var t := TxControlReg as int;
        && spi.regs == old(spi.regs)[t := AntennaOffValue(old(spi.regs[t]))]
        && spi.k == old(spi.k) && spi.fifo == old(spi.fifo) && spi.frames == old(spi.frames)
    {
      ClearBitMask(TxControlReg, 0x03);
    }

    /** MFRC522_ToCard's setup: enable the command's interrupts, clear Set1, flush the FIFO, go idle. */
    method PrepareCommand(command: bv8)
      requires Valid()
      modifies spi
      ensures spi.k == old(spi.k) + 2
      ensures spi.regs == PreparedRegs(old(spi.regs), spi.respond, old(spi.k), command)
      ensures spi.fifo == [] && spi.frames == old(spi.frames)
    {
      var irqEn: bv8 := 0x00;
      if command == PcdAuthent {
        irqEn := 0x12;
      }
      if command == PcdTransceive {
        irqEn := 0x77;
      }
      WriteReg(CommIEnReg, irqEn | 0x80);
      ClearBitMask(CommIrqReg, 0x80);
      SetBitMask(FIFOLevelReg, 0x80);
      assert (spi.respond(FIFOLevelReg as int, old(spi.k) + 1) | 0x80) & 0x80 != 0;
      WriteReg(CommandReg, PcdIdle);
    }

    /** MFRC522_ToCard's FIFO load: push the bytes of sendData, in order. */
    method LoadFifo(sendData: seq<bv8>)
      requires Valid()
      modifies spi
      ensures spi.k == old(spi.k) && spi.frames == old(spi.frames)
      ensures spi.fifo == old(spi.fifo) + sendData
      ensures spi.regs == LoadedRegs(old(spi.regs), sendData)
    {
      for i := 0 to |sendData|
        invariant spi.k == old(spi.k) && spi.frames == old(spi.frames)
        invariant spi.fifo == old(spi.fifo) + sendData[..i]
        invariant spi.regs == old(spi.regs)[FIFODataReg as int := LastPushed(old(spi.regs)[FIFODataReg], sendData[..i])]
      {
        WriteReg(FIFODataReg, sendData[i]);
        assert sendData[..i + 1] == sendData[..i] + [sendData[i]];
      }
      assert sendData[..|sendData|] == sendData;
    }

    /** MFRC522_ToCard's launch: write the command and, for Transceive, set StartSend. */
    method Launch(command: bv8)
      requires Valid() && spi.regs[CommandReg] == PcdIdle
      modifies spi
      ensures spi.k == old(spi.k) && spi.fifo == old(spi.fifo)
      ensures spi.frames == old(spi.frames) + (if command == PcdIdle then [] else [Frame(command, old(spi.fifo))])
      ensures spi.regs == LaunchedRegs(old(spi.regs), command)
    {
      ghost var regs0 := spi.regs;
      WriteReg(CommandReg, command);
      if command == PcdTransceive {
        assert (regs0[BitFramingReg] | 0x80) & 0x80 != 0;
        SetBitMask(BitFramingReg, 0x80);
      }
    }

    /** First half of MFRC522_ToCard: the setup, the FIFO load and the launch. */
    method StartCommand(command: bv8, sendData: seq<bv8>)
      requires Valid()
      modifies spi
      ensures spi.k == old(spi.k) + 2
      ensures spi.regs == StartedRegs(old(spi.regs), spi.respond, old(spi.k), command, sendData)
      ensures spi.fifo == sendData
      ensures spi.frames == old(spi.frames) + (if command == PcdIdle then [] else [Frame(command, sendData)])
    {
      PrepareCommand(command);
      LoadFifo(sendData);
      Launch(command);
    }

    /**
     * The wait loop of MFRC522_ToCard: read CommIrqReg until the timer bit or one of
     * waitIRq shows, or the counter i, started at PollBudget, reaches 0.  Returns the
     * last value read and the final counter.
     */
    method WaitForIrq(command: bv8) returns (n: bv8, i: int)
      requires Valid()
      modifies spi
      ensures var m := PollReads(spi.respond, CommIrqReg as int, old(spi.k), IrqMask(command), PollBudget, 0);
        && i == PollBudget - m
        && n == spi.respond(CommIrqReg as int, old(spi.k) + m - 1)
        && spi.k == old(spi.k) + m
      ensures spi.regs == old(spi.regs) && spi.fifo == old(spi.fifo) && spi.frames == old(spi.frames)
    {
      ghost var k0 := spi.k;
      var waitIRq := WaitIrq(command);
      i := PollBudget;
      while true
        invariant 0 < i <= PollBudget
        invariant spi.k == k0 + (PollBudget - i)
        invariant spi.regs == old(spi.regs) && spi.fifo == old(spi.fifo) && spi.frames == old(spi.frames)
        invariant PollReads(spi.respond, CommIrqReg as int, k0, IrqMask(command), PollBudget, 0) ==
          PollReads(spi.respond, CommIrqReg as int, k0, IrqMask(command), PollBudget, PollBudget - i)
        decreases i
      {
        ghost var j := PollBudget - i;
        n := ReadReg(CommIrqReg);
        assert n == spi.respond(CommIrqReg as int, k0 + j);
        assert n & IrqMask(command) != 0 <==> n & 0x01 != 0 || n & WaitIrq(command) != 0;
        i := i - 1;
        if i == 0 || n & 0x01 != 0 || n & waitIRq != 0 {
          PollReadsLast(spi.respond, CommIrqReg as int, k0, IrqMask(command), PollBudget, j);
          break;
        }
        PollReadsStep(spi.respond, CommIrqReg as int, k0, IrqMask(command), PollBudget, j);
      }
    }

    /** The drain loop of MFRC522_ToCard: count reads of FIFODataReg, in order. */
    method Drain(count: nat) returns (backData: seq<bv8>)
      requires Valid()
      modifies spi
      ensures backData == FifoBytes(spi.respond, old(spi.k), count)
      ensures spi.k == old(spi.k) + count
      ensures spi.regs == old(spi.regs) && spi.fifo == old(spi.fifo) && spi.frames == old(spi.frames)
    {
      backData := [];
      for j := 0 to count
        invariant spi.k == old(spi.k) + j
        invariant backData == FifoBytes(spi.respond, old(spi.k), j)
        invariant spi.regs == old(spi.regs) && spi.fifo == old(spi.fifo) && spi.frames == old(spi.frames)
      {
        var b := ReadReg(FIFODataReg);
        backData := backData + [b];
      }
    }

    /**
     * The Transceive tail of MFRC522_ToCard: read the FIFO level and RxLastBits, compute
     * the bit length, clamp the level to 1..MaxLen and drain that many bytes.
     */
    method ReadAnswer() returns (backData: seq<bv8>, backLen: int)
      requires Valid()
      modifies spi
      ensures var level := old(spi.respond(FIFOLevelReg as int, spi.k));
        var control := old(spi.respond(ControlReg as int, spi.k + 1));
        && backLen == BitLength(level, control)
        && backData == FifoBytes(spi.respond, old(spi.k) + 2, DrainCount(level))
        && spi.k == old(spi.k) + 2 + DrainCount(level)
      ensures spi.regs == old(spi.regs) && spi.fifo == old(spi.fifo) && spi.frames == old(spi.frames)
    {
      var n := ReadReg(FIFOLevelReg);
      var control := ReadReg(ControlReg);
      var lastBits := control & 0x07;
      if lastBits != 0 {
        backLen := (n as int - 1) * 8 + lastBits as int;
      } else {
        backLen := n as int * 8;
      }
      var count := n as int;
      if count == 0 {
        count := 1;
      }
      if count > MaxLen {
        count := MaxLen;
      }
      backData := Drain(count);
    }

    /**
     * The checks MFRC522_ToCard makes once the wait ended in time: ErrorReg decides
     * MI_ERR, the timer bit with the command's enables decides MI_NOTAGERR, and a
     * Transceive answer is read back.
     */
    method Conclude(command: bv8, n: bv8) returns (o: Outcome)
      requires Valid()
      modifies spi
      ensures o == Verdict(spi.respond, old(spi.k), n, command)
      ensures spi.k == old(spi.k) + VerdictReads(spi.respond, old(spi.k), command)
      ensures spi.regs == old(spi.regs) && spi.fifo == old(spi.fifo) && spi.frames == old(spi.frames)
    {
      var irqEn := IrqEn(command);
      var status := Err;
      var backData: seq<bv8> := [];
      var backLen := 0;
      var error := ReadReg(ErrorReg);
      if error & 0x1B == 0x00 {
        status := Ok;
        if n & irqEn & 0x01 != 0 {
          status := NoTagErr;
        }
        if command == PcdTransceive {
          backData, backLen := ReadAnswer();
        }
      }
      o := Outcome(status, backData, backLen);
    }

    /** The wait loop followed by clearing StartSend, which MFRC522_ToCard does for every command. */
    method AwaitIrq(command: bv8) returns (n: bv8, i: int)
      requires Valid()
      modifies spi
      ensures var m := PollReads(spi.respond, CommIrqReg as int, old(spi.k), IrqMask(command), PollBudget, 0);
        && i == PollBudget - m
        && n == spi.respond(CommIrqReg as int, old(spi.k) + m - 1)
        && spi.k == old(spi.k) + m
      ensures spi.regs == old(spi.regs)[BitFramingReg as int := old(spi.regs[BitFramingReg]) & !0x80]
      ensures spi.fifo == old(spi.fifo) && spi.frames == old(spi.frames)
    {
      n, i := WaitForIrq(command);
      assert (spi.regs[BitFramingReg] & !0x80) & 0x80 == 0;
      ClearBitMask(BitFramingReg, 0x80);
    }

    /**
     * Second half of MFRC522_ToCard: the wait loop, clearing StartSend, and the verdict
     * when the wait ended before the counter ran out.
     */
    method FinishCommand(command: bv8) returns (o: Outcome)
      requires Valid()
      modifies spi
      ensures o == WaitOutcome(spi.respond, old(spi.k), command)
      ensures spi.k == old(spi.k) + WaitReads(spi.respond, old(spi.k), command)
      ensures spi.regs == old(spi.regs)[BitFramingReg as int := old(spi.regs[BitFramingReg]) & !0x80]
      ensures spi.fifo == old(spi.fifo) && spi.frames == old(spi.frames)
    {
      ghost var w := spi.k;
      ghost var m := PollReads(spi.respond, CommIrqReg as int, w, IrqMask(command), PollBudget, 0);
      var n, i := AwaitIrq(command);
      ghost var at := spi.k;
      if i != 0 {
        o := Conclude(command, n);
      } else {
        o := Outcome(Err, [], 0);
      }
      WaitFinish(spi.respond, w, command, m, at, n, o, spi.k - w);
    }

    /**
     * MFRC522_ToCard: load sendData into the FIFO, start the command, poll CommIrqReg
     * at most PollBudget times, then classify the result and, for Transceive, drain
     * the FIFO.  The result is the (status, backData, backLen) triple.
     */
    method ToCard(command: bv8, sendData: seq<bv8>) returns (o: Outcome)
      requires Valid()
      modifies spi
      ensures o == ExchangeOutcome(spi.respond, old(spi.k), command)
      ensures spi.k == old(spi.k) + ExchangeReads(spi.respond, old(spi.k), command)
      ensures spi.regs == ExchangeRegs(old(spi.regs), spi.respond, old(spi.k), command, sendData)
      ensures spi.fifo == sendData
      ensures spi.frames == old(spi.frames) + (if command == PcdIdle then [] else [Frame(command, sendData)])
    {
      StartCommand(command, sendData);
      ExchangeRegsAfterStart(old(spi.regs), spi.respond, old(spi.k), command, sendData);
      o := FinishCommand(command);
    }

    /** CalulateCRC's setup: clear CRCIRq, flush the FIFO, push data and start CalcCRC. */
    method StartCrc(data: seq<bv8>)
      requires Valid()
      modifies spi
      ensures spi.k == old(spi.k) + 2
      ensures spi.regs == CrcRegs(old(spi.regs), spi.respond, old(spi.k), data)
      ensures spi.fifo == data
      ensures spi.frames == old(spi.frames) + [Frame(PcdCalcCrc, data)]
    {
      ClearBitMask(DivIrqReg, 0x04);
      SetBitMask(FIFOLevelReg, 0x80);
      assert (spi.respond(FIFOLevelReg as int, old(spi.k) + 1) | 0x80) & 0x80 != 0;
      LoadFifo(data);
      WriteReg(CommandReg, PcdCalcCrc);
    }

    /**
     * CalulateCRC's wait loop: read DivIrqReg until CRCIRq (0x04) shows or the counter i,
     * started at CrcBudget, reaches 0.
     */
    method WaitForCrc() returns (i: int)
      requires Valid()
      modifies spi
      ensures var m := PollReads(spi.respond, DivIrqReg as int, old(spi.k), 0x04, CrcBudget, 0);
        && i == CrcBudget - m
        && spi.k == old(spi.k) + m
      ensures spi.regs == old(spi.regs) && spi.fifo == old(spi.fifo) && spi.frames == old(spi.frames)
    {
      ghost var k0 := spi.k;
      i := CrcBudget;
      while true
        invariant 0 < i <= CrcBudget
        invariant spi.k == k0 + (CrcBudget - i)
        invariant spi.regs == old(spi.regs) && spi.fifo == old(spi.fifo) && spi.frames == old(spi.frames)
        invariant PollReads(spi.respond, DivIrqReg as int, k0, 0x04, CrcBudget, 0) ==
          PollReads(spi.respond, DivIrqReg as int, k0, 0x04, CrcBudget, CrcBudget - i)
        decreases i
      {
        ghost var j := CrcBudget - i;
        var n := ReadReg(DivIrqReg);
        assert n == spi.respond(DivIrqReg as int, k0 + j);
        i := i - 1;
        if !(i != 0 && n & 0x04 == 0) {
          PollReadsLast(spi.respond, DivIrqReg as int, k0, 0x04, CrcBudget, j);
          break;
        }
        PollReadsStep(spi.respond, DivIrqReg as int, k0, 0x04, CrcBudget, j);
      }
    }

    /**
     * CalulateCRC: let the chip compute the CRC_A of data and return it low byte first,
     * [CRCResultRegL, CRCResultRegM], whether or not CRCIRq showed within the budget.
     */
    method CalculateCrc(data: seq<bv8>) returns (pOutData: seq<bv8>)
      requires Valid()
      modifies spi
      ensures pOutData == CrcOf(spi.respond, old(spi.k))
      ensures spi.k == old(spi.k) + CrcReads(spi.respond, old(spi.k))
      ensures spi.regs == CrcRegs(old(spi.regs), spi.respond, old(spi.k), data)
      ensures spi.fifo == data
      ensures spi.frames == old(spi.frames) + [Frame(PcdCalcCrc, data)]
    {
      ghost var k0 := spi.k;
      StartCrc(data);
      var i := WaitForCrc();
      assert spi.k == k0 + 2 + CrcPolls(spi.respond, k0);
      pOutData := ReadCrcResult();
    }

    /** CalulateCRC's last step: read CRCResultRegL, then CRCResultRegM. */
    method ReadCrcResult() returns (crc: seq<bv8>)
      requires Valid()
      modifies spi
      ensures crc == [spi.respond(CRCResultRegL as int, old(spi.k)), spi.respond(CRCResultRegM as int, old(spi.k) + 1)]
      ensures spi.k == old(spi.k) + 2
      ensures spi.regs == old(spi.regs) && spi.fifo == old(spi.fifo) && spi.frames == old(spi.frames)
    {
      var low := ReadReg(CRCResultRegL);
      var high := ReadReg(CRCResultRegM);
      crc := [low, high];
    }

    /** Request: REQA/WUPA with 7-bit framing; MI_OK only for an OK exchange of exactly 16 bits. */
    method Request(reqMode: bv8) returns (status: Status, backBits: int)
      requires Valid()
      modifies this, spi
      ensures Valid()
      ensures var regs1 := old(spi.regs)[BitFramingReg as int := 0x07];
        var o := ExchangeOutcome(spi.respond, old(spi.k), PcdTransceive);
        && status == RequestStatus(o) && backBits == o.backLen
        && spi.k == old(spi.k) + ExchangeReads(spi.respond, old(spi.k), PcdTransceive)
        && spi.regs == ExchangeRegs(regs1, spi.respond, old(spi.k), PcdTransceive, [reqMode])
        && spi.fifo == [reqMode]
        && spi.frames == old(spi.frames) + [Frame(PcdTransceive, [reqMode])]
      ensures calls == old(calls) + [RequestCall(reqMode, status, backBits)]
    {
      WriteReg(BitFramingReg, 0x07);
      var tagType := [reqMode];
      var o := ToCard(PcdTransceive, tagType);
      status, backBits := o.status, o.backLen;
      if status != Ok || backBits != 0x10 {
        status := Err;
      }
      calls := calls + [RequestCall(reqMode, status, backBits)];
    }

    /** Anticoll's check loop: XOR of the first four answer bytes. */
    method SerialCheck(backData: seq<bv8>) returns (serNumCheck: bv8)
      requires |backData| >= 4
      ensures serNumCheck == Xor(backData[..4])
    {
      serNumCheck := 0;
      for i := 0 to 4
        invariant serNumCheck == Xor(backData[..i])
      {
        XorStep(backData, i);
        serNumCheck := serNumCheck ^ backData[i];
      }
    }

    /**
     * Anticoll: cascade-level-1 anticollision [0x93, 0x20]; an OK answer is kept OK only
     * when it has five bytes whose XOR of the first four equals the fifth (BCC).
     */
    method Anticoll() returns (status: Status, backData: seq<bv8>)
      requires Valid()
      modifies this, spi
      ensures Valid()
      ensures var regs1 := old(spi.regs)[BitFramingReg as int := 0x00];
        var o := ExchangeOutcome(spi.respond, old(spi.k), PcdTransceive);
        && status == AnticollStatus(o) && backData == o.backData
        && spi.k == old(spi.k) + ExchangeReads(spi.respond, old(spi.k), PcdTransceive)
        && spi.regs == ExchangeRegs(regs1, spi.respond, old(spi.k), PcdTransceive, [PiccAnticoll, 0x20])
        && spi.fifo == [PiccAnticoll, 0x20]
        && spi.frames == old(spi.frames) + [Frame(PcdTransceive, [PiccAnticoll, 0x20])]
      ensures calls == old(calls) + [AnticollCall(status, backData)]
    {
      WriteReg(BitFramingReg, 0x00);
      var serNum := [PiccAnticoll, 0x20];
      var o := ToCard(PcdTransceive, serNum);
      status, backData := o.status, o.backData;
      if status == Ok {
        if |backData| == 5 {
          var serNumCheck := SerialCheck(backData);
          if serNumCheck != backData[4] {
            status := Err;
          }
        } else {
          status := Err;
        }
      }
      calls := calls + [AnticollCall(status, backData)];
    }

    /** The step SelectTag, ReadTag and WriteTag share: CalulateCRC over frame, append it, Transceive. */
    method TransceiveWithCrc(frame: seq<bv8>) returns (o: Outcome)
      requires Valid()
      modifies spi
      ensures o == CrcExchangeOutcome(spi.respond, old(spi.k))
      ensures spi.k == old(spi.k) + CrcExchangeReads(spi.respond, old(spi.k))
      ensures spi.regs == CrcExchangeRegs(old(spi.regs), spi.respond, old(spi.k), frame)
      ensures spi.fifo == WithCrc(spi.respond, old(spi.k), frame)
      ensures spi.frames == old(spi.frames) + CrcExchangeFrames(spi.respond, old(spi.k), frame)
    {
      var pOut := CalculateCrc(frame);
      ghost var regs1, k1 := spi.regs, spi.k;
      var buf := frame + [pOut[0]] + [pOut[1]];
      assert buf == WithCrc(spi.respond, old(spi.k), frame);
      CrcExchangePhases(old(spi.regs), spi.respond, old(spi.k), frame, regs1, k1, buf);
      o := ToCard(PcdTransceive, buf);
      AppendAssoc(old(spi.frames), [Frame(PcdCalcCrc, frame)], [Frame(PcdTransceive, buf)]);
    }

    /**
     * SelectTag: SELECT [0x93, 0x70, uid[0..5], CRC_A]; the answer is the SAK byte of a
     * 24-bit OK answer, else 0.
     */
    method SelectTag(serNum: seq<bv8>) returns (size: bv8)
      requires Valid() && |serNum| >= 5
      modifies this, spi
      ensures Valid()
      ensures var head := SelectHead(serNum);
        && size == SelectSize(CrcExchangeOutcome(spi.respond, old(spi.k)))
        && spi.k == old(spi.k) + CrcExchangeReads(spi.respond, old(spi.k))
        && spi.regs == CrcExchangeRegs(old(spi.regs), spi.respond, old(spi.k), head)
        && spi.fifo == WithCrc(spi.respond, old(spi.k), head)
        && spi.frames == old(spi.frames) + CrcExchangeFrames(spi.respond, old(spi.k), head)
      ensures calls == old(calls) + [SelectCall(serNum, size)]
    {
      var buf := [PiccSelectTag, 0x70];
      for i := 0 to 5
        invariant buf == [PiccSelectTag, 0x70] + serNum[..i]
      {
        assert serNum[..i + 1] == serNum[..i] + [serNum[i]];
        buf := buf + [serNum[i]];
      }
      var o := TransceiveWithCrc(buf);
      if o.status == Ok && o.backLen == 0x18 {
        size := o.backData[0];
      } else {
        size := 0;
      }
      calls := calls + [SelectCall(serNum, size)];
    }

    /**
     * Authenticate: run MFAuthent over [authMode, blockAddr] + key + uid[0..4] and return
     * the exchange status unchanged; the Status2Reg read that follows only feeds a log line.
     */
    method Authenticate(authMode: bv8, blockAddr: bv8, sectorKey: seq<bv8>, serNum: seq<bv8>) returns (status: Status)
      requires Valid() && |serNum| >= 4
      modifies this, spi
      ensures Valid()
      ensures status == ExchangeOutcome(spi.respond, old(spi.k), PcdAuthent).status
      ensures status != NoTagErr
      ensures var frame := AuthFrame(authMode, blockAddr, sectorKey, serNum);
        && spi.k == old(spi.k) + ExchangeReads(spi.respond, old(spi.k), PcdAuthent) + 1
        && spi.regs == ExchangeRegs(old(spi.regs), spi.respond, old(spi.k), PcdAuthent, frame)
        && spi.fifo == frame
        && spi.frames == old(spi.frames) + [Frame(PcdAuthent, frame)]
      ensures calls == old(calls) + [AuthCall(authMode, blockAddr, sectorKey, serNum, status)]
    {
      var buff := [authMode, blockAddr];
      for i := 0 to |sectorKey|
        invariant buff == [authMode, blockAddr] + sectorKey[..i]
      {
        assert sectorKey[..i + 1] == sectorKey[..i] + [sectorKey[i]];
        buff := buff + [sectorKey[i]];
      }
      assert sectorKey[..|sectorKey|] == sectorKey;
      for i := 0 to 4
        invariant buff == [authMode, blockAddr] + sectorKey + serNum[..i]
      {
        assert serNum[..i + 1] == serNum[..i] + [serNum[i]];
        buff := buff + [serNum[i]];
      }
      AuthentNeverNoTag(spi.respond, spi.k);
      var o := ToCard(PcdAuthent, buff);
      status := o.status;
      var status2 := ReadReg(Status2Reg);
      calls := calls + [AuthCall(authMode, blockAddr, sectorKey, serNum, status)];
    }

    /** StopCrypto1: clear MFCrypto1On (bit 0x08 of Status2Reg), keeping its other bits as read. */
    method StopCrypto1()
      requires Valid()
      modifies this, spi
      ensures Valid()
      ensures var s := Status2Reg as int;
        && spi.regs == old(spi.regs)[s := spi.respond(s, old(spi.k)) & !0x08]
        && spi.k == old(spi.k) + 1 && spi.fifo == old(spi.fifo) && spi.frames == old(spi.frames)
      ensures calls == old(calls) + [StopCall]
    {
      ClearBitMask(Status2Reg, 0x08);
      calls := calls + [StopCall];
    }

    /** ReadTag: READ [0x30, blockAddr, CRC_A]; the answer is returned only when it is exactly 16 bytes. */
    method ReadTag(blockAddr: bv8) returns (result: Option<seq<bv8>>)
      requires Valid()
      modifies this, spi
      ensures Valid()
      ensures var frame := [PiccRead, blockAddr];
        && result == ReadResult(CrcExchangeOutcome(spi.respond, old(spi.k)))
        && spi.k == old(spi.k) + CrcExchangeReads(spi.respond, old(spi.k))
        && spi.regs == CrcExchangeRegs(old(spi.regs), spi.respond, old(spi.k), frame)
        && spi.fifo == WithCrc(spi.respond, old(spi.k), frame)
        && spi.frames == old(spi.frames) + CrcExchangeFrames(spi.respond, old(spi.k), frame)
      ensures calls == old(calls) + [ReadCall(blockAddr, result)]
    {
      var recvData := [PiccRead, blockAddr];
      var o := TransceiveWithCrc(recvData);
      if |o.backData| == 16 {
        result := Some(o.backData);
      } else {
        result := None;
      }
      calls := calls + [ReadCall(blockAddr, result)];
    }

    /** WriteTag's data phase: the first 16 bytes of writeData with their CRC_A; true on a 4-bit ACK. */
    method WriteData(writeData: seq<bv8>) returns (acked: bool)
      requires Valid() && |writeData| >= 16
      modifies spi
      ensures var data := writeData[..16];
        && acked == Acked(CrcExchangeOutcome(spi.respond, old(spi.k)))
        && spi.k == old(spi.k) + CrcExchangeReads(spi.respond, old(spi.k))
        && spi.regs == CrcExchangeRegs(old(spi.regs), spi.respond, old(spi.k), data)
        && spi.fifo == WithCrc(spi.respond, old(spi.k), data)
        && spi.frames == old(spi.frames) + CrcExchangeFrames(spi.respond, old(spi.k), data)
    {
      var buf := [];
      for i := 0 to 16
        invariant buf == writeData[..i]
      {
        assert writeData[..i + 1] == writeData[..i] + [writeData[i]];
        buf := buf + [writeData[i]];
      }
      var b := TransceiveWithCrc(buf);
      acked := b.status == Ok && b.backLen == 4 && b.backData[0] & 0x0F == 0x0A;
    }

    /**
     * What WriteTag does with the WRITE command's answer a: MI_ERR unless it is a 4-bit
     * ACK; the debug line indexes a.backData[0] (raising on an empty answer); after an
     * ACK, the data phase.
     */
    method WriteFollowUp(a: Outcome, writeData: seq<bv8>) returns (outcome: WriteOutcome)
      requires Valid() && |writeData| >= 16
      requires a.status == Err <==> a.backData == []
      modifies spi
      ensures outcome == WriteResult(a, CrcExchangeOutcome(spi.respond, old(spi.k)))
      ensures outcome.DataSent? <==> Acked(a)
      ensures var data := writeData[..16];
        if Acked(a) then
          && spi.k == old(spi.k) + CrcExchangeReads(spi.respond, old(spi.k))
          && spi.regs == CrcExchangeRegs(old(spi.regs), spi.respond, old(spi.k), data)
          && spi.fifo == WithCrc(spi.respond, old(spi.k), data)
          && spi.frames == old(spi.frames) + CrcExchangeFrames(spi.respond, old(spi.k), data)
        else
          && spi.k == old(spi.k) && spi.regs == old(spi.regs)
          && spi.fifo == old(spi.fifo) && spi.frames == old(spi.frames)
    {
      var status := a.status;
      if !(status == Ok) || !(a.backLen == 4) || !(a.backData[0] & 0x0F == 0x0A) {
        status := Err;
      }
      if |a.backData| == 0 {
        outcome := PhaseARaised;
      } else if status == Ok {
        var acked := WriteData(writeData);
        outcome := DataSent(acked);
      } else {
        outcome := PhaseARejected;
      }
    }

    /**
     * WriteTag: WRITE [0xA0, blockAddr, CRC_A], then, only after a 4-bit ACK, the 16 data
     * bytes with their CRC_A.  A refused data phase is only logged.
     */
    method WriteTag(blockAddr: bv8, writeData: seq<bv8>)
      returns (outcome: WriteOutcome, ghost kA: nat, ghost regsA: seq<bv8>, ghost framesA: seq<Frame>)
      requires Valid() && |writeData| >= 16
      modifies this, spi
      ensures Valid()
      ensures outcome == WriteTagOutcome(spi.respond, old(spi.k))
      ensures var head := [PiccWrite, blockAddr];
        && kA == old(spi.k) + CrcExchangeReads(spi.respond, old(spi.k))
        && regsA == CrcExchangeRegs(old(spi.regs), spi.respond, old(spi.k), head)
        && framesA == old(spi.frames) + CrcExchangeFrames(spi.respond, old(spi.k), head)
      ensures outcome.DataSent? ==>
        && spi.k == kA + CrcExchangeReads(spi.respond, kA)
        && spi.regs == CrcExchangeRegs(regsA, spi.respond, kA, writeData[..16])
        && spi.fifo == WithCrc(spi.respond, kA, writeData[..16])
        && spi.frames == framesA + CrcExchangeFrames(spi.respond, kA, writeData[..16])
      ensures !outcome.DataSent? ==>
        && spi.k == kA && spi.regs == regsA && spi.frames == framesA
        && spi.fifo == WithCrc(spi.respond, old(spi.k), [PiccWrite, blockAddr])
      ensures calls == old(calls) + [WriteCall(blockAddr, writeData[..16], outcome)]
    {
      var buff := [PiccWrite, blockAddr];
      ghost var k0 := spi.k;
      var a := TransceiveWithCrc(buff);
      kA, regsA, framesA := spi.k, spi.regs, spi.frames;
      WriteTagOutcomePhases(spi.respond, k0, kA, a);
      outcome := WriteFollowUp(a, writeData);
      ghost var kC, regsC, fifoC, framesC := spi.k, spi.regs, spi.fifo, spi.frames;
      calls := calls + [WriteCall(blockAddr, writeData[..16], outcome)];
      assert spi.k == kC && spi.regs == regsC && spi.fifo == fifoC && spi.frames == framesC;
    }
  }
}
