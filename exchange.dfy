/**
 * What one MFRC522_ToCard exchange and one CalulateCRC run observe and return,
 * as functions of the chip's script (src/mfrc522/MFRC522.py:257-347, 426-460).
 * Both operations read scripted registers in a fixed order, starting at script
 * position k; these functions say which positions they read and what they
 * conclude from them.
 */
module Exchange {
  import opened Registers
  import opened ChipSim

  /** Number of CommIrqReg polls MFRC522_ToCard allows (counter i starts at 2000). */
  const PollBudget: nat := 2000
  /** Number of DivIrqReg polls CalulateCRC allows (counter i starts at 0xFF). */
  const CrcBudget: nat := 255

  /** (status, backData, backLen) as MFRC522_ToCard returns them. */
  datatype Outcome = Outcome(status: Status, backData: seq<bv8>, backLen: int)

  /** Interrupts enabled for a command (irqEn). */
  function IrqEn(command: bv8): bv8
  {
    if command == PcdAuthent then 0x12
    else if command == PcdTransceive then 0x77
    else 0x00
  }

  /** Interrupts that end the wait for a command (waitIRq). */
  function WaitIrq(command: bv8): bv8
  {
    if command == PcdAuthent then 0x10
    else if command == PcdTransceive then 0x30
    else 0x00
  }

  /**
   * What the two interrupt tables mean: every interrupt that ends a wait is enabled;
   * the timer interrupt (bit 0, which MI_NOTAGERR reports) is enabled for Transceive
   * only and never ends a wait by itself being a wait bit; IdleIRq (0x10) ends the wait
   * of authentication and Transceive, RxIRq (0x20) that of Transceive only; any other
   * command waits on the timer or the counter.
   */
  lemma IrqTable(command: bv8)
    ensures IrqEn(command) & WaitIrq(command) == WaitIrq(command)
    ensures IrqEn(command) & 0x01 != 0 <==> command == PcdTransceive
    ensures IrqEn(command) & 0x80 == 0
    ensures WaitIrq(command) & 0x01 == 0
    ensures WaitIrq(command) & 0x10 != 0 <==> command == PcdAuthent || command == PcdTransceive
    ensures WaitIrq(command) & 0x20 != 0 <==> command == PcdTransceive
    ensures WaitIrq(command) == 0 <==> command != PcdAuthent && command != PcdTransceive
  {
  }

  /** The q-th poll of register reg, counted from script position base, shows a bit of mask. */
  predicate Hit(respond: Respond, reg: int, base: nat, mask: bv8, q: nat)
  {
    respond(reg, base + q) & mask != 0
  }

  /**
   * Number of reads a countdown poll loop makes when polls j, j+1, ... are still to come:
   * it stops after the first read that shows a bit of mask, or after read number
   * budget - 1 whatever that read shows.
   */
  function PollReads(respond: Respond, reg: int, base: nat, mask: bv8, budget: nat, j: nat): (m: nat)
    requires j < budget
    ensures j < m <= budget
    decreases budget - j
  {
    if j == budget - 1 || Hit(respond, reg, base, mask, j) then j + 1
    else PollReads(respond, reg, base, mask, budget, j + 1)
  }

  /** The loop stops early only on a read that shows a bit of mask, and no earlier read does. */
  lemma {:induction false} PollReadsStop(respond: Respond, reg: int, base: nat, mask: bv8, budget: nat, j: nat)
    requires j < budget
    ensures var m := PollReads(respond, reg, base, mask, budget, j);
      && (m == budget || Hit(respond, reg, base, mask, m - 1))
      && forall q :: j <= q < m - 1 ==> !Hit(respond, reg, base, mask, q)
    decreases budget - j
  {
    if j == budget - 1 || Hit(respond, reg, base, mask, j) {
    } else {
      PollReadsStop(respond, reg, base, mask, budget, j + 1);
    }
  }

  /** The loop ends with poll j when that poll shows a bit of mask or is the last one. */
  lemma PollReadsLast(respond: Respond, reg: int, base: nat, mask: bv8, budget: nat, j: nat)
    requires j < budget && (j + 1 == budget || respond(reg, base + j) & mask != 0)
    ensures PollReads(respond, reg, base, mask, budget, j) == j + 1
  {
  }

  /** A poll that shows no bit of mask, before the last one, leaves the count to the polls after it. */
  lemma PollReadsStep(respond: Respond, reg: int, base: nat, mask: bv8, budget: nat, j: nat)
    requires j + 1 < budget && respond(reg, base + j) & mask == 0
    ensures PollReads(respond, reg, base, mask, budget, j) == PollReads(respond, reg, base, mask, budget, j + 1)
  {
  }

  /** Polling the CommIrqReg stops on the timer bit (0x01) or on the command's wait bits. */
  function IrqMask(command: bv8): bv8
  {
    0x01 | WaitIrq(command)
  }

  /** The q-th CommIrqReg poll of an exchange starting at script position k ends the wait. */
  predicate IrqHit(respond: Respond, k: nat, command: bv8, q: nat)
  {
    Hit(respond, CommIrqReg as int, k + 2, IrqMask(command), q)
  }

  /** Reads of CommIrqReg made by the wait loop of an exchange starting at script position k. */
  function IrqPolls(respond: Respond, k: nat, command: bv8): (m: nat)
    ensures 1 <= m <= PollBudget
  {
    PollReads(respond, CommIrqReg as int, k + 2, IrqMask(command), PollBudget, 0)
  }

  /**
   * The counter reaches 0 exactly when none of the first 1999 polls showed an
   * interrupt: an interrupt seen on the 2000th poll still counts as a timeout.
   */
  lemma TimeoutIff(respond: Respond, k: nat, command: bv8)
    ensures IrqPolls(respond, k, command) == PollBudget <==>
      forall q :: 0 <= q < PollBudget - 1 ==> !IrqHit(respond, k, command, q)
  {
    var m := IrqPolls(respond, k, command);
    PollReadsStop(respond, CommIrqReg as int, k + 2, IrqMask(command), PollBudget, 0);
    if m == PollBudget {
      forall q | 0 <= q < PollBudget - 1
        ensures !IrqHit(respond, k, command, q)
      {
      }
    } else {
      assert IrqHit(respond, k, command, m - 1);
    }
  }

  /** Bytes drained from the FIFO: the level read, clamped to 1..MaxLen. */
  function DrainCount(level: bv8): (c: nat)
    ensures 1 <= c <= MaxLen
    ensures level == 0 ==> c == 1
    ensures 1 <= level as int <= MaxLen ==> c == level as int
    ensures level as int > MaxLen ==> c == MaxLen
  {
    if level == 0 then 1
    else if level as int > MaxLen then MaxLen
    else level as int
  }

  /**
   * Received bit count from the FIFO level and ControlReg, whose low three bits
   * (RxLastBits) give the valid bits of the last byte, 0 meaning all eight.  An empty
   * FIFO gives RxLastBits - 8, or 0: a count of at most 0.
   */
  function BitLength(level: bv8, control: bv8): (bits: int)
    ensures bits <= 8 * level as int
    ensures bits > 8 * (level as int - 1)
    ensures bits % 8 == (control & 0x07) as int
  {
    var lastBits := control & 0x07;
    assert lastBits as int < 8;
    if lastBits != 0 then (level as int - 1) * 8 + lastBits as int
    else level as int * 8
  }

  /** The count bytes read from FIFODataReg starting at script position base. */
  function FifoBytes(respond: Respond, base: nat, count: nat): (s: seq<bv8>)
    ensures |s| == count
  {
    if count == 0 then [] else FifoBytes(respond, base, count - 1) + [respond(FIFODataReg as int, base + count - 1)]
  }

  /** The j-th byte drained is the j-th read of FIFODataReg: the FIFO is read out in order. */
  lemma {:induction false} FifoBytesInOrder(respond: Respond, base: nat, count: nat)
    ensures forall j :: 0 <= j < count ==> FifoBytes(respond, base, count)[j] == respond(FIFODataReg as int, base + j)
  {
    if count > 0 {
      FifoBytesInOrder(respond, base, count - 1);
    }
  }

  /**
   * What MFRC522_ToCard concludes once the wait ended before the counter ran out:
   * n is the last CommIrqReg value read and `at` the script position of the ErrorReg
   * read that follows; for Transceive, FIFOLevelReg, ControlReg and the FIFO bytes
   * come next.
   */
  function Verdict(respond: Respond, at: nat, n: bv8, command: bv8): (o: Outcome)
    ensures o.status == Err ==> o.backData == [] && o.backLen == 0
    ensures command != PcdTransceive ==> o.backData == [] && o.backLen == 0
    ensures command == PcdTransceive && o.status != Err ==> 1 <= |o.backData| <= MaxLen
  {
    if respond(ErrorReg as int, at) & 0x1B != 0 then Outcome(Err, [], 0)
    else
      var status := if n & IrqEn(command) & 0x01 != 0 then NoTagErr else Ok;
      if command != PcdTransceive then Outcome(status, [], 0)
      else
        var level := respond(FIFOLevelReg as int, at + 1);
        var control := respond(ControlReg as int, at + 2);
        Outcome(status, FifoBytes(respond, at + 3, DrainCount(level)), BitLength(level, control))
  }

  /** Number of scripted reads Verdict accounts for. */
  function VerdictReads(respond: Respond, at: nat, command: bv8): nat
  {
    if respond(ErrorReg as int, at) & 0x1B != 0 || command != PcdTransceive then 1
    else 3 + DrainCount(respond(FIFOLevelReg as int, at + 1))
  }

  /**
   * Outcome of MFRC522_ToCard's second half, whose first CommIrqReg poll is the read at
   * script position w: MI_ERR on timeout, otherwise the verdict on the reads that follow.
   */
  function WaitOutcome(respond: Respond, w: nat, command: bv8): (o: Outcome)
    ensures o.status == Err ==> o.backData == [] && o.backLen == 0
    ensures command != PcdTransceive ==> o.backData == [] && o.backLen == 0
    ensures command == PcdTransceive && o.status != Err ==> 1 <= |o.backData| <= MaxLen
  {
    var m := PollReads(respond, CommIrqReg as int, w, IrqMask(command), PollBudget, 0);
    if m == PollBudget then Outcome(Err, [], 0)
    else Verdict(respond, w + m, respond(CommIrqReg as int, w + m - 1), command)
  }

  /** Number of scripted reads of MFRC522_ToCard's second half. */
  function WaitReads(respond: Respond, w: nat, command: bv8): nat
  {
    var m := PollReads(respond, CommIrqReg as int, w, IrqMask(command), PollBudget, 0);
    if m == PollBudget then m
    else m + VerdictReads(respond, w + m, command)
  }

  /**
   * The second half from the wait loop's result: after m polls, the last of them
   * showing n, a counter at 0 gives MI_ERR with no further read, otherwise the verdict
   * on the reads from script position at onwards.
   */
  lemma WaitFinish(respond: Respond, w: nat, command: bv8, m: nat, at: nat, n: bv8, o: Outcome, count: nat)
    requires m == PollReads(respond, CommIrqReg as int, w, IrqMask(command), PollBudget, 0)
    requires at == w + m && n == respond(CommIrqReg as int, at - 1)
    requires m == PollBudget ==> o == Outcome(Err, [], 0) && count == m
    requires m < PollBudget ==> o == Verdict(respond, at, n, command) && count == m + VerdictReads(respond, at, command)
    ensures o == WaitOutcome(respond, w, command) && count == WaitReads(respond, w, command)
  {
  }

  /**
   * Outcome of MFRC522_ToCard(command, _) starting at script position k.  Script
   * positions: k (CommIrqReg, read by ClearBitMask), k+1 (FIFOLevelReg, read by
   * SetBitMask), then the polls of CommIrqReg, then what Verdict reads.
   */
  function ExchangeOutcome(respond: Respond, k: nat, command: bv8): (o: Outcome)
    ensures o.status == Err ==> o.backData == [] && o.backLen == 0
    ensures command != PcdTransceive ==> o.backData == [] && o.backLen == 0
    ensures command == PcdTransceive && o.status != Err ==> 1 <= |o.backData| <= MaxLen
    ensures IrqPolls(respond, k, command) == PollBudget ==> o.status == Err
  {
    WaitOutcome(respond, k + 2, command)
  }

  /** Number of scripted reads MFRC522_ToCard(command, _) makes from script position k. */
  function ExchangeReads(respond: Respond, k: nat, command: bv8): nat
  {
    2 + WaitReads(respond, k + 2, command)
  }

  /** Authentication never reports MI_NOTAGERR: its interrupt enables leave the timer bit off. */
  lemma AuthentNeverNoTag(respond: Respond, k: nat)
    ensures ExchangeOutcome(respond, k, PcdAuthent).status != NoTagErr
  {
    var m := IrqPolls(respond, k, PcdAuthent);
    if m != PollBudget {
      var n := respond(CommIrqReg as int, k + 1 + m);
      assert n & IrqEn(PcdAuthent) & 0x01 == 0;
    }
  }

  /**
   * The three-way classification of an exchange: MI_ERR on timeout or on any of the
   * ErrorReg bits 0x1B, otherwise MI_NOTAGERR when the last poll shows the timer bit
   * and the command enabled it, otherwise MI_OK.
   */
  lemma ExchangeStatus(respond: Respond, k: nat, command: bv8)
    ensures var m := IrqPolls(respond, k, command);
      var o := ExchangeOutcome(respond, k, command);
      && (o.status == Err <==> m == PollBudget || respond(ErrorReg as int, k + 2 + m) & 0x1B != 0)
      && (o.status == NoTagErr <==>
            m < PollBudget && respond(ErrorReg as int, k + 2 + m) & 0x1B == 0 &&
            respond(CommIrqReg as int, k + 1 + m) & IrqEn(command) & 0x01 != 0)
  {
  }

  /** DivIrqReg polls made by CalulateCRC starting at script position k. */
  function CrcPolls(respond: Respond, k: nat): (p: nat)
    ensures 1 <= p <= CrcBudget
  {
    PollReads(respond, DivIrqReg as int, k + 2, 0x04, CrcBudget, 0)
  }

  /** CalulateCRC's result: [CRCResultRegL, CRCResultRegM], read after the poll loop. */
  function CrcOf(respond: Respond, k: nat): (crc: seq<bv8>)
    ensures |crc| == 2
    ensures crc[0] == respond(CRCResultRegL as int, k + 2 + CrcPolls(respond, k))
    ensures crc[1] == respond(CRCResultRegM as int, k + 3 + CrcPolls(respond, k))
  {
    var p := CrcPolls(respond, k);
    [respond(CRCResultRegL as int, k + 2 + p), respond(CRCResultRegM as int, k + 3 + p)]
  }

  /** Number of scripted reads CalulateCRC makes. */
  function CrcReads(respond: Respond, k: nat): nat
  {
    4 + CrcPolls(respond, k)
  }
}
