/**
 * A simulated MFRC522 behind its SPI transport, standing in for the hardware the
 * driver talks to.  Configuration registers read back what was last written;
 * registers the chip itself drives (interrupt flags, error flags, FIFO level and
 * data, CRC result, crypto status) answer from a script: the k-th such read of
 * register r returns respond(r, k).  The chip also keeps the bytes written into
 * its FIFO and logs every frame a command sends from it.
 */
module ChipSim {
  import opened Registers

  /** Answer of the k-th scripted read, given the register read. */
  type Respond = (int, nat) -> bv8

  /** A command the chip ran over the FIFO contents it held when the command started. */
  datatype Frame = Frame(command: bv8, data: seq<bv8>)

  /** Registers whose value the chip produces rather than the driver. */
  predicate Scripted(r: int)
  {
    r == CommIrqReg as int || r == DivIrqReg as int || r == ErrorReg as int ||
    r == Status2Reg as int || r == FIFODataReg as int || r == FIFOLevelReg as int ||
    r == ControlReg as int || r == CRCResultRegM as int || r == CRCResultRegL as int
  }

  /** Number of script entries a read of register r consumes. */
  function Advance(r: int): nat
  {
    if Scripted(r) then 1 else 0
  }

  /** FIFO after writing v to register r: FIFODataReg pushes, FlushBuffer (bit 7 of FIFOLevelReg) empties. */
  function FifoAfterWrite(fifo: seq<bv8>, r: int, v: bv8): seq<bv8>
  {
    if r == FIFODataReg as int then fifo + [v]
    else if r == FIFOLevelReg as int && v & 0x80 != 0 then []
    else fifo
  }

  /**
   * Frames started by writing v to register r while CommandReg holds `command`:
   * a command other than Idle and Transceive starts on the CommandReg write,
   * Transceive starts when StartSend (bit 7 of BitFramingReg) is set.
   */
  function Started(command: bv8, fifo: seq<bv8>, r: int, v: bv8): seq<Frame>
  {
    if r == CommandReg as int && v != PcdIdle && v != PcdTransceive then [Frame(v, fifo)]
    else if r == BitFramingReg as int && v & 0x80 != 0 && command == PcdTransceive then [Frame(PcdTransceive, fifo)]
    else []
  }

  class Chip {
    var regs: seq<bv8>
    const respond: Respond
    var k: nat
    var fifo: seq<bv8>
    var frames: seq<Frame>

    ghost predicate Valid()
      reads this
    {
      |regs| == 64
    }

    constructor (respond: Respond)
      ensures Valid()
      ensures regs == seq(64, _ => 0 as bv8)
      ensures this.respond == respond && k == 0 && fifo == [] && frames == []
    {
      regs := seq(64, _ => 0 as bv8);
      this.respond := respond;
      k, fifo, frames := 0, [], [];
    }

    /** The value a read of register r returns now. */
    function Peek(r: int): bv8
      requires Valid() && 0 <= r < 64
      reads this
    {
      if Scripted(r) then respond(r, k) else regs[r]
    }

    /** One two-byte SPI transfer: an address byte, then the data byte to write (or a dummy). */
    method Transfer(tx: seq<bv8>) returns (rx: seq<bv8>)
      requires Valid() && |tx| == 2
      modifies this
      ensures |rx| == 2
      ensures IsReadByte(tx[0]) ==>
        var r := RegisterOf(tx[0]);
        && rx[1] == old(Peek(r))
        && k == old(k) + Advance(r)
        && regs == old(regs) && fifo == old(fifo) && frames == old(frames)
      ensures !IsReadByte(tx[0]) ==>
        var r := RegisterOf(tx[0]);
        && k == old(k)
        && regs == old(regs)[r := tx[1]]
        && fifo == FifoAfterWrite(old(fifo), r, tx[1])
        && frames == old(frames) + Started(old(regs[CommandReg]), old(fifo), r, tx[1])
    {
      var r := RegisterOf(tx[0]);
      if IsReadByte(tx[0]) {
        rx := [0, Peek(r)];
        k := k + Advance(r);
      } else {
        frames := frames + Started(regs[CommandReg], fifo, r, tx[1]);
        fifo := FifoAfterWrite(fifo, r, tx[1]);
        regs := regs[r := tx[1]];
        rx := [0, 0];
      }
    }
  }
}
