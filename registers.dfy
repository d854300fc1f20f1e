/**
 * The MFRC522 register map, command codes, card opcodes and status codes
 * (src/mfrc522/MFRC522.py:8-106), and the SPI address-byte encoding used by
 * WriteReg and ReadReg (src/mfrc522/MFRC522.py:175, 190).
 */
module Registers {

  /** Largest number of bytes drained from the FIFO by one exchange. */
  const MaxLen: nat := 16

  // Commands of the reader chip (PCD).
  const PcdIdle: bv8 := 0x00
  const PcdAuthent: bv8 := 0x0E
  const PcdTransceive: bv8 := 0x0C
  const PcdCalcCrc: bv8 := 0x03

  // Opcodes sent to the card (PICC).
  const PiccReqIdl: bv8 := 0x26
  const PiccAnticoll: bv8 := 0x93
  const PiccSelectTag: bv8 := 0x93
  const PiccAuthent1A: bv8 := 0x60
  const PiccRead: bv8 := 0x30
  const PiccWrite: bv8 := 0xA0

  // Register addresses used by the driver.
  const CommandReg: bv8 := 0x01
  const CommIEnReg: bv8 := 0x02
  const CommIrqReg: bv8 := 0x04
  const DivIrqReg: bv8 := 0x05
  const ErrorReg: bv8 := 0x06
  const Status2Reg: bv8 := 0x08
  const FIFODataReg: bv8 := 0x09
  const FIFOLevelReg: bv8 := 0x0A
  const ControlReg: bv8 := 0x0C
  const BitFramingReg: bv8 := 0x0D
  const TxControlReg: bv8 := 0x14
  const CRCResultRegM: bv8 := 0x21
  const CRCResultRegL: bv8 := 0x22

  /** The result of every exchange: MI_OK (0), MI_NOTAGERR (1), MI_ERR (2). */
  datatype Status = Ok | NoTagErr | Err {
    function Code(): (c: nat)
      ensures c < 3
      ensures (c == 0) == Ok?
      ensures NoTagErr? ==> c == 1
      ensures Err? ==> c == 2
    {
      match this
      case Ok => 0
      case NoTagErr => 1
      case Err => 2
    }
  }

  /** The register the chip addresses when the driver names `addr`: its low six bits. */
  function Index(addr: bv8): (i: int)
    ensures 0 <= i < 64
    ensures addr < 64 ==> i == addr as int
  {
    (addr & 0x3F) as int
  }

  /** First SPI byte of a register write: the address shifted into bits 1..6, bit 7 clear. */
  function WriteAddress(addr: bv8): (b: bv8)
    ensures b & 0x81 == 0
    ensures RegisterOf(b) == Index(addr)
    ensures !IsReadByte(b)
  {
    (addr << 1) & 0x7E
  }

  /** First SPI byte of a register read: the write address byte with bit 7 set. */
  function ReadAddress(addr: bv8): (b: bv8)
    ensures b == WriteAddress(addr) | 0x80
    ensures b & 0x01 == 0
    ensures RegisterOf(b) == Index(addr)
    ensures IsReadByte(b)
  {
    ((addr << 1) & 0x7E) | 0x80
  }

  /** How the chip decodes the register named by an address byte. */
  function RegisterOf(b: bv8): int
  {
    ((b >> 1) & 0x3F) as int
  }

  /** Bit 7 of the address byte selects a read. */
  predicate IsReadByte(b: bv8)
  {
    b & 0x80 != 0
  }

  /** Two register names reach the same register exactly when their encodings agree. */
  lemma AddressInjective(a1: bv8, a2: bv8)
    ensures WriteAddress(a1) == WriteAddress(a2) <==> Index(a1) == Index(a2)
    ensures ReadAddress(a1) != WriteAddress(a2)
  {
  }
}
