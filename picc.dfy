/**
 * Card frames and the acceptance rules the driver applies to card answers: the
 * ISO/IEC 14443-3 Type A request and anticollision steps and the MIFARE Classic
 * select, authenticate, read and write commands (src/mfrc522/MFRC522.py:349-633).
 */
module Picc {
  import opened Wrappers
  import opened Registers
  import opened Exchange

  /** XOR of all bytes of s, accumulated from the front as Anticoll does. */
  function Xor(s: seq<bv8>): bv8
  {
    if s == [] then 0 else Xor(s[..|s| - 1]) ^ s[|s| - 1]
  }

  /** An anticollision answer is accepted when it has five bytes and the fifth is the XOR (BCC) of the first four. */
  predicate BccValid(back: seq<bv8>)
  {
    |back| == 5 && Xor(back[..4]) == back[4]
  }

  /** Extending a prefix by one byte XORs that byte into the accumulator. */
  lemma XorStep(s: seq<bv8>, n: nat)
    requires n < |s|
    ensures Xor(s[..n + 1]) == Xor(s[..n]) ^ s[n]
  {
    assert s[..n + 1][..n] == s[..n];
  }

  /** The check over four bytes is the plain XOR b0 ^ b1 ^ b2 ^ b3. */
  lemma {:induction false} XorFour(s: seq<bv8>)
    requires |s| >= 4
    ensures Xor(s[..4]) == s[0] ^ s[1] ^ s[2] ^ s[3]
  {
    assert Xor(s[..0]) == 0;
    XorStep(s, 0);
    XorStep(s, 1);
    XorStep(s, 2);
    XorStep(s, 3);
  }

  /** A five-byte answer passes the BCC check exactly when the XOR of all five bytes is zero. */
  lemma {:induction false} BccValidIffXorZero(back: seq<bv8>)
    requires |back| == 5
    ensures BccValid(back) <==> Xor(back) == 0
  {
    assert back[..|back| - 1] == back[..4];
  }

  /** Appending the BCC of any four-byte UID gives an answer the check accepts. */
  lemma {:induction false} BccOfUidAccepted(uid: seq<bv8>)
    requires |uid| == 4
    ensures BccValid(uid + [Xor(uid)])
  {
    assert (uid + [Xor(uid)])[..4] == uid;
  }

  /** Request accepts only an OK exchange carrying exactly 16 bits (the ATQA); anything else is MI_ERR. */
  function RequestStatus(o: Outcome): Status
  {
    if o.status == Ok && o.backLen == 16 then Ok else Err
  }

  /** Anticoll turns an OK exchange into MI_ERR unless the answer passes the BCC check; other statuses pass through. */
  function AnticollStatus(o: Outcome): Status
  {
    if o.status != Ok then o.status
    else if BccValid(o.backData) then Ok
    else Err
  }

  /** The SELECT frame without its CRC: [0x93, 0x70] and the five UID bytes. */
  function SelectHead(uid: seq<bv8>): seq<bv8>
    requires |uid| >= 5
  {
    [PiccSelectTag, 0x70] + uid[..5]
  }

  /** SelectTag's answer: the first byte (SAK) of a 24-bit OK answer, else 0. */
  function SelectSize(o: Outcome): bv8
    requires o.status == Ok ==> |o.backData| >= 1
  {
    if o.status == Ok && o.backLen == 24 then o.backData[0] else 0
  }

  /** The authentication frame: mode, block, the key bytes, then the first four UID bytes. */
  function AuthFrame(mode: bv8, block: bv8, key: seq<bv8>, uid: seq<bv8>): seq<bv8>
    requires |uid| >= 4
  {
    [mode, block] + key + uid[..4]
  }

  /** ReadTag returns the answer only when it is exactly 16 bytes, whatever the status. */
  function ReadResult(o: Outcome): Option<seq<bv8>>
  {
    if |o.backData| == 16 then Some(o.backData) else None
  }

  /** A write phase succeeded: OK, exactly 4 bits, and low nibble 0xA (ACK). */
  predicate Acked(o: Outcome)
  {
    o.status == Ok && o.backLen == 4 && |o.backData| >= 1 && o.backData[0] & 0x0F == 0x0A
  }
}
