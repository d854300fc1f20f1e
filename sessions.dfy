/**
 * What one attempt of the reader classes does with a card, stated over the log of
 * driver calls (Driver.Call) the attempt appends: find the card (REQA in idle mode,
 * anticollision), select it, authenticate the sector trailer with key A, read or
 * write the three data blocks, and stop Crypto1.  The single-attempt sequences of
 * src/mfrc522/BasicMFRC522.py and src/mfrc522/SimpleMFRC522.py are the methods at
 * the end of this module; both reader classes run them.
 */
module Sessions {
  import opened Wrappers
  import opened Registers
  import opened Exchange
  import opened Picc
  import opened Driver
  import opened Sector

  /** Why a reader call raised outside its own exception handler. */
  datatype Fault =
    | InvalidTrailer  // ValueError from the trailer check
    | NoTrailers      // the id of an empty multi-sector loop is never bound
    | EmptyText       // _split_string('') indexes the last of no chunks

  /** One attempt: raised, the None / (None, None) sentinel, or the tag id with a value. */
  datatype Reply<T> = Raised(fault: Fault) | Sentinel | Got(id: nat, value: T)

  /** The key-A both reader classes use by default. */
  const DefaultKey: seq<bv8> := [0xFF, 0xFF, 0xFF, 0xFF, 0xFF, 0xFF]

  /** The data blocks of the sector whose trailer is t: t-3, t-2, t-1, in that order. */
  function DataBlocks(t: bv8): (b: seq<bv8>)
    ensures |b| == 3
    ensures IsTrailer(t as int) ==> b[0] as int == t as int - 3 && b[1] as int == t as int - 2 && b[2] as int == t as int - 1
  {
    [t - 3, t - 2, t - 1]
  }

  /** The attempt found no card: REQA failed, or REQA succeeded and anticollision failed. */
  predicate NoCard(log: seq<Call>)
  {
    || (|log| == 1 && log[0].RequestCall? && log[0].mode == PiccReqIdl && log[0].status != Ok)
    || (|log| == 2 && log[0].RequestCall? && log[0].mode == PiccReqIdl && log[0].status == Ok
        && log[1].AnticollCall? && log[1].status != Ok)
  }

  /** The log starts by finding a card: REQA and anticollision both MI_OK, a five-byte UID. */
  predicate Found(log: seq<Call>)
  {
    && |log| >= 2
    && log[0].RequestCall? && log[0].mode == PiccReqIdl && log[0].status == Ok
    && log[1].AnticollCall? && log[1].status == Ok && |log[1].uid| == 5
  }

  /** The UID anticollision returned. */
  function Uid(log: seq<Call>): seq<bv8>
    requires Found(log)
  {
    log[1].uid
  }

  /** The four calls that open a session: find the card, SELECT its UID, authenticate block t with key A. */
  predicate Opened(head: seq<Call>, t: bv8, key: seq<bv8>)
  {
    && |head| == 4 && Found(head)
    && head[2].SelectCall? && head[2].uid == Uid(head)
    && head[3].AuthCall? && head[3].mode == PiccAuthent1A && head[3].block == t
    && head[3].key == key && head[3].uid == Uid(head)
  }

  /** Authentication succeeded. */
  predicate AuthOk(head: seq<Call>)
    requires |head| >= 4 && head[3].AuthCall?
  {
    head[3].status == Ok
  }

  /** One READ of each block, in order; a returned block has 16 bytes. */
  predicate ReadsOf(run: seq<Call>, blocks: seq<bv8>)
  {
    && |run| == |blocks|
    && forall j :: 0 <= j < |run| ==>
         run[j].ReadCall? && run[j].block == blocks[j] && (run[j].result.Some? ==> |run[j].result.value| == 16)
  }

  lemma ReadsOfSnoc(run: seq<Call>, blocks: seq<bv8>, c: Call)
    requires ReadsOf(run, blocks) && c.ReadCall? && (c.result.Some? ==> |c.result.value| == 16)
    ensures ReadsOf(run + [c], blocks + [c.block])
  {
  }

  /** The blocks that read back, concatenated in order (data += block when block is not None). */
  function Gathered(run: seq<Call>): seq<bv8>
  {
    if run == [] then []
    else
      var last := run[|run| - 1];
      Gathered(run[..|run| - 1]) + (if last.ReadCall? && last.result.Some? then last.result.value else [])
  }

  lemma GatheredSnoc(run: seq<Call>, c: Call)
    ensures Gathered(run + [c]) == Gathered(run) + (if c.ReadCall? && c.result.Some? then c.result.value else [])
  {
    assert (run + [c])[..|run|] == run;
  }

  /** Reading n blocks gathers a whole number of blocks, at most n. */
  lemma {:induction false} GatheredBlocks(run: seq<Call>, blocks: seq<bv8>)
    requires ReadsOf(run, blocks)
    ensures |Gathered(run)| % 16 == 0 && |Gathered(run)| <= 16 * |run|
  {
    if run != [] {
      var n := |run| - 1;
      assert ReadsOf(run[..n], blocks[..n]);
      GatheredBlocks(run[..n], blocks[..n]);
    }
  }

  /**
   * What a read attempt does after opening the sector with trailer t: read the three
   * data blocks when authentication succeeded, returning the id and the text of the
   * blocks that read back; the id and '' when it failed.
   */
  predicate ReadBody(head: seq<Call>, fetched: seq<Call>, t: bv8, key: seq<bv8>, r: Reply<seq<char>>)
  {
    && Opened(head, t, key)
    && var id := UidValue(Uid(head));
       if AuthOk(head) then ReadsOf(fetched, DataBlocks(t)) && r == Got(id, Chars(Gathered(fetched)))
       else fetched == [] && r == Got(id, [])
  }

  /**
   * A read attempt of the sector with trailer t (src/mfrc522/BasicMFRC522.py:100-148):
   * the sentinel without a card; otherwise the opening calls, the reads, and StopCrypto1.
   */
  predicate ReadSession(log: seq<Call>, t: bv8, key: seq<bv8>, r: Reply<seq<char>>)
  {
    || (NoCard(log) && r == Sentinel)
    || (|log| >= 5 && log[|log| - 1] == StopCall && ReadBody(log[..4], log[4..|log| - 1], t, key, r))
  }

  /** The last WriteTag of a run raised. */
  predicate RunRaised(run: seq<Call>)
  {
    |run| > 0 && run[|run| - 1].WriteCall? && run[|run| - 1].outcome == PhaseARaised
  }

  /**
   * The write loop: block j gets data[16j .. 16j+16], in order, and the loop ends early
   * only because the last WriteTag raised; the blocks written before it stay written.
   */
  predicate WriteRun(run: seq<Call>, blocks: seq<bv8>, data: seq<bv8>)
  {
    && |run| <= |blocks| && 16 * |blocks| <= |data|
    && (forall j :: 0 <= j < |run| ==>
          run[j].WriteCall? && run[j].block == blocks[j] && run[j].data == data[16 * j .. 16 * j + 16])
    && (forall j :: 0 <= j < |run| - 1 ==> run[j].outcome != PhaseARaised)
    && (|run| < |blocks| ==> RunRaised(run))
  }

  /** The opening calls of a write or clear: the session opening, then a READ of the trailer. */
  predicate OpenedWithTrailer(head: seq<Call>, t: bv8, key: seq<bv8>)
  {
    |head| == 5 && Opened(head[..4], t, key) && head[4].ReadCall? && head[4].block == t
  }

  /**
   * What a write attempt does after opening the sector: when authentication succeeded,
   * the padded ASCII text goes to the three data blocks.  A text that is not ASCII, or
   * a WriteTag that raises, gives the sentinel; otherwise the id and text[0:48].
   */
  predicate WriteBody(head: seq<Call>, run: seq<Call>, t: bv8, key: seq<bv8>, text: seq<char>, r: Reply<seq<char>>)
  {
    && OpenedWithTrailer(head, t, key)
    && var id := UidValue(Uid(head));
       if !AuthOk(head) then run == [] && r == Got(id, Clip(text))
       else match WriteBytes(text)
         case None => run == [] && r == Sentinel
         case Some(data) =>
           WriteRun(run, DataBlocks(t), data) && r == (if RunRaised(run) then Sentinel else Got(id, Clip(text)))
  }

  /**
   * A write attempt of text to the sector with trailer t (src/mfrc522/BasicMFRC522.py:219-263):
   * the sentinel without a card; otherwise the opening calls, the writes, and StopCrypto1,
   * which the normal and the exception path both reach.
   */
  predicate WriteSession(log: seq<Call>, t: bv8, key: seq<bv8>, text: seq<char>, r: Reply<seq<char>>)
  {
    || (NoCard(log) && r == Sentinel)
    || (|log| >= 6 && log[|log| - 1] == StopCall && WriteBody(log[..5], log[5..|log| - 1], t, key, text, r))
  }

  /** The 48 zero bytes a clear writes, 16 to each data block. */
  function Zeros(): (z: seq<bv8>)
    ensures |z| == SectorData && forall i :: 0 <= i < |z| ==> z[i] == 0
  {
    seq(SectorData, _ => 0)
  }

  /** What a clear attempt does after opening the sector: as a write, with 16 zero bytes per block. */
  predicate ClearBody(head: seq<Call>, run: seq<Call>, t: bv8, key: seq<bv8>, r: Reply<()>)
  {
    && OpenedWithTrailer(head, t, key)
    && var id := UidValue(Uid(head));
       if !AuthOk(head) then run == [] && r == Got(id, ())
       else WriteRun(run, DataBlocks(t), Zeros()) && r == (if RunRaised(run) then Sentinel else Got(id, ()))
  }

  /** A clear attempt of the sector with trailer t (src/mfrc522/BasicMFRC522.py:315-358). */
  predicate ClearSession(log: seq<Call>, t: bv8, key: seq<bv8>, r: Reply<()>)
  {
    || (NoCard(log) && r == Sentinel)
    || (|log| >= 6 && log[|log| - 1] == StopCall && ClearBody(log[..5], log[5..|log| - 1], t, key, r))
  }

  /** An id attempt (read_id_no_block): the id of the card found, or None. */
  predicate IdSession(log: seq<Call>, r: Option<nat>)
  {
    || (NoCard(log) && r == None)
    || (Found(log) && |log| == 2 && r == Some(UidValue(Uid(log))))
  }

  /** Number of StopCrypto1 calls in a log. */
  function Stops(log: seq<Call>): nat
  {
    multiset(log)[StopCall]
  }

  /** A log whose calls before the last are no StopCrypto1 and whose last is one stops exactly once. */
  lemma StopsOnceAtEnd(log: seq<Call>)
    requires |log| >= 1 && log[|log| - 1] == StopCall
    requires forall j :: 0 <= j < |log| - 1 ==> log[j] != StopCall
    ensures Stops(log) == 1
  {
    var n := |log| - 1;
    assert log == log[..n] + [StopCall];
    assert StopCall !in log[..n];
  }

  /** Neither the opening calls nor the reads of a read attempt stop Crypto1. */
  lemma ReadBodyNoStop(head: seq<Call>, fetched: seq<Call>, t: bv8, key: seq<bv8>, r: Reply<seq<char>>)
    requires ReadBody(head, fetched, t, key, r)
    ensures forall j :: 0 <= j < |head| ==> head[j] != StopCall
    ensures forall j :: 0 <= j < |fetched| ==> fetched[j] != StopCall
  {
  }

  /** Every read attempt that found a card stops Crypto1 exactly once, as its last call; one without a card never does. */
  lemma ReadStopsOnce(log: seq<Call>, t: bv8, key: seq<bv8>, r: Reply<seq<char>>)
    requires ReadSession(log, t, key, r)
    ensures Stops(log) == (if NoCard(log) then 0 else 1)
    ensures !NoCard(log) ==> log[|log| - 1] == StopCall
  {
    if NoCard(log) {
      assert StopCall !in log;
    } else {
      var head, fetched := log[..4], log[4..|log| - 1];
      ReadBodyNoStop(head, fetched, t, key, r);
      forall j | 0 <= j < |log| - 1
        ensures log[j] != StopCall
      {
        if j < 4 {
          assert log[j] == head[j];
        } else {
          assert log[j] == fetched[j - 4];
        }
      }
      StopsOnceAtEnd(log);
    }
  }

  /** Neither the opening calls nor the writes of a write attempt stop Crypto1. */
  lemma WriteBodyNoStop(head: seq<Call>, run: seq<Call>, t: bv8, key: seq<bv8>, text: seq<char>, r: Reply<seq<char>>)
    requires WriteBody(head, run, t, key, text, r)
    ensures forall j :: 0 <= j < |head| ==> head[j] != StopCall
    ensures forall j :: 0 <= j < |run| ==> run[j] != StopCall
  {
  }

  /** The same for write attempts: one StopCrypto1, last, on the normal and the exception path. */
  lemma WriteStopsOnce(log: seq<Call>, t: bv8, key: seq<bv8>, text: seq<char>, r: Reply<seq<char>>)
    requires WriteSession(log, t, key, text, r)
    ensures Stops(log) == (if NoCard(log) then 0 else 1)
    ensures !NoCard(log) ==> log[|log| - 1] == StopCall
  {
    if NoCard(log) {
      assert StopCall !in log;
    } else {
      var head, run := log[..5], log[5..|log| - 1];
      WriteBodyNoStop(head, run, t, key, text, r);
      forall j | 0 <= j < |log| - 1
        ensures log[j] != StopCall
      {
        if j < 5 {
          assert log[j] == head[j];
        } else {
          assert log[j] == run[j - 5];
        }
      }
      StopsOnceAtEnd(log);
    }
  }

  /** The same for clear attempts. */
  lemma ClearStopsOnce(log: seq<Call>, t: bv8, key: seq<bv8>, r: Reply<()>)
    requires ClearSession(log, t, key, r)
    ensures Stops(log) == (if NoCard(log) then 0 else 1)
    ensures !NoCard(log) ==> log[|log| - 1] == StopCall
  {
    if NoCard(log) {
      assert StopCall !in log;
    } else {
      var run := log[5..|log| - 1];
      assert forall j :: 5 <= j < |log| - 1 ==> log[j] == run[j - 5];
      StopsOnceAtEnd(log);
    }
  }

  /** A read attempt's text is one block per data block that read back: 0, 16, 32 or 48 characters. */
  lemma ReadTextLength(log: seq<Call>, t: bv8, key: seq<bv8>, r: Reply<seq<char>>)
    requires ReadSession(log, t, key, r) && r.Got?
    ensures |r.value| % 16 == 0 && |r.value| <= SectorData
  {
    var fetched := log[4..|log| - 1];
    if AuthOk(log[..4]) {
      GatheredBlocks(fetched, DataBlocks(t));
    }
  }

  /** A write attempt that answers with an id reports text[0:48], whatever happened to the blocks. */
  lemma WriteReportsClip(log: seq<Call>, t: bv8, key: seq<bv8>, text: seq<char>, r: Reply<seq<char>>)
    requires WriteSession(log, t, key, text, r) && r.Got?
    ensures r.value == Clip(text) && |r.value| <= SectorData
  {
  }

  /*
   * The card commands as the reader classes see them: each runs the driver method and
   * keeps only the call it logs, with the facts about its answer the reader classes
   * rely on; what it does to the chip stays with the driver method's own contract.
   */

  /** Request: logs the REQA/WUPA call and its status. */
  method CardRequest(reader: MFRC522, mode: bv8) returns (status: Status, bits: int)
    requires reader.Valid()
    modifies reader, reader.spi
    ensures reader.Valid() && reader.calls == old(reader.calls) + [RequestCall(mode, status, bits)]
    ensures status != NoTagErr
  {
    status, bits := reader.Request(mode);
  }

  /** Anticoll: an MI_OK answer is a five-byte UID with a valid BCC. */
  method CardAnticoll(reader: MFRC522) returns (status: Status, uid: seq<bv8>)
    requires reader.Valid()
    modifies reader, reader.spi
    ensures reader.Valid() && reader.calls == old(reader.calls) + [AnticollCall(status, uid)]
    ensures status == Ok ==> BccValid(uid)
  {
    status, uid := reader.Anticoll();
  }

  /** SelectTag over the first five UID bytes. */
  method CardSelect(reader: MFRC522, uid: seq<bv8>) returns (size: bv8)
    requires reader.Valid() && |uid| >= 5
    modifies reader, reader.spi
    ensures reader.Valid() && reader.calls == old(reader.calls) + [SelectCall(uid, size)]
  {
    size := reader.SelectTag(uid);
  }

  /** Authenticate: never MI_NOTAGERR. */
  method CardAuthenticate(reader: MFRC522, mode: bv8, block: bv8, key: seq<bv8>, uid: seq<bv8>) returns (status: Status)
    requires reader.Valid() && |uid| >= 4
    modifies reader, reader.spi
    ensures reader.Valid() && reader.calls == old(reader.calls) + [AuthCall(mode, block, key, uid, status)]
    ensures status != NoTagErr
  {
    status := reader.Authenticate(mode, block, key, uid);
  }

  /** StopCrypto1. */
  method CardStop(reader: MFRC522)
    requires reader.Valid()
    modifies reader, reader.spi
    ensures reader.Valid() && reader.calls == old(reader.calls) + [StopCall]
  {
    reader.StopCrypto1();
  }

  /** ReadTag: a block that comes back has exactly 16 bytes. */
  method CardRead(reader: MFRC522, block: bv8) returns (result: Option<seq<bv8>>)
    requires reader.Valid()
    modifies reader, reader.spi
    ensures reader.Valid() && reader.calls == old(reader.calls) + [ReadCall(block, result)]
    ensures result.Some? ==> |result.value| == 16
  {
    result := reader.ReadTag(block);
  }

  /** WriteTag of a 16-byte block. */
  method CardWrite(reader: MFRC522, block: bv8, data: seq<bv8>) returns (outcome: WriteOutcome)
    requires reader.Valid() && |data| == 16
    modifies reader, reader.spi
    ensures reader.Valid() && reader.calls == old(reader.calls) + [WriteCall(block, data, outcome)]
  {
    assert data[..16] == data;
    ghost var kA, regsA, framesA;
    outcome, kA, regsA, framesA := reader.WriteTag(block, data);
  }

  /** A session log is its opening calls, its block calls, and StopCrypto1. */
  lemma SplitLog(head: seq<Call>, run: seq<Call>)
    ensures var log := head + run + [StopCall];
      log[..|head|] == head && log[|head|..|log| - 1] == run && log[|log| - 1] == StopCall
  {
    var log := head + run + [StopCall];
    assert log[..|log| - 1] == head + run;
  }

  /**
   * A read attempt that opened the sector and ran the try block is its opening calls,
   * its reads and StopCrypto1, answering the id with the text of the blocks read.
   */
  lemma ReadSessionOf(head: seq<Call>, fetched: seq<Call>, t: bv8, key: seq<bv8>, id: nat, text: seq<char>)
    requires Opened(head, t, key) && id == UidValue(Uid(head))
    requires AuthOk(head) ==> ReadsOf(fetched, DataBlocks(t)) && text == Chars(Gathered(fetched))
    requires !AuthOk(head) ==> fetched == [] && text == []
    ensures ReadSession(head + fetched + [StopCall], t, key, Got(id, text))
  {
    SplitLog(head, fetched);
  }

  /**
   * A write attempt that opened the sector and ran the try block is its opening calls,
   * its writes and StopCrypto1, answering the sentinel exactly when the handler ran.
   */
  lemma WriteSessionOf(head: seq<Call>, run: seq<Call>, t: bv8, key: seq<bv8>, text: seq<char>,
                       id: nat, failed: bool, r: Reply<seq<char>>)
    requires OpenedWithTrailer(head, t, key) && id == UidValue(Uid(head))
    requires !AuthOk(head) ==> run == [] && !failed
    requires AuthOk(head) && !IsAscii(text) ==> run == [] && failed
    requires AuthOk(head) && IsAscii(text) ==>
      WriteRun(run, DataBlocks(t), WriteBytes(text).value) && failed == RunRaised(run)
    requires r == if failed then Sentinel else Got(id, Clip(text))
    ensures WriteSession(head + run + [StopCall], t, key, text, r)
  {
    SplitLog(head, run);
  }

  /** The same for a clear, whose try block writes zeros. */
  lemma ClearSessionOf(head: seq<Call>, run: seq<Call>, t: bv8, key: seq<bv8>, id: nat, failed: bool, r: Reply<()>)
    requires OpenedWithTrailer(head, t, key) && id == UidValue(Uid(head))
    requires !AuthOk(head) ==> run == [] && !failed
    requires AuthOk(head) ==> WriteRun(run, DataBlocks(t), Zeros()) && failed == RunRaised(run)
    requires r == if failed then Sentinel else Got(id, ())
    ensures ClearSession(head + run + [StopCall], t, key, r)
  {
    SplitLog(head, run);
  }

  /** The card-finding prefix every attempt starts with: Request(PICC_REQIDL), then Anticoll. */
  method Detect(reader: MFRC522) returns (uid: Option<seq<bv8>>, ghost log: seq<Call>)
    requires reader.Valid()
    modifies reader, reader.spi
    ensures reader.Valid() && reader.calls == old(reader.calls) + log
    ensures || (uid.None? && NoCard(log))
            || (uid.Some? && Found(log) && |log| == 2 && Uid(log) == uid.value)
  {
    var status, tagType := CardRequest(reader, PiccReqIdl);
    log := [RequestCall(PiccReqIdl, status, tagType)];
    if status != Ok {
      return None, log;
    }
    var status2, backData := CardAnticoll(reader);
    log := log + [AnticollCall(status2, backData)];
    if status2 != Ok {
      return None, log;
    }
    uid := Some(backData);
  }

  /** read_id_no_block (BasicMFRC522 and SimpleMFRC522 alike): the id of the card found, or None. */
  method ReadIdOnce(reader: MFRC522) returns (r: Option<nat>, ghost log: seq<Call>)
    requires reader.Valid()
    modifies reader, reader.spi
    ensures reader.Valid() && reader.calls == old(reader.calls) + log
    ensures IdSession(log, r)
  {
    var uid;
    uid, log := Detect(reader);
    if uid.None? {
      return None, log;
    }
    var id := UidToNum(uid.value);
    r := Some(id);
  }

  /** SelectTag, then key-A authentication of block t, on a card just found. */
  method Open(reader: MFRC522, uid: seq<bv8>, t: bv8, key: seq<bv8>, ghost found: seq<Call>)
    returns (status: Status, ghost head: seq<Call>)
    requires reader.Valid() && Found(found) && |found| == 2 && Uid(found) == uid
    modifies reader, reader.spi
    ensures Opened(head, t, key) && head[..2] == found && AuthOk(head) == (status == Ok)
    ensures reader.Valid() && reader.calls == old(reader.calls) + head[2..]
  {
    var size := CardSelect(reader, uid);
    status := CardAuthenticate(reader, PiccAuthent1A, t, key, uid);
    head := found + [SelectCall(uid, size), AuthCall(PiccAuthent1A, t, key, uid, status)];
    assert head[2..] == [SelectCall(uid, size), AuthCall(PiccAuthent1A, t, key, uid, status)];
  }

  /** The block loop of a read: ReadTag each block, appending those that came back. */
  method ReadBlocks(reader: MFRC522, blocks: seq<bv8>) returns (data: seq<bv8>, ghost run: seq<Call>)
    requires reader.Valid()
    modifies reader, reader.spi
    ensures reader.Valid() && reader.calls == old(reader.calls) + run
    ensures ReadsOf(run, blocks) && data == Gathered(run)
  {
    data, run := [], [];
    for i := 0 to |blocks|
      invariant reader.Valid() && reader.calls == old(reader.calls) + run
      invariant ReadsOf(run, blocks[..i]) && data == Gathered(run)
    {
      var block := CardRead(reader, blocks[i]);
      ReadsOfSnoc(run, blocks[..i], ReadCall(blocks[i], block));
      GatheredSnoc(run, ReadCall(blocks[i], block));
      assert blocks[..i + 1] == blocks[..i] + [blocks[i]];
      run := run + [ReadCall(blocks[i], block)];
      if block.Some? {
        data := data + block.value;
      }
    }
    assert blocks[..|blocks|] == blocks;
  }

  /**
   * The block loop of a write: WriteTag(blocks[j], data[16j .. 16j+16]) in order; a
   * WriteTag that raises ends the loop, and the exception reaches the caller's handler.
   */
  method WriteBlocks(reader: MFRC522, blocks: seq<bv8>, data: seq<bv8>) returns (raised: bool, ghost run: seq<Call>)
    requires reader.Valid() && 16 * |blocks| <= |data|
    modifies reader, reader.spi
    ensures reader.Valid() && reader.calls == old(reader.calls) + run
    ensures WriteRun(run, blocks, data) && raised == RunRaised(run)
  {
    raised, run := false, [];
    var i := 0;
    while i < |blocks|
      invariant i <= |blocks| && |run| == i
      invariant reader.Valid() && reader.calls == old(reader.calls) + run
      invariant forall j :: 0 <= j < i ==>
        run[j].WriteCall? && run[j].block == blocks[j] && run[j].data == data[16 * j .. 16 * j + 16]
      invariant forall j :: 0 <= j < i ==> run[j].outcome != PhaseARaised
    {
      var outcome := CardWrite(reader, blocks[i], data[16 * i .. 16 * i + 16]);
      run := run + [WriteCall(blocks[i], data[16 * i .. 16 * i + 16], outcome)];
      if outcome == PhaseARaised {
        raised := true;
        return;
      }
      i := i + 1;
    }
  }

  /**
   * read_no_block past its trailer check (src/mfrc522/BasicMFRC522.py:100-148, and
   * src/mfrc522/SimpleMFRC522.py:77-112 with trailer 11): find the card, select it,
   * authenticate, read the data blocks when that succeeded, stop Crypto1.
   */
  method ReadOnce(reader: MFRC522, t: bv8, key: seq<bv8>) returns (r: Reply<seq<char>>, ghost log: seq<Call>)
    requires reader.Valid()
    modifies reader, reader.spi
    ensures reader.Valid() && reader.calls == old(reader.calls) + log
    ensures ReadSession(log, t, key, r)
  {
    var uid;
    uid, log := Detect(reader);
    if uid.None? {
      return Sentinel, log;
    }
    var id := UidToNum(uid.value);
    ghost var head;
    var status;
    status, head := Open(reader, uid.value, t, key, log);
    assert head == log + head[2..];
    assert reader.calls == old(reader.calls) + head;
    ghost var fetched: seq<Call> := [];
    var textRead := [];
    if status == Ok {
      var data;
      data, fetched := ReadBlocks(reader, DataBlocks(t));
      if data != [] {
        textRead := Chars(data);
      }
    }
    assert reader.calls == old(reader.calls) + (head + fetched);
    CardStop(reader);
    AppendAssoc(old(reader.calls), head + fetched, [StopCall]);
    r := Got(id, textRead);
    log := head + fetched + [StopCall];
    ReadSessionOf(head, fetched, t, key, id, textRead);
  }

  /** The opening of a write or clear: select, authenticate, then READ the trailer block. */
  method OpenTrailer(reader: MFRC522, uid: seq<bv8>, t: bv8, key: seq<bv8>, ghost found: seq<Call>)
    returns (status: Status, ghost head: seq<Call>)
    requires reader.Valid() && Found(found) && |found| == 2 && Uid(found) == uid
    modifies reader, reader.spi
    ensures OpenedWithTrailer(head, t, key) && head[..2] == found && AuthOk(head) == (status == Ok)
    ensures reader.Valid() && reader.calls == old(reader.calls) + head[2..]
  {
    ghost var first;
    status, first := Open(reader, uid, t, key, found);
    var trailer := CardRead(reader, t);
    head := first + [ReadCall(t, trailer)];
    assert head[..4] == first && head[..2] == found;
    assert head[2..] == first[2..] + [ReadCall(t, trailer)];
  }

  /**
   * The try block of a write once the sector is open: nothing when authentication
   * failed; otherwise encode the text, and write it to the data blocks when that
   * succeeded.  failed says whether control reached the exception handler.
   */
  method WriteText(reader: MFRC522, t: bv8, authOk: bool, text: seq<char>) returns (failed: bool, ghost run: seq<Call>)
    requires reader.Valid()
    modifies reader, reader.spi
    ensures reader.Valid() && reader.calls == old(reader.calls) + run
    ensures !authOk ==> run == [] && !failed
    ensures authOk && !IsAscii(text) ==> run == [] && failed
    ensures authOk && IsAscii(text) ==>
      WriteRun(run, DataBlocks(t), WriteBytes(text).value) && failed == RunRaised(run)
  {
    failed, run := false, [];
    if authOk {
      var data := WriteBytes(text);
      if data.None? {
        failed := true;
      } else {
        failed, run := WriteBlocks(reader, DataBlocks(t), data.value);
      }
    }
  }

  /**
   * write_no_block past its trailer check (src/mfrc522/BasicMFRC522.py:219-263, and
   * src/mfrc522/SimpleMFRC522.py:143-180 with trailer 11): find, select, authenticate,
   * read the trailer, then write the padded ASCII text when authentication succeeded;
   * an encoding error or a raising WriteTag lands in the handler.  Crypto1 is stopped
   * once on either path.
   */
  method WriteOnce(reader: MFRC522, t: bv8, key: seq<bv8>, text: seq<char>) returns (r: Reply<seq<char>>, ghost log: seq<Call>)
    requires reader.Valid()
    modifies reader, reader.spi
    ensures reader.Valid() && reader.calls == old(reader.calls) + log
    ensures WriteSession(log, t, key, text, r)
  {
    var uid;
    uid, log := Detect(reader);
    if uid.None? {
      return Sentinel, log;
    }
    var id := UidToNum(uid.value);
    ghost var head, run;
    var status, failed;
    status, head := OpenTrailer(reader, uid.value, t, key, log);
    assert head == log + head[2..];
    assert reader.calls == old(reader.calls) + head;
    failed, run := WriteText(reader, t, status == Ok, text);
    assert reader.calls == old(reader.calls) + (head + run);
    CardStop(reader);
    AppendAssoc(old(reader.calls), head + run, [StopCall]);
    if failed {
      r := Sentinel;
    } else {
      r := Got(id, Clip(text));
    }
    log := head + run + [StopCall];
    WriteSessionOf(head, run, t, key, text, id, failed, r);
  }

  /**
   * clear_no_sector past its trailer check (src/mfrc522/BasicMFRC522.py:315-358): as a
   * write, with [0x00]*16 for every data block.
   */
  method ClearOnce(reader: MFRC522, t: bv8, key: seq<bv8>) returns (r: Reply<()>, ghost log: seq<Call>)
    requires reader.Valid()
    modifies reader, reader.spi
    ensures reader.Valid() && reader.calls == old(reader.calls) + log
    ensures ClearSession(log, t, key, r)
  {
    var uid;
    uid, log := Detect(reader);
    if uid.None? {
      return Sentinel, log;
    }
    var id := UidToNum(uid.value);
    ghost var head;
    var status;
    status, head := OpenTrailer(reader, uid.value, t, key, log);
    assert head == log + head[2..];
    assert reader.calls == old(reader.calls) + head;
    ghost var run: seq<Call> := [];
    var failed := false;
    if status == Ok {
      failed, run := WriteBlocks(reader, DataBlocks(t), Zeros());
    }
    assert reader.calls == old(reader.calls) + (head + run);
    CardStop(reader);
    AppendAssoc(old(reader.calls), head + run, [StopCall]);
    if failed {
      r := Sentinel;
    } else {
      r := Got(id, ());
    }
    log := head + run + [StopCall];
    ClearSessionOf(head, run, t, key, id, failed, r);
  }
}
