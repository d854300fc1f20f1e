/**
 * The `while not id` loops of the reader classes (src/mfrc522/BasicMFRC522.py:32-35,
 * 60-63, 163-170, 276-283 and src/mfrc522/SimpleMFRC522.py:30-33, 42-45, 125-128):
 * repeat a single attempt until it answers with a tag id that is not 0.  The source
 * repeats without bound; here the number of repeats after the first attempt is a
 * parameter, and running out of it is a result of its own.
 */
module Retries {
  import opened Wrappers
  import opened Driver
  import opened Sector
  import opened Sessions

  /** A retrying call: raised, ran out of retries, or the tag id with its value. */
  datatype Retry<T> = Failed(fault: Fault) | Exhausted | Done(id: nat, value: T)

  /** An attempt that ends the loop: an id that Python treats as true (not None, not 0). */
  predicate Accepted<T>(reply: Reply<T>)
  {
    reply.Got? && reply.id != 0
  }

  /** Every attempt but the last was refused. */
  predicate EarlierRefused<T>(tries: seq<Reply<T>>)
  {
    forall i :: 0 <= i < |tries| - 1 ==> !Accepted(tries[i])
  }

  lemma EarlierRefusedSnoc<T>(tries: seq<Reply<T>>, reply: Reply<T>)
    requires EarlierRefused(tries) && |tries| > 0 && !Accepted(tries[|tries| - 1])
    ensures EarlierRefused(tries + [reply])
  {
    assert forall i :: 0 <= i < |tries| ==> (tries + [reply])[i] == tries[i];
  }

  /**
   * The attempts of one loop and its result: every attempt but the last was refused; the
   * last one is accepted and is the result, or the retries are used up.
   */
  predicate Settled<T(==)>(tries: seq<Reply<T>>, retries: nat, r: Retry<T>)
  {
    && 1 <= |tries| <= retries + 1
    && EarlierRefused(tries)
    && var last := tries[|tries| - 1];
       if Accepted(last) then r == Done(last.id, last.value)
       else |tries| == retries + 1 && r == Exhausted
  }

  /** A settled loop ends at its first accepted attempt, so its result never has id 0. */
  lemma SettledAtFirstAccepted<T>(tries: seq<Reply<T>>, retries: nat, r: Retry<T>, j: nat)
    requires Settled(tries, retries, r) && j < |tries| && Accepted(tries[j])
    ensures j == |tries| - 1 && r == Done(tries[j].id, tries[j].value) && r.id != 0
  {
  }

  /** The result is decided by the attempts: two results of the same attempts agree. */
  lemma SettledUnique<T>(tries: seq<Reply<T>>, retries: nat, r1: Retry<T>, r2: Retry<T>)
    requires Settled(tries, retries, r1) && Settled(tries, retries, r2)
    ensures r1 == r2
  {
  }

  /** The calls of several retrying calls, each a list of attempts, in order. */
  function Flatten<T>(l: seq<seq<seq<T>>>): seq<T>
  {
    if l == [] then [] else Flatten(l[..|l| - 1]) + Concat(l[|l| - 1])
  }

  lemma FlattenSnoc<T>(l: seq<seq<seq<T>>>, x: seq<seq<T>>)
    ensures Flatten(l + [x]) == Flatten(l) + Concat(x)
  {
    assert (l + [x])[..|l|] == l;
  }

  /** Every sector call so far settled on an id. */
  predicate AllDone<T>(results: seq<Retry<T>>)
  {
    forall j :: 0 <= j < |results| ==> results[j].Done?
  }

  lemma AllDoneSnoc<T>(results: seq<Retry<T>>, res: Retry<T>)
    requires AllDone(results) && res.Done?
    ensures AllDone(results + [res])
  {
    assert forall j :: 0 <= j < |results| ==> (results + [res])[j] == results[j];
  }

  /**
   * A loop over n sectors that stops at the first sector whose call did not settle on
   * an id: every result but the last is an id, and a loop cut short ends on a failure.
   */
  predicate RunOver<T>(n: nat, results: seq<Retry<T>>)
  {
    && |results| <= n
    && (forall i :: 0 <= i < |results| - 1 ==> results[i].Done?)
    && (|results| < n ==> |results| > 0 && !results[|results| - 1].Done?)
  }

  /**
   * The result of a loop over n sectors: the id of a loop over no sector is never bound;
   * otherwise a failure of the last sector reached is the result, or else the last id
   * with the value gathered over all sectors.
   */
  predicate Combined<T(==)>(n: nat, results: seq<Retry<T>>, r: Retry<T>, value: T)
  {
    if n == 0 then r == Failed(NoTrailers)
    else
      && |results| > 0
      && var last := results[|results| - 1];
         if last.Done? then r == Done(last.id, value) else r == last
  }

  /** Attempts of a read, each a read session of the sector with trailer t. */
  ghost predicate ReadTries(t: bv8, key: seq<bv8>, sessions: seq<seq<Call>>, tries: seq<Reply<seq<char>>>)
  {
    |sessions| == |tries| && forall i {:trigger tries[i]} :: 0 <= i < |tries| ==> ReadSession(sessions[i], t, key, tries[i])
  }

  /** Attempts of a write of text, each a write session. */
  ghost predicate WriteTries(t: bv8, key: seq<bv8>, text: seq<char>, sessions: seq<seq<Call>>, tries: seq<Reply<seq<char>>>)
  {
    |sessions| == |tries| && forall i {:trigger tries[i]} :: 0 <= i < |tries| ==> WriteSession(sessions[i], t, key, text, tries[i])
  }

  /** Attempts of a clear, each a clear session. */
  ghost predicate ClearTries(t: bv8, key: seq<bv8>, sessions: seq<seq<Call>>, tries: seq<Reply<()>>)
  {
    |sessions| == |tries| && forall i {:trigger tries[i]} :: 0 <= i < |tries| ==> ClearSession(sessions[i], t, key, tries[i])
  }

  /** One more read attempt extends the read attempts. */
  lemma ReadTriesSnoc(t: bv8, key: seq<bv8>, sessions: seq<seq<Call>>, tries: seq<Reply<seq<char>>>, log: seq<Call>, reply: Reply<seq<char>>)
    requires ReadTries(t, key, sessions, tries) && ReadSession(log, t, key, reply)
    ensures ReadTries(t, key, sessions + [log], tries + [reply])
  {
  }

  /** One more write attempt extends the write attempts. */
  lemma WriteTriesSnoc(t: bv8, key: seq<bv8>, text: seq<char>, sessions: seq<seq<Call>>, tries: seq<Reply<seq<char>>>, log: seq<Call>, reply: Reply<seq<char>>)
    requires WriteTries(t, key, text, sessions, tries) && WriteSession(log, t, key, text, reply)
    ensures WriteTries(t, key, text, sessions + [log], tries + [reply])
  {
  }

  /** One more clear attempt extends the clear attempts. */
  lemma ClearTriesSnoc(t: bv8, key: seq<bv8>, sessions: seq<seq<Call>>, tries: seq<Reply<()>>, log: seq<Call>, reply: Reply<()>)
    requires ClearTries(t, key, sessions, tries) && ClearSession(log, t, key, reply)
    ensures ClearTries(t, key, sessions + [log], tries + [reply])
  {
  }

  /** A read that settles on an answer returns whole blocks, at most three of them. */
  lemma ReadSettledLength(t: bv8, key: seq<bv8>, retries: nat, sessions: seq<seq<Call>>, tries: seq<Reply<seq<char>>>, r: Retry<seq<char>>)
    requires ReadTries(t, key, sessions, tries) && Settled(tries, retries, r) && r.Done?
    ensures |r.value| % 16 == 0 && |r.value| <= SectorData
  {
    var k := |tries| - 1;
    ReadTextLength(sessions[k], t, key, tries[k]);
  }

  /** A write that settles on an answer reports text[0:48]. */
  lemma WriteSettledText(t: bv8, key: seq<bv8>, text: seq<char>, retries: nat, sessions: seq<seq<Call>>, tries: seq<Reply<seq<char>>>, r: Retry<seq<char>>)
    requires WriteTries(t, key, text, sessions, tries) && Settled(tries, retries, r) && r.Done?
    ensures r.value == Clip(text)
  {
    var k := |tries| - 1;
    WriteReportsClip(sessions[k], t, key, text, tries[k]);
  }

  /** read_id_no_block's answer as an attempt: None, or the id. */
  function IdReply(o: Option<nat>): (r: Reply<()>)
    ensures r.Got? <==> o.Some?
    ensures o.Some? ==> r.id == o.value
  {
    match o
    case None => Sentinel
    case Some(id) => Got(id, ())
  }

  /** Attempts of read_id_no_block, each an id session answering ids[i]. */
  ghost predicate IdTries(sessions: seq<seq<Call>>, ids: seq<Option<nat>>, tries: seq<Reply<()>>)
  {
    && |sessions| == |tries| && |ids| == |tries|
    && forall i {:trigger tries[i]} :: 0 <= i < |tries| ==> IdSession(sessions[i], ids[i]) && tries[i] == IdReply(ids[i])
  }

  /** One more id attempt extends the id attempts. */
  lemma IdTriesSnoc(sessions: seq<seq<Call>>, ids: seq<Option<nat>>, tries: seq<Reply<()>>, log: seq<Call>, id: Option<nat>)
    requires IdTries(sessions, ids, tries) && IdSession(log, id)
    ensures IdTries(sessions + [log], ids + [id], tries + [IdReply(id)])
  {
    var sessions', ids', tries' := sessions + [log], ids + [id], tries + [IdReply(id)];
    forall i | 0 <= i < |tries'|
      ensures IdSession(sessions'[i], ids'[i]) && tries'[i] == IdReply(ids'[i])
    {
      if i < |tries| {
        assert tries'[i] == tries[i];
      }
    }
  }

  /** read_sector / read: read attempts until one returns a non-zero id. */
  method ReadUntilFound(reader: MFRC522, t: bv8, key: seq<bv8>, retries: nat)
    returns (r: Retry<seq<char>>, ghost tries: seq<Reply<seq<char>>>, ghost sessions: seq<seq<Call>>)
    requires reader.Valid()
    modifies reader, reader.spi
    ensures reader.Valid() && reader.calls == old(reader.calls) + Concat(sessions)
    ensures ReadTries(t, key, sessions, tries) && Settled(tries, retries, r)
  {
    var reply, log := ReadOnce(reader, t, key);
    ConcatSnoc([], log);
    ReadTriesSnoc(t, key, [], [], log, reply);
    tries, sessions := [reply], [log];
    var n := 0;
    while !Accepted(reply) && n < retries
      invariant |tries| == n + 1 && n <= retries && reply == tries[n]
      invariant EarlierRefused(tries)
      invariant ReadTries(t, key, sessions, tries)
      invariant reader.Valid() && reader.calls == old(reader.calls) + Concat(sessions)
    {
      reply, log := ReadOnce(reader, t, key);
      ConcatSnoc(sessions, log);
      AppendAssoc(old(reader.calls), Concat(sessions), log);
      EarlierRefusedSnoc(tries, reply);
      ReadTriesSnoc(t, key, sessions, tries, log, reply);
      tries, sessions := tries + [reply], sessions + [log];
      n := n + 1;
    }
    r := if Accepted(reply) then Done(reply.id, reply.value) else Exhausted;
  }

  /** write_sector / write: write attempts until one returns a non-zero id. */
  method WriteUntilDone(reader: MFRC522, t: bv8, key: seq<bv8>, text: seq<char>, retries: nat)
    returns (r: Retry<seq<char>>, ghost tries: seq<Reply<seq<char>>>, ghost sessions: seq<seq<Call>>)
    requires reader.Valid()
    modifies reader, reader.spi
    ensures reader.Valid() && reader.calls == old(reader.calls) + Concat(sessions)
    ensures WriteTries(t, key, text, sessions, tries) && Settled(tries, retries, r)
  {
    var reply, log := WriteOnce(reader, t, key, text);
    ConcatSnoc([], log);
    WriteTriesSnoc(t, key, text, [], [], log, reply);
    tries, sessions := [reply], [log];
    var n := 0;
    while !Accepted(reply) && n < retries
      invariant |tries| == n + 1 && n <= retries && reply == tries[n]
      invariant EarlierRefused(tries)
      invariant WriteTries(t, key, text, sessions, tries)
      invariant reader.Valid() && reader.calls == old(reader.calls) + Concat(sessions)
    {
      reply, log := WriteOnce(reader, t, key, text);
      ConcatSnoc(sessions, log);
      AppendAssoc(old(reader.calls), Concat(sessions), log);
      EarlierRefusedSnoc(tries, reply);
      WriteTriesSnoc(t, key, text, sessions, tries, log, reply);
      tries, sessions := tries + [reply], sessions + [log];
      n := n + 1;
    }
    r := if Accepted(reply) then Done(reply.id, reply.value) else Exhausted;
  }

  /** clear_sector: clear attempts until one returns a non-zero id. */
  method ClearUntilDone(reader: MFRC522, t: bv8, key: seq<bv8>, retries: nat)
    returns (r: Retry<()>, ghost tries: seq<Reply<()>>, ghost sessions: seq<seq<Call>>)
    requires reader.Valid()
    modifies reader, reader.spi
    ensures reader.Valid() && reader.calls == old(reader.calls) + Concat(sessions)
    ensures ClearTries(t, key, sessions, tries) && Settled(tries, retries, r)
  {
    var reply, log := ClearOnce(reader, t, key);
    ConcatSnoc([], log);
    ClearTriesSnoc(t, key, [], [], log, reply);
    tries, sessions := [reply], [log];
    var n := 0;
    while !Accepted(reply) && n < retries
      invariant |tries| == n + 1 && n <= retries && reply == tries[n]
      invariant EarlierRefused(tries)
      invariant ClearTries(t, key, sessions, tries)
      invariant reader.Valid() && reader.calls == old(reader.calls) + Concat(sessions)
    {
      reply, log := ClearOnce(reader, t, key);
      ConcatSnoc(sessions, log);
      AppendAssoc(old(reader.calls), Concat(sessions), log);
      EarlierRefusedSnoc(tries, reply);
      ClearTriesSnoc(t, key, sessions, tries, log, reply);
      tries, sessions := tries + [reply], sessions + [log];
      n := n + 1;
    }
    r := if Accepted(reply) then Done(reply.id, reply.value) else Exhausted;
  }

  /** read_id: id attempts until one returns a non-zero id. */
  method ReadIdUntilFound(reader: MFRC522, retries: nat)
    returns (r: Retry<()>, ghost tries: seq<Reply<()>>, ghost ids: seq<Option<nat>>, ghost sessions: seq<seq<Call>>)
    requires reader.Valid()
    modifies reader, reader.spi
    ensures reader.Valid() && reader.calls == old(reader.calls) + Concat(sessions)
    ensures IdTries(sessions, ids, tries) && Settled(tries, retries, r)
  {
    var id, log := ReadIdOnce(reader);
    var reply := IdReply(id);
    ConcatSnoc([], log);
    IdTriesSnoc([], [], [], log, id);
    tries, ids, sessions := [reply], [id], [log];
    var n := 0;
    while !Accepted(reply) && n < retries
      invariant |tries| == n + 1 && n <= retries && reply == tries[n]
      invariant EarlierRefused(tries)
      invariant IdTries(sessions, ids, tries)
      invariant reader.Valid() && reader.calls == old(reader.calls) + Concat(sessions)
    {
      id, log := ReadIdOnce(reader);
      reply := IdReply(id);
      ConcatSnoc(sessions, log);
      AppendAssoc(old(reader.calls), Concat(sessions), log);
      EarlierRefusedSnoc(tries, reply);
      IdTriesSnoc(sessions, ids, tries, log, id);
      tries, ids, sessions := tries + [reply], ids + [id], sessions + [log];
      n := n + 1;
    }
    r := if Accepted(reply) then Done(reply.id, reply.value) else Exhausted;
  }
}
