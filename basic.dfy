/**
 * BasicMFRC522 (src/mfrc522/BasicMFRC522.py): reads, writes and clears the three data
 * blocks of any sector, named by its trailer block, and of lists of sectors, with a
 * key A given at construction.
 */
module Basic {
  import opened Wrappers
  import opened Driver
  import opened Sector
  import opened Sessions
  import opened Retries

  /** read_sector's calls for trailer t: a ValueError before any call, or the read retries. */
  ghost predicate SectorRead(t: bv8, key: seq<bv8>, retries: nat, sessions: seq<seq<Call>>, tries: seq<Reply<seq<char>>>, r: Retry<seq<char>>)
  {
    if IsTrailer(t as int) then ReadTries(t, key, sessions, tries) && Settled(tries, retries, r)
    else r == Failed(InvalidTrailer) && sessions == [] && tries == []
  }

  /** write_sector's calls for trailer t and text. */
  ghost predicate SectorWritten(t: bv8, key: seq<bv8>, text: seq<char>, retries: nat, sessions: seq<seq<Call>>, tries: seq<Reply<seq<char>>>, r: Retry<seq<char>>)
  {
    if IsTrailer(t as int) then WriteTries(t, key, text, sessions, tries) && Settled(tries, retries, r)
    else r == Failed(InvalidTrailer) && sessions == [] && tries == []
  }

  /** clear_sector's calls for trailer t. */
  ghost predicate SectorCleared(t: bv8, key: seq<bv8>, retries: nat, sessions: seq<seq<Call>>, tries: seq<Reply<()>>, r: Retry<()>)
  {
    if IsTrailer(t as int) then ClearTries(t, key, sessions, tries) && Settled(tries, retries, r)
    else r == Failed(InvalidTrailer) && sessions == [] && tries == []
  }

  /** The sectors a read loop went through: sector j is read_sector of trailers[j]. */
  ghost predicate SectorsRead(trailers: seq<bv8>, key: seq<bv8>, retries: nat, results: seq<Retry<seq<char>>>,
                              attempts: seq<seq<seq<Call>>>, tries: seq<seq<Reply<seq<char>>>>)
  {
    && |results| <= |trailers| && |attempts| == |results| && |tries| == |results|
    && forall j {:trigger tries[j]} :: 0 <= j < |results| ==>
         SectorRead(trailers[j], key, retries, attempts[j], tries[j], results[j])
  }

  lemma SectorsReadSnoc(trailers: seq<bv8>, key: seq<bv8>, retries: nat, results: seq<Retry<seq<char>>>,
                        attempts: seq<seq<seq<Call>>>, tries: seq<seq<Reply<seq<char>>>>,
                        res: Retry<seq<char>>, ss: seq<seq<Call>>, ts: seq<Reply<seq<char>>>)
    requires SectorsRead(trailers, key, retries, results, attempts, tries) && |results| < |trailers|
    requires SectorRead(trailers[|results|], key, retries, ss, ts, res)
    ensures SectorsRead(trailers, key, retries, results + [res], attempts + [ss], tries + [ts])
  {
  }

  /** The sectors a write loop went through: sector j is write_sector of chunks[j] to trailers[j]. */
  ghost predicate SectorsWritten(trailers: seq<bv8>, key: seq<bv8>, chunks: seq<seq<char>>, retries: nat, results: seq<Retry<seq<char>>>,
                                 attempts: seq<seq<seq<Call>>>, tries: seq<seq<Reply<seq<char>>>>)
  {
    && |results| <= |trailers| && |results| <= |chunks|
    && |attempts| == |results| && |tries| == |results|
    && forall j {:trigger tries[j]} :: 0 <= j < |results| ==>
         SectorWritten(trailers[j], key, chunks[j], retries, attempts[j], tries[j], results[j])
  }

  lemma SectorsWrittenSnoc(trailers: seq<bv8>, key: seq<bv8>, chunks: seq<seq<char>>, retries: nat, results: seq<Retry<seq<char>>>,
                           attempts: seq<seq<seq<Call>>>, tries: seq<seq<Reply<seq<char>>>>,
                           res: Retry<seq<char>>, ss: seq<seq<Call>>, ts: seq<Reply<seq<char>>>)
    requires SectorsWritten(trailers, key, chunks, retries, results, attempts, tries)
    requires |results| < |trailers| && |results| < |chunks|
    requires SectorWritten(trailers[|results|], key, chunks[|results|], retries, ss, ts, res)
    ensures SectorsWritten(trailers, key, chunks, retries, results + [res], attempts + [ss], tries + [ts])
  {
  }

  /** The sectors a clear loop went through: sector j is clear_sector of trailers[j]. */
  ghost predicate SectorsCleared(trailers: seq<bv8>, key: seq<bv8>, retries: nat, results: seq<Retry<()>>,
                                 attempts: seq<seq<seq<Call>>>, tries: seq<seq<Reply<()>>>)
  {
    && |results| <= |trailers| && |attempts| == |results| && |tries| == |results|
    && forall j {:trigger tries[j]} :: 0 <= j < |results| ==>
         SectorCleared(trailers[j], key, retries, attempts[j], tries[j], results[j])
  }

  lemma SectorsClearedSnoc(trailers: seq<bv8>, key: seq<bv8>, retries: nat, results: seq<Retry<()>>,
                           attempts: seq<seq<seq<Call>>>, tries: seq<seq<Reply<()>>>,
                           res: Retry<()>, ss: seq<seq<Call>>, ts: seq<Reply<()>>)
    requires SectorsCleared(trailers, key, retries, results, attempts, tries) && |results| < |trailers|
    requires SectorCleared(trailers[|results|], key, retries, ss, ts, res)
    ensures SectorsCleared(trailers, key, retries, results + [res], attempts + [ss], tries + [ts])
  {
  }

  /** The texts of the sectors read, concatenated in order (text_all += text). */
  function Texts(results: seq<Retry<seq<char>>>): seq<char>
  {
    if results == [] then []
    else
      var last := results[|results| - 1];
      Texts(results[..|results| - 1]) + (if last.Done? then last.value else [])
  }

  lemma TextsSnoc(results: seq<Retry<seq<char>>>, res: Retry<seq<char>>)
    ensures Texts(results + [res]) == Texts(results) + (if res.Done? then res.value else [])
  {
    assert (results + [res])[..|results|] == results;
  }

  class BasicReader {
    const reader: MFRC522
    const key: seq<bv8>

    ghost predicate Valid()
      reads reader.spi
    {
      reader.Valid()
    }

    /** A reader over a driver, with key A (DefaultKey unless another is given). */
    constructor (reader: MFRC522, key: seq<bv8>)
      requires reader.Valid()
      ensures Valid() && this.reader == reader && this.key == key
    {
      this.reader := reader;
      this.key := key;
    }

    /** read_no_block: ValueError on a block that is not a trailer, otherwise one read attempt. */
    method ReadNoBlock(t: bv8) returns (r: Reply<seq<char>>, ghost log: seq<Call>)
      requires Valid()
      modifies reader, reader.spi
      ensures Valid() && reader.calls == old(reader.calls) + log
      ensures !IsTrailer(t as int) ==> r == Raised(InvalidTrailer) && log == []
      ensures IsTrailer(t as int) ==> ReadSession(log, t, key, r)
    {
      if !IsTrailer(t as int) {
        return Raised(InvalidTrailer), [];
      }
      r, log := ReadOnce(reader, t, key);
    }

    /** read_sector: read attempts until one answers with a non-zero id. */
    method ReadSector(t: bv8, retries: nat)
      returns (r: Retry<seq<char>>, ghost tries: seq<Reply<seq<char>>>, ghost sessions: seq<seq<Call>>)
      requires Valid()
      modifies reader, reader.spi
      ensures Valid() && reader.calls == old(reader.calls) + Concat(sessions)
      ensures SectorRead(t, key, retries, sessions, tries, r)
      ensures r.Failed? <==> !IsTrailer(t as int)
      ensures r.Done? ==> r.id != 0 && |r.value| % 16 == 0 && |r.value| <= SectorData
    {
      if !IsTrailer(t as int) {
        return Failed(InvalidTrailer), [], [];
      }
      r, tries, sessions := ReadUntilFound(reader, t, key, retries);
      if r.Done? {
        ReadSettledLength(t, key, retries, sessions, tries, r);
      }
    }

    /**
     * read_sectors: read_sector over each trailer in turn, concatenating the texts; the
     * result carries the id of the last sector read.
     */
    method ReadSectors(trailers: seq<bv8>, retries: nat)
      returns (r: Retry<seq<char>>, ghost results: seq<Retry<seq<char>>>,
               ghost attempts: seq<seq<seq<Call>>>, ghost tries: seq<seq<Reply<seq<char>>>>)
      requires Valid()
      modifies reader, reader.spi
      ensures Valid() && reader.calls == old(reader.calls) + Flatten(attempts)
      ensures RunOver(|trailers|, results) && SectorsRead(trailers, key, retries, results, attempts, tries)
      ensures Combined(|trailers|, results, r, Texts(results))
      ensures r.Done? ==> |r.value| % 16 == 0 && |r.value| <= SectorData * |trailers|
    {
      results, attempts, tries := [], [], [];
      var textAll: seq<char> := [];
      var id: nat := 0;
      ghost var blocks: nat := 0;
      for i := 0 to |trailers|
        invariant |results| == i && SectorsRead(trailers, key, retries, results, attempts, tries)
        invariant AllDone(results)
        invariant textAll == Texts(results) && |textAll| == 16 * blocks && blocks <= 3 * i
        invariant i > 0 ==> id == results[i - 1].id
        invariant Valid() && reader.calls == old(reader.calls) + Flatten(attempts)
      {
        var res;
        ghost var ts, ss;
        res, ts, ss := ReadSector(trailers[i], retries);
        FlattenSnoc(attempts, ss);
        AppendAssoc(old(reader.calls), Flatten(attempts), Concat(ss));
        SectorsReadSnoc(trailers, key, retries, results, attempts, tries, res, ss, ts);
        if res.Done? {
          AllDoneSnoc(results, res);
        }
        TextsSnoc(results, res);
        results, attempts, tries := results + [res], attempts + [ss], tries + [ts];
        if !res.Done? {
          return res, results, attempts, tries;
        }
        blocks := blocks + |res.value| / 16;
        textAll := textAll + res.value;
        id := res.id;
      }
      if |trailers| == 0 {
        r := Failed(NoTrailers);
      } else {
        r := Done(id, textAll);
      }
    }

    /** read_id_no_block: one attempt at the id. */
    method ReadIdNoBlock() returns (r: Option<nat>, ghost log: seq<Call>)
      requires Valid()
      modifies reader, reader.spi
      ensures Valid() && reader.calls == old(reader.calls) + log
      ensures IdSession(log, r)
    {
      r, log := ReadIdOnce(reader);
    }

    /** read_id: id attempts until one is not 0. */
    method ReadId(retries: nat)
      returns (r: Retry<()>, ghost tries: seq<Reply<()>>, ghost ids: seq<Option<nat>>, ghost sessions: seq<seq<Call>>)
      requires Valid()
      modifies reader, reader.spi
      ensures Valid() && reader.calls == old(reader.calls) + Concat(sessions)
      ensures IdTries(sessions, ids, tries) && Settled(tries, retries, r)
    {
      r, tries, ids, sessions := ReadIdUntilFound(reader, retries);
    }

    /** write_no_block: ValueError on a block that is not a trailer, otherwise one write attempt. */
    method WriteNoBlock(text: seq<char>, t: bv8) returns (r: Reply<seq<char>>, ghost log: seq<Call>)
      requires Valid()
      modifies reader, reader.spi
      ensures Valid() && reader.calls == old(reader.calls) + log
      ensures !IsTrailer(t as int) ==> r == Raised(InvalidTrailer) && log == []
      ensures IsTrailer(t as int) ==> WriteSession(log, t, key, text, r)
    {
      if !IsTrailer(t as int) {
        return Raised(InvalidTrailer), [];
      }
      r, log := WriteOnce(reader, t, key, text);
    }

    /** write_sector: write attempts until one answers with a non-zero id; it reports text[0:48]. */
    method WriteSector(text: seq<char>, t: bv8, retries: nat)
      returns (r: Retry<seq<char>>, ghost tries: seq<Reply<seq<char>>>, ghost sessions: seq<seq<Call>>)
      requires Valid()
      modifies reader, reader.spi
      ensures Valid() && reader.calls == old(reader.calls) + Concat(sessions)
      ensures SectorWritten(t, key, text, retries, sessions, tries, r)
      ensures r.Failed? <==> !IsTrailer(t as int)
      ensures r.Done? ==> r.id != 0 && r.value == Clip(text)
    {
      if !IsTrailer(t as int) {
        return Failed(InvalidTrailer), [], [];
      }
      r, tries, sessions := WriteUntilDone(reader, t, key, text, retries);
      if r.Done? {
        WriteSettledText(t, key, text, retries, sessions, tries, r);
      }
    }

    /**
     * write_sectors: split the text into 48-character chunks (raising on an empty text)
     * and write chunk i to trailers[i]; trailers beyond the last chunk are skipped, since
     * indexing the chunk list raises the IndexError the loop ignores.  The text reported
     * is the written chunks concatenated: the padded text, cut after the last sector
     * written.
     */
    method WriteSectors(text: seq<char>, trailers: seq<bv8>, retries: nat)
      returns (r: Retry<seq<char>>, ghost results: seq<Retry<seq<char>>>,
               ghost attempts: seq<seq<seq<Call>>>, ghost tries: seq<seq<Reply<seq<char>>>>)
      requires Valid()
      modifies reader, reader.spi
      ensures Valid() && reader.calls == old(reader.calls) + Flatten(attempts)
      ensures text == [] ==> r == Failed(EmptyText) && results == [] && attempts == []
      ensures text != [] ==>
        var m := Min(|trailers|, ChunkCount(|text|));
        && RunOver(m, results) && SectorsWritten(trailers, key, Chunks(text), retries, results, attempts, tries)
        && Combined(m, results, r, Padded(text)[..SectorData * m])
    {
      results, attempts, tries := [], [], [];
      var split := SplitString(text);
      if split.None? {
        return Failed(EmptyText), results, attempts, tries;
      }
      var chunks := split.value;
      var textAll: seq<char> := [];
      var id: nat := 0;
      for i := 0 to |trailers|
        invariant |results| == (if i <= |chunks| then i else |chunks|)
        invariant SectorsWritten(trailers, key, chunks, retries, results, attempts, tries)
        invariant AllDone(results)
        invariant textAll == Concat(chunks[..|results|])
        invariant |results| > 0 ==> id == results[|results| - 1].id
        invariant Valid() && reader.calls == old(reader.calls) + Flatten(attempts)
      {
        if i < |chunks| {
          var res;
          ghost var ts, ss;
          res, ts, ss := WriteSector(chunks[i], trailers[i], retries);
          FlattenSnoc(attempts, ss);
          AppendAssoc(old(reader.calls), Flatten(attempts), Concat(ss));
          SectorsWrittenSnoc(trailers, key, chunks, retries, results, attempts, tries, res, ss, ts);
          if res.Done? {
            AllDoneSnoc(results, res);
          }
          results, attempts, tries := results + [res], attempts + [ss], tries + [ts];
          if !res.Done? {
            return res, results, attempts, tries;
          }
          ConcatPrefixSnoc(chunks, i);
          textAll := textAll + res.value;
          id := res.id;
        }
      }
      ChunksPrefix(text, |results|);
      if |trailers| == 0 {
        r := Failed(NoTrailers);
      } else {
        r := Done(id, textAll);
      }
    }

    /** clear_no_sector: ValueError on a block that is not a trailer, otherwise one clear attempt. */
    method ClearNoSector(t: bv8) returns (r: Reply<()>, ghost log: seq<Call>)
      requires Valid()
      modifies reader, reader.spi
      ensures Valid() && reader.calls == old(reader.calls) + log
      ensures !IsTrailer(t as int) ==> r == Raised(InvalidTrailer) && log == []
      ensures IsTrailer(t as int) ==> ClearSession(log, t, key, r)
    {
      if !IsTrailer(t as int) {
        return Raised(InvalidTrailer), [];
      }
      r, log := ClearOnce(reader, t, key);
    }

    /** clear_sector: clear attempts until one answers with a non-zero id. */
    method ClearSector(t: bv8, retries: nat)
      returns (r: Retry<()>, ghost tries: seq<Reply<()>>, ghost sessions: seq<seq<Call>>)
      requires Valid()
      modifies reader, reader.spi
      ensures Valid() && reader.calls == old(reader.calls) + Concat(sessions)
      ensures SectorCleared(t, key, retries, sessions, tries, r)
      ensures r.Failed? <==> !IsTrailer(t as int)
    {
      if !IsTrailer(t as int) {
        return Failed(InvalidTrailer), [], [];
      }
      r, tries, sessions := ClearUntilDone(reader, t, key, retries);
    }

    /** clear_sectors: clear_sector over each trailer in turn; the id of the last one. */
    method ClearSectors(trailers: seq<bv8>, retries: nat)
      returns (r: Retry<()>, ghost results: seq<Retry<()>>,
               ghost attempts: seq<seq<seq<Call>>>, ghost tries: seq<seq<Reply<()>>>)
      requires Valid()
      modifies reader, reader.spi
      ensures Valid() && reader.calls == old(reader.calls) + Flatten(attempts)
      ensures RunOver(|trailers|, results) && SectorsCleared(trailers, key, retries, results, attempts, tries)
      ensures Combined(|trailers|, results, r, ())
    {
      results, attempts, tries := [], [], [];
      var id: nat := 0;
      for i := 0 to |trailers|
        invariant |results| == i && SectorsCleared(trailers, key, retries, results, attempts, tries)
        invariant AllDone(results)
        invariant i > 0 ==> id == results[i - 1].id
        invariant Valid() && reader.calls == old(reader.calls) + Flatten(attempts)
      {
        var res;
        ghost var ts, ss;
        res, ts, ss := ClearSector(trailers[i], retries);
        FlattenSnoc(attempts, ss);
        AppendAssoc(old(reader.calls), Flatten(attempts), Concat(ss));
        SectorsClearedSnoc(trailers, key, retries, results, attempts, tries, res, ss, ts);
        if res.Done? {
          AllDoneSnoc(results, res);
        }
        results, attempts, tries := results + [res], attempts + [ss], tries + [ts];
        if !res.Done? {
          return res, results, attempts, tries;
        }
        id := res.id;
      }
      if |trailers| == 0 {
        r := Failed(NoTrailers);
      } else {
        r := Done(id, ());
      }
    }
  }
}
