/**
 * SimpleMFRC522 (src/mfrc522/SimpleMFRC522.py): reads and writes the three data blocks
 * 8, 9 and 10 of sector 2, authenticating its trailer block 11 with the default key A.
 * Its attempts are the attempts of the general reader fixed to trailer 11, without the
 * trailer check.
 */
module Simple {
  import opened Wrappers
  import opened Driver
  import opened Sector
  import opened Sessions
  import opened Retries

  /** The trailer block the class authenticates. */
  const Trailer: bv8 := 11

  /** BLOCK_ADDRS. */
  const BlockAddrs: seq<bv8> := [8, 9, 10]

  /** Block 11 is a sector trailer, and the blocks the class reads and writes are its data blocks. */
  lemma TrailerOfBlockAddrs()
    ensures IsTrailer(Trailer as int) && DataBlocks(Trailer) == BlockAddrs
    ensures forall b :: b in BlockAddrs ==> !IsTrailer(b as int)
  {
  }

  class SimpleReader {
    const reader: MFRC522
    const key: seq<bv8>

    ghost predicate Valid()
      reads reader.spi
    {
      reader.Valid()
    }

    /** A reader over a driver, with KEY set to six 0xFF bytes. */
    constructor (reader: MFRC522)
      requires reader.Valid()
      ensures Valid() && this.reader == reader && key == DefaultKey
    {
      this.reader := reader;
      key := DefaultKey;
    }

    /** read_no_block: one read attempt of blocks 8-10. */
    method ReadNoBlock() returns (r: Reply<seq<char>>, ghost log: seq<Call>)
      requires Valid()
      modifies reader, reader.spi
      ensures Valid() && reader.calls == old(reader.calls) + log
      ensures ReadSession(log, Trailer, key, r)
      ensures r.Got? ==> |r.value| % 16 == 0 && |r.value| <= SectorData
    {
      r, log := ReadOnce(reader, Trailer, key);
      if r.Got? {
        ReadTextLength(log, Trailer, key, r);
      }
    }

    /** read: read attempts until one answers with a non-zero id. */
    method Read(retries: nat)
      returns (r: Retry<seq<char>>, ghost tries: seq<Reply<seq<char>>>, ghost sessions: seq<seq<Call>>)
      requires Valid()
      modifies reader, reader.spi
      ensures Valid() && reader.calls == old(reader.calls) + Concat(sessions)
      ensures ReadTries(Trailer, key, sessions, tries) && Settled(tries, retries, r)
      ensures !r.Failed?
      ensures r.Done? ==> r.id != 0 && |r.value| % 16 == 0 && |r.value| <= SectorData
    {
      r, tries, sessions := ReadUntilFound(reader, Trailer, key, retries);
      if r.Done? {
        ReadSettledLength(Trailer, key, retries, sessions, tries, r);
      }
    }

    /** read_id_no_block: one attempt at the id. */
    method ReadIdNoBlock() returns (r: Option<nat>, ghost log: seq<Call>)
      requires Valid()
      modifies reader, reader.spi
      ensures Valid() && reader.calls == old(reader.calls) + log
      ensures IdSession(log, r)
    {
      r, log := ReadIdOnce(reader);
    }

    /** read_id: id attempts until one is not 0. */
    method ReadId(retries: nat)
      returns (r: Retry<()>, ghost tries: seq<Reply<()>>, ghost ids: seq<Option<nat>>, ghost sessions: seq<seq<Call>>)
      requires Valid()
      modifies reader, reader.spi
      ensures Valid() && reader.calls == old(reader.calls) + Concat(sessions)
      ensures IdTries(sessions, ids, tries) && Settled(tries, retries, r)
      ensures !r.Failed?
    {
      r, tries, ids, sessions := ReadIdUntilFound(reader, retries);
    }

    /** write_no_block: one write attempt of the text to blocks 8-10; it reports text[0:48]. */
    method WriteNoBlock(text: seq<char>) returns (r: Reply<seq<char>>, ghost log: seq<Call>)
      requires Valid()
      modifies reader, reader.spi
      ensures Valid() && reader.calls == old(reader.calls) + log
      ensures WriteSession(log, Trailer, key, text, r)
      ensures r.Got? ==> r.value == Clip(text)
    {
      r, log := WriteOnce(reader, Trailer, key, text);
      if r.Got? {
        WriteReportsClip(log, Trailer, key, text, r);
      }
    }

    /** write: write attempts until one answers with a non-zero id. */
    method Write(text: seq<char>, retries: nat)
      returns (r: Retry<seq<char>>, ghost tries: seq<Reply<seq<char>>>, ghost sessions: seq<seq<Call>>)
      requires Valid()
      modifies reader, reader.spi
      ensures Valid() && reader.calls == old(reader.calls) + Concat(sessions)
      ensures WriteTries(Trailer, key, text, sessions, tries) && Settled(tries, retries, r)
      ensures !r.Failed?
      ensures r.Done? ==> r.id != 0 && r.value == Clip(text)
    {
      r, tries, sessions := WriteUntilDone(reader, Trailer, key, text, retries);
      if r.Done? {
        WriteSettledText(Trailer, key, text, retries, sessions, tries, r);
      }
    }
  }
}
