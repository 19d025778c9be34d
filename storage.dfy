/**
 * `HeaderStore`: an append-only ledger of block headers held in memory and
 * mirrored by a log file of length-prefixed records (src/storage.rs).
 */
module Storage {
  import opened Wrappers
  import opened LittleEndian
  import opened Errors
  import opened Bitcoin
  import opened LogFormat
  import opened Chain

  /** The number of hashes a locator holds at most. */
  const LOCATOR_LENGTH: nat := 10

  function Min(a: nat, b: nat): nat
  {
    if a <= b then a else b
  }

  /**
   * The loop of `open`: reads a length prefix, then that many payload bytes,
   * decodes them and pushes the header, until fewer than four bytes remain.
   */
  method ReplayLog(c: Consensus, data: seq<Byte>) returns (r: Result<seq<Header>, Error>)
    ensures r == Replay(c, data, StopAtFragment)
  {
    var headers: seq<Header> := [];
    var pos := 0;
    assert data[pos..] == data;
    PrependNothing(Replay(c, data, StopAtFragment));
    while pos + 4 <= |data|
      invariant pos <= |data|
      invariant Replay(c, data, StopAtFragment) == Prepend(headers, Replay(c, data[pos..], StopAtFragment))
      decreases |data| - pos
    {
      ghost var here := data[pos..];
      assert here[..4] == data[pos..pos + 4];
      var len := U32FromLe(data[pos..pos + 4]);
      pos := pos + 4;
      if |data| - pos < len {
        return Err(TruncatedRecord);
      }
      var buf := data[pos..pos + len];
      assert here[4..4 + len] == buf;
      pos := pos + len;
      assert here[4 + len..] == data[pos..];
      match c.deserialize(buf) {
        case None =>
          return Err(UndecodablePayload);
        case Some(header) =>
          PrependTwice(headers, [header], Replay(c, data[pos..], StopAtFragment));
          headers := headers + [header];
      }
    }
    assert |data[pos..]| < 4;
    r := Ok(headers);
    assert headers + [] == headers;
  }

  /** The hashes of the last `limit` headers of `hs`, newest first: `iter().rev().take(limit).map(block_hash)`. */
  function RecentHashes(c: Consensus, hs: seq<Header>, limit: nat): (r: seq<BlockHash>)
    ensures |r| == Min(limit, |hs|)
    ensures forall i :: 0 <= i < |r| ==> r[i] == c.blockHash(hs[|hs| - 1 - i])
    decreases |hs|
  {
    if hs == [] || limit == 0 then []
    else [c.blockHash(hs[|hs| - 1])] + RecentHashes(c, hs[..|hs| - 1], limit - 1)
  }

  /** Committing the accepted prefix of a batch keeps the chain linked and the log mirrored. */
  lemma KeepsInvariants(c: Consensus, chain: seq<Header>, written: seq<Byte>, batch: seq<Header>)
    ensures var k := AcceptedPrefix(c, chain, batch);
      && (Linked(c, chain) ==> Linked(c, chain + batch[..k]))
      && (Lawful(c) && Replay(c, written, RejectFragment) == Ok(chain) ==>
            Replay(c, written + Records(c, batch[..k]), RejectFragment) == Ok(chain + batch[..k]))
  {
    var k := AcceptedPrefix(c, chain, batch);
    if Linked(c, chain) {
      AppendKeepsLinked(c, chain, batch);
    }
    if Lawful(c) && Replay(c, written, RejectFragment) == Ok(chain) {
      AppendKeepsReplay(c, written, chain, batch[..k]);
    }
  }

  /** Admitting candidate `i` extends the committed prefix by one header and one record. */
  lemma Advance(c: Consensus, chain: seq<Header>, written: seq<Byte>, batch: seq<Header>, i: nat)
    requires i < |batch|
    ensures chain + batch[..i] + [batch[i]] == chain + batch[..i + 1]
    ensures written + Records(c, batch[..i]) + Record(c, batch[i]) == written + Records(c, batch[..i + 1])
  {
    assert batch[..i + 1] == batch[..i] + [batch[i]];
    RecordsSnoc(c, batch[..i], batch[i]);
  }

  class HeaderStore {
    /** The path of the backing log; the file itself is the `log` field. */
    const path: string
    const network: Network
    /** The bitcoin library the store calls. */
    const consensus: Consensus
    /** The headers in chain order: index 0 oldest, the last one the tip. */
    var headers: seq<Header>
    /** The bytes of the backing log file. */
    var log: seq<Byte>

    /** The record-building `HeaderStore { path, headers, network }`. */
    constructor (path: string, network: Network, consensus: Consensus, headers: seq<Header>, log: seq<Byte>)
      ensures this.path == path && this.network == network && this.consensus == consensus
      ensures this.headers == headers && this.log == log
    {
      this.path := path;
      this.network := network;
      this.consensus := consensus;
      this.headers := headers;
      this.log := log;
    }

    /**
     * The log is a whole number of records and replays to exactly `headers`:
     * the mirroring of memory and disk. Reopening a mirrored log gives back
     * the same headers.
     */
    ghost predicate Mirrors()
      reads this
      ensures Mirrors() ==> Replay(consensus, log, StopAtFragment) == Ok(headers)
    {
      var strict := Replay(consensus, log, RejectFragment);
      if strict.Ok? then StrictAgreesWithLenient(consensus, log); strict == Ok(headers)
      else false
    }

    /**
     * `open`: `file` is the content of the file at `path`, or None when the
     * file cannot be opened for reading at all (absent or otherwise).
     */
    static method Open(path: string, network: Network, consensus: Consensus, file: Option<seq<Byte>>)
      returns (r: Result<HeaderStore, Error>)
      ensures file.None? ==> r.Ok? && r.value.headers == [] && r.value.log == [] && r.value.Mirrors()
      ensures file.Some? ==>
        match Replay(consensus, file.value, StopAtFragment)
        case Err(e) => r == Err(e)
        case Ok(hs) =>
          && r.Ok? && r.value.headers == hs && r.value.log == file.value
          && (r.value.Mirrors() <==> Replay(consensus, file.value, RejectFragment).Ok?)
      ensures r.Ok? ==> fresh(r.value)
      ensures r.Ok? ==> r.value.path == path && r.value.network == network && r.value.consensus == consensus
    {
      var headers: seq<Header> := [];
      var log: seq<Byte> := [];
      if file.Some? {
        var replayed := ReplayLog(consensus, file.value);
        if replayed.Err? {
          return Err(replayed.error);
        }
        headers, log := replayed.value, file.value;
        ghost var strict := Replay(consensus, log, RejectFragment);
        if strict.Ok? {
          StrictAgreesWithLenient(consensus, log);
        }
      }
      var store := new HeaderStore(path, network, consensus, headers, log);
      r := Ok(store);
    }

    /** `height`: how many headers the store holds. */
    function Height(): (n: nat)
      reads this
      ensures n == |headers|
    {
      |headers|
    }

    /** `_tip`: the most recently appended header, if any. */
    function Tip(): (t: Option<Header>)
      reads this
      ensures t.None? <==> headers == []
      ensures t.Some? ==> t.value == headers[|headers| - 1]
    {
      if headers == [] then None else Some(headers[|headers| - 1])
    }

    /** `locator_hashes`: the genesis hash on an empty store, else the last ten hashes, tip first. */
    function LocatorHashes(): (r: seq<BlockHash>)
      reads this
      ensures headers == [] ==> r == [consensus.genesisHash(network)]
      ensures headers != [] ==> |r| == Min(LOCATOR_LENGTH, |headers|)
      ensures headers != [] ==> forall i :: 0 <= i < |r| ==> r[i] == consensus.blockHash(headers[|headers| - 1 - i])
    {
      if headers == [] then [consensus.genesisHash(network)]
      else RecentHashes(consensus, headers, LOCATOR_LENGTH)
    }

    /**
     * One pass of the loop of `append`: checks `header` against the tip and
     * its own proof of work, then writes its record and pushes it.
     */
    method AppendOne(header: Header) returns (rejection: Option<Error>)
      modifies this
      ensures rejection == Rejection(consensus, old(headers), header)
      ensures rejection.Some? ==> headers == old(headers) && log == old(log)
      ensures rejection.None? ==>
        headers == old(headers) + [header] && log == old(log) + Record(consensus, header)
    {
      var tip := Tip();
      if tip.Some? && header.prevBlockhash != consensus.blockHash(tip.value) {
        return Some(DoesNotConnect);
      }
      if !consensus.validatePow(header) {
        return Some(InvalidProofOfWork);
      }
      var bytes := consensus.serialize(header);
      var len := AsU32(|bytes|);
      log := log + U32ToLe(len);
      log := log + bytes;
      headers := headers + [header];
      return None;
    }

    /**
     * `append`: admits the candidates of `batch` in order, writing each one's
     * record to the log and pushing it, and stops at the first candidate
     * that does not connect to the tip or lacks valid proof of work. The
     * candidates admitted before a failure stay committed.
     */
    method Append(batch: seq<Header>) returns (r: Result<(), Error>)
      modifies this
      ensures var k := AcceptedPrefix(consensus, old(headers), batch);
        && headers == old(headers) + batch[..k]
        && log == old(log) + Records(consensus, batch[..k])
      ensures r == AppendOutcome(consensus, old(headers), batch)
      ensures Linked(consensus, old(headers)) ==> Linked(consensus, headers)
      ensures Lawful(consensus) && old(Mirrors()) ==> Mirrors()
    {
      ghost var chain, written := headers, log;
      ghost var k := AcceptedPrefix(consensus, chain, batch);
      var i := 0;
      while i < |batch|
        invariant i <= k
        invariant headers == chain + batch[..i]
        invariant log == written + Records(consensus, batch[..i])
      {
        PrefixStep(consensus, chain, batch, i);
        var rejection := AppendOne(batch[i]);
        if rejection.Some? {
          PrefixEnd(consensus, chain, batch, i);
          KeepsInvariants(consensus, chain, written, batch);
          return Err(rejection.value);
        }
        Advance(consensus, chain, written, batch, i);
        i := i + 1;
      }
      PrefixEnd(consensus, chain, batch, i);
      assert batch[..i] == batch;
      KeepsInvariants(consensus, chain, written, batch);
      return Ok(());
    }
  }

  /**
   * The reopen scenario: a store opened where no file exists takes one
   * header; a store reopened on the log it wrote holds that header and takes
   * a second one that connects to it.
   */
  method ReopenAndExtend(path: string, network: Network, c: Consensus, h1: Header, h2: Header)
    returns (first: nat, reopened: nat, extended: nat)
    requires Lawful(c)
    requires c.validatePow(h1) && c.validatePow(h2)
    requires h2.prevBlockhash == c.blockHash(h1)
    ensures first == 1 && reopened == 1 && extended == 2
  {
    var created := HeaderStore.Open(path, network, c, None);
    var store1 := created.value;
    var appended := store1.Append([h1]);
    assert [h1][1..] == [] && [h1][..1] == [h1];
    first := store1.Height();
    assert store1.log == Records(c, [h1]);
    ReplayRoundTrip(c, [h1], StopAtFragment);
    var reopenedStore := HeaderStore.Open(path, network, c, Some(store1.log));
    var store2 := reopenedStore.value;
    reopened := store2.Height();
    var appendedAgain := store2.Append([h2]);
    assert [h2][1..] == [] && [h2][..1] == [h2];
    extended := store2.Height();
  }
}
