/**
 * The on-disk format of the header log: a flat concatenation of records,
 * each a 4-byte little-endian `u32` payload length followed by the
 * consensus encoding of one header (src/storage.rs, `open` and `append`).
 */
module LogFormat {
  import opened Wrappers
  import opened LittleEndian
  import opened Errors
  import opened Bitcoin

  /** The record `append` writes for one header: `len.to_le_bytes() ‖ bytes`. */
  function Record(c: Consensus, h: Header): (r: seq<Byte>)
    ensures |r| == 4 + |c.serialize(h)|
    ensures r[4..] == c.serialize(h)
  {
    var payload := c.serialize(h);
    U32ToLe(AsU32(|payload|)) + payload
  }

  /** The records of `hs`, in order; each takes at least its 4-byte length prefix. */
  function Records(c: Consensus, hs: seq<Header>): (r: seq<Byte>)
    ensures |r| >= 4 * |hs|
  {
    if hs == [] then [] else Record(c, hs[0]) + Records(c, hs[1..])
  }

  /** What replay does with 1 to 3 bytes left at a record boundary. */
  datatype FragmentPolicy =
    | StopAtFragment  // as `open` is written: the short read of the length ends the loop
    | RejectFragment  // a partial length prefix is a truncated record

  /** `hs` in front of the headers of `r`; errors pass through. */
  function Prepend(hs: seq<Header>, r: Result<seq<Header>, Error>): Result<seq<Header>, Error>
  {
    match r
    case Ok(tail) => Ok(hs + tail)
    case Err(e) => Err(e)
  }

  lemma PrependNothing(r: Result<seq<Header>, Error>)
    ensures Prepend([], r) == r
  {
    if r.Ok? {
      assert [] + r.value == r.value;
    }
  }

  lemma PrependTwice(a: seq<Header>, b: seq<Header>, r: Result<seq<Header>, Error>)
    ensures Prepend(a, Prepend(b, r)) == Prepend(a + b, r)
  {
    if r.Ok? {
      assert a + (b + r.value) == (a + b) + r.value;
    }
  }

  /**
   * The headers a log replays to, record by record: the loop of `open`.
   * With `StopAtFragment` this is the source's behaviour. Every header read
   * takes at least the four bytes of its length prefix.
   */
  function Replay(c: Consensus, bs: seq<Byte>, policy: FragmentPolicy): (r: Result<seq<Header>, Error>)
    ensures r.Ok? ==> 4 * |r.value| <= |bs|
    decreases |bs|
  {
    if |bs| < 4 then
      if |bs| == 0 || policy.StopAtFragment? then Ok([]) else Err(TruncatedRecord)
    else
      var len := U32FromLe(bs[..4]);
      if |bs| - 4 < len then Err(TruncatedRecord)
      else
        match c.deserialize(bs[4..4 + len])
        case None => Err(UndecodablePayload)
        case Some(h) => Prepend([h], Replay(c, bs[4 + len..], policy))
  }

  /** The length prefix of a record is the `u32` little-endian length of its payload. */
  lemma RecordFraming(c: Consensus, h: Header)
    requires Lawful(c)
    ensures |Record(c, h)| == 4 + |c.serialize(h)|
    ensures U32FromLe(Record(c, h)[..4]) == |c.serialize(h)|
    ensures Record(c, h)[4..] == c.serialize(h)
  {
    var payload := c.serialize(h);
    assert Record(c, h)[..4] == U32ToLe(|payload|);
    U32FromToLe(|payload|);
  }

  /** Records of two batches are the records of the joined batch. */
  lemma {:induction false} RecordsConcat(c: Consensus, a: seq<Header>, b: seq<Header>)
    ensures Records(c, a + b) == Records(c, a) + Records(c, b)
  {
    if a == [] {
      assert a + b == b;
    } else {
      var ab := a + b;
      assert ab[0] == a[0] && ab[1..] == a[1..] + b;
      assert Records(c, ab) == Record(c, a[0]) + Records(c, a[1..] + b);
      RecordsConcat(c, a[1..], b);
      assert Records(c, a) == Record(c, a[0]) + Records(c, a[1..]);
    }
  }

  /** Appending one header to a batch appends its record to the batch's records. */
  lemma RecordsSnoc(c: Consensus, hs: seq<Header>, h: Header)
    ensures Records(c, hs + [h]) == Records(c, hs) + Record(c, h)
  {
    RecordsConcat(c, hs, [h]);
    assert Records(c, [h]) == Record(c, h) + [];
  }

  /** Replaying one well-formed record yields its header, then whatever follows. */
  lemma ReplayRecord(c: Consensus, h: Header, after: seq<Byte>, policy: FragmentPolicy)
    requires Lawful(c)
    ensures Replay(c, Record(c, h) + after, policy) == Prepend([h], Replay(c, after, policy))
  {
    var payload := c.serialize(h);
    var bs := Record(c, h) + after;
    assert |payload| < U32_LIMIT && c.deserialize(payload) == Some(h);
    RecordFraming(c, h);
    assert bs[..4] == Record(c, h)[..4];
    assert bs[4..4 + |payload|] == payload;
    assert bs[4 + |payload|..] == after;
  }

  /** Replaying past well-formed records yields their headers, whatever follows. */
  lemma {:induction false} ReplayAfterRecords(c: Consensus, hs: seq<Header>, rest: seq<Byte>, policy: FragmentPolicy)
    requires Lawful(c)
    ensures Replay(c, Records(c, hs) + rest, policy) == Prepend(hs, Replay(c, rest, policy))
  {
    if hs == [] {
      assert Records(c, hs) + rest == rest;
      PrependNothing(Replay(c, rest, policy));
    } else {
      var after := Records(c, hs[1..]) + rest;
      assert Records(c, hs) + rest == Record(c, hs[0]) + after;
      ReplayRecord(c, hs[0], after, policy);
      ReplayAfterRecords(c, hs[1..], rest, policy);
      PrependTwice([hs[0]], hs[1..], Replay(c, rest, policy));
      assert [hs[0]] + hs[1..] == hs;
    }
  }

  /** Round trip: the records of `hs` replay to `hs`, under either policy. */
  lemma ReplayRoundTrip(c: Consensus, hs: seq<Header>, policy: FragmentPolicy)
    requires Lawful(c)
    ensures Replay(c, Records(c, hs), policy) == Ok(hs)
  {
    ReplayAfterRecords(c, hs, [], policy);
    assert Records(c, hs) + [] == Records(c, hs);
    assert hs + [] == hs;
  }

  /**
   * A log that replays without a trailing fragment is a whole number of
   * records: whatever is written after it is replayed after its headers.
   */
  lemma {:induction false} ReplayConcat(c: Consensus, a: seq<Byte>, hs: seq<Header>, b: seq<Byte>, policy: FragmentPolicy)
    requires Replay(c, a, RejectFragment) == Ok(hs)
    ensures Replay(c, a + b, policy) == Prepend(hs, Replay(c, b, policy))
    decreases |a|
  {
    if |a| == 0 {
      assert a + b == b;
      match Replay(c, b, policy)
      case Ok(t) => assert hs + t == t;
      case Err(_) =>
    } else {
      var len := U32FromLe(a[..4]);
      var h := c.deserialize(a[4..4 + len]).value;
      var rest := a[4 + len..];
      var tail := Replay(c, rest, RejectFragment).value;
      assert hs == [h] + tail;
      assert (a + b)[..4] == a[..4];
      assert (a + b)[4..4 + len] == a[4..4 + len];
      assert (a + b)[4 + len..] == rest + b;
      assert Replay(c, a + b, policy) == Prepend([h], Replay(c, rest + b, policy));
      ReplayConcat(c, rest, tail, b, policy);
      PrependTwice([h], tail, Replay(c, b, policy));
    }
  }

  /** Where the strict replay succeeds, it agrees with the source's replay. */
  lemma {:induction false} StrictAgreesWithLenient(c: Consensus, bs: seq<Byte>)
    requires Replay(c, bs, RejectFragment).Ok?
    ensures Replay(c, bs, StopAtFragment) == Replay(c, bs, RejectFragment)
    decreases |bs|
  {
    if |bs| >= 4 {
      var len := U32FromLe(bs[..4]);
      StrictAgreesWithLenient(c, bs[4 + len..]);
    }
  }

  /**
   * Framing: a trailing fragment of 1 to 3 bytes after whole records ends the
   * source's replay cleanly with the headers read so far; the strict replay
   * calls it a truncated record.
   */
  lemma FragmentEndsReplay(c: Consensus, log: seq<Byte>, hs: seq<Header>, fragment: seq<Byte>)
    requires Replay(c, log, RejectFragment) == Ok(hs)
    requires 0 < |fragment| < 4
    ensures Replay(c, log + fragment, StopAtFragment) == Ok(hs)
    ensures Replay(c, log + fragment, RejectFragment) == Err(TruncatedRecord)
  {
    ReplayConcat(c, log, hs, fragment, StopAtFragment);
    ReplayConcat(c, log, hs, fragment, RejectFragment);
    assert hs + [] == hs;
  }

  /** Framing: a record whose payload is shorter than its prefix fails the replay. */
  lemma TruncatedPayloadFails(c: Consensus, hs: seq<Header>, len: U32, partial: seq<Byte>, policy: FragmentPolicy)
    requires Lawful(c)
    requires |partial| < len
    ensures Replay(c, Records(c, hs) + U32ToLe(len) + partial, policy) == Err(TruncatedRecord)
  {
    var tail := U32ToLe(len) + partial;
    assert Records(c, hs) + U32ToLe(len) + partial == Records(c, hs) + tail;
    ReplayAfterRecords(c, hs, tail, policy);
    assert tail[..4] == U32ToLe(len);
    U32FromToLe(len);
  }

  /** Framing: a complete record whose payload does not decode fails the replay. */
  lemma UndecodablePayloadFails(c: Consensus, hs: seq<Header>, payload: seq<Byte>, rest: seq<Byte>, policy: FragmentPolicy)
    requires Lawful(c)
    requires |payload| < U32_LIMIT && c.deserialize(payload) == None
    ensures Replay(c, Records(c, hs) + U32ToLe(|payload|) + payload + rest, policy) == Err(UndecodablePayload)
  {
    var tail := U32ToLe(|payload|) + payload + rest;
    assert Records(c, hs) + U32ToLe(|payload|) + payload + rest == Records(c, hs) + tail;
    ReplayAfterRecords(c, hs, tail, policy);
    assert tail[..4] == U32ToLe(|payload|);
    U32FromToLe(|payload|);
    assert tail[4..4 + |payload|] == payload;
  }

  /**
   * The log mirror is kept by appending: a log that replays strictly to `hs`,
   * extended by the records of `xs`, replays strictly to `hs + xs`.
   */
  lemma AppendKeepsReplay(c: Consensus, log: seq<Byte>, hs: seq<Header>, xs: seq<Header>)
    requires Lawful(c)
    requires Replay(c, log, RejectFragment) == Ok(hs)
    ensures Replay(c, log + Records(c, xs), RejectFragment) == Ok(hs + xs)
    ensures Replay(c, log + Records(c, xs), StopAtFragment) == Ok(hs + xs)
  {
    ReplayConcat(c, log, hs, Records(c, xs), RejectFragment);
    ReplayRoundTrip(c, xs, RejectFragment);
    StrictAgreesWithLenient(c, log + Records(c, xs));
  }

  /**
   * As written, `open` accepts a log that ends in a one-byte fragment, and
   * `append` writes the next record after that byte: the log then no longer
   * replays, since the fragment and the first three bytes of the new length
   * prefix are read as one length.
   */
  lemma FragmentBreaksReplay(c: Consensus, h0: Header, h1: Header)
    requires Lawful(c)
    requires 0 < |c.serialize(h1)| < Pow256(3)
    ensures Replay(c, Records(c, [h0]) + [0], StopAtFragment) == Ok([h0])
    ensures Replay(c, Records(c, [h0]) + [0] + Records(c, [h1]), StopAtFragment) == Err(TruncatedRecord)
  {
    var first := Records(c, [h0]);
    ReplayRoundTrip(c, [h0], RejectFragment);
    FragmentEndsReplay(c, first, [h0], [0]);
    var n := |c.serialize(h1)|;
    var tail := [0] + Records(c, [h1]);
    assert Records(c, [h1]) == Record(c, h1) + [];
    RecordFraming(c, h1);
    assert first + [0] + Records(c, [h1]) == first + tail;
    ReplayAfterRecords(c, [h0], tail, StopAtFragment);
    // The misaligned length prefix: the fragment byte, then three bytes of ToLe(n, 4).
    assert tail[..4] == [0] + ToLe(n, 4)[..3];
    ToLePrefix(n, 3);
    FromToLe(n, 3);
    assert FromLe(tail[..4]) == 0x100 * n by {
      assert tail[..4][1..] == ToLe(n, 3);
    }
    assert |tail| - 4 == n + 1;
  }
}
