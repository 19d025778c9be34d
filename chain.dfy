/**
 * The admission rule of `append`: a candidate must connect to the current
 * tip when there is one, and must carry valid proof of work. Candidates of a
 * batch are admitted in order until the first that fails.
 */
module Chain {
  import opened Wrappers
  import opened Errors
  import opened Bitcoin

  /**
   * `candidate` connects to `chain`: the chain is empty, or its tip is the
   * candidate's parent, so on an empty chain every candidate connects.
   */
  predicate Connects(c: Consensus, chain: seq<Header>, candidate: Header)
    ensures chain == [] ==> Connects(c, chain, candidate)
  {
    chain == [] || candidate.prevBlockhash == c.blockHash(chain[|chain| - 1])
  }

  /** Every header after the first names its predecessor's hash. */
  predicate Linked(c: Consensus, hs: seq<Header>)
  {
    forall i :: 0 < i < |hs| ==> hs[i].prevBlockhash == c.blockHash(hs[i - 1])
  }

  /**
   * Why `candidate` may not follow `chain`, checked in the source's order:
   * connection to the tip first, then proof of work; None admits it.
   */
  function Rejection(c: Consensus, chain: seq<Header>, candidate: Header): (r: Option<Error>)
    ensures r.None? <==> Connects(c, chain, candidate) && c.validatePow(candidate)
    ensures r == Some(DoesNotConnect) <==> !Connects(c, chain, candidate)
    ensures r == Some(InvalidProofOfWork) <==> Connects(c, chain, candidate) && !c.validatePow(candidate)
  {
    if !Connects(c, chain, candidate) then Some(DoesNotConnect)
    else if !c.validatePow(candidate) then Some(InvalidProofOfWork)
    else None
  }

  /** How many leading candidates of `batch` are admitted, each onto the chain grown by the ones before. */
  function AcceptedPrefix(c: Consensus, chain: seq<Header>, batch: seq<Header>): (k: nat)
    ensures k <= |batch|
    decreases |batch|
  {
    if batch == [] || Rejection(c, chain, batch[0]).Some? then 0
    else 1 + AcceptedPrefix(c, chain + [batch[0]], batch[1..])
  }

  /**
   * The accepted prefix ends at the first rejected candidate: every earlier
   * candidate passes against the chain grown by its predecessors, and the
   * candidate at the end of the prefix, if any, fails.
   */
  lemma {:induction false} AcceptedPrefixIsFirstRejection(c: Consensus, chain: seq<Header>, batch: seq<Header>)
    ensures var k := AcceptedPrefix(c, chain, batch);
      (forall i :: 0 <= i < k ==> Rejection(c, chain + batch[..i], batch[i]).None?) &&
      (k < |batch| ==> Rejection(c, chain + batch[..k], batch[k]).Some?)
    decreases |batch|
  {
    var k := AcceptedPrefix(c, chain, batch);
    assert chain + batch[..0] == chain;
    if batch != [] && Rejection(c, chain, batch[0]).None? {
      var grown, rest := chain + [batch[0]], batch[1..];
      AcceptedPrefixIsFirstRejection(c, grown, rest);
      assert k == 1 + AcceptedPrefix(c, grown, rest);
      forall i | 1 <= i <= k && i < |batch|
        ensures Rejection(c, chain + batch[..i], batch[i]) == Rejection(c, grown + rest[..i - 1], rest[i - 1])
      {
        GrowPrefix(chain, batch, i);
      }
    }
  }

  /** Growing the chain by the first candidate shifts the batch by one. */
  lemma GrowPrefix(chain: seq<Header>, batch: seq<Header>, i: nat)
    requires 1 <= i <= |batch|
    ensures chain + batch[..i] == (chain + [batch[0]]) + batch[1..][..i - 1]
  {
  }

  /** The verdict `append` returns for `batch` on `chain`: the error of the first rejected candidate. */
  function AppendOutcome(c: Consensus, chain: seq<Header>, batch: seq<Header>): (r: Result<(), Error>)
    ensures r.Ok? <==> AcceptedPrefix(c, chain, batch) == |batch|
  {
    var k := AcceptedPrefix(c, chain, batch);
    AcceptedPrefixIsFirstRejection(c, chain, batch);
    if k == |batch| then Ok(()) else Err(Rejection(c, chain + batch[..k], batch[k]).value)
  }

  /** Every admitted candidate carries valid proof of work. */
  lemma AcceptedHaveValidPow(c: Consensus, chain: seq<Header>, batch: seq<Header>)
    ensures forall i :: 0 <= i < AcceptedPrefix(c, chain, batch) ==> c.validatePow(batch[i])
  {
    AcceptedPrefixIsFirstRejection(c, chain, batch);
  }

  /** Admitting the accepted prefix keeps a linked chain linked. */
  lemma AppendKeepsLinked(c: Consensus, chain: seq<Header>, batch: seq<Header>)
    requires Linked(c, chain)
    ensures Linked(c, chain + batch[..AcceptedPrefix(c, chain, batch)])
  {
    var k := AcceptedPrefix(c, chain, batch);
    AcceptedPrefixIsFirstRejection(c, chain, batch);
    var grown := chain + batch[..k];
    forall i | 0 < i < |grown|
      ensures grown[i].prevBlockhash == c.blockHash(grown[i - 1])
    {
      if i >= |chain| {
        var j := i - |chain|;
        assert Rejection(c, chain + batch[..j], batch[j]).None?;
        assert grown[i] == batch[j];
        assert (chain + batch[..j])[|chain + batch[..j]| - 1] == grown[i - 1];
      }
    }
  }

  /** On a non-empty chain, a first candidate that does not name the tip is refused, and nothing is admitted. */
  lemma DisconnectedCandidateRejected(c: Consensus, chain: seq<Header>, batch: seq<Header>)
    requires chain != [] && batch != []
    requires batch[0].prevBlockhash != c.blockHash(chain[|chain| - 1])
    ensures AcceptedPrefix(c, chain, batch) == 0
    ensures AppendOutcome(c, chain, batch) == Err(DoesNotConnect)
  {
  }

  /** A connecting first candidate without valid proof of work is refused, and nothing is admitted. */
  lemma InvalidPowRejected(c: Consensus, chain: seq<Header>, batch: seq<Header>)
    requires batch != [] && Connects(c, chain, batch[0])
    requires !c.validatePow(batch[0])
    ensures AcceptedPrefix(c, chain, batch) == 0
    ensures AppendOutcome(c, chain, batch) == Err(InvalidProofOfWork)
  {
  }

  /** On an empty chain the first candidate is not checked for connectivity, only for proof of work. */
  lemma FirstCandidateOnEmptyChain(c: Consensus, batch: seq<Header>)
    requires batch != []
    ensures AcceptedPrefix(c, [], batch) >= 1 <==> c.validatePow(batch[0])
  {
  }

  /**
   * One step of admitting a batch: a candidate inside the accepted prefix
   * passes, and the candidate right after the prefix fails.
   */
  lemma PrefixStep(c: Consensus, chain: seq<Header>, batch: seq<Header>, i: nat)
    requires i <= AcceptedPrefix(c, chain, batch) && i < |batch|
    ensures i < AcceptedPrefix(c, chain, batch) <==> Rejection(c, chain + batch[..i], batch[i]).None?
  {
    AcceptedPrefixIsFirstRejection(c, chain, batch);
  }

  /** Where admission stops, the accepted prefix ends and the outcome is decided. */
  lemma PrefixEnd(c: Consensus, chain: seq<Header>, batch: seq<Header>, i: nat)
    requires i <= AcceptedPrefix(c, chain, batch)
    requires i == |batch| || Rejection(c, chain + batch[..i], batch[i]).Some?
    ensures AcceptedPrefix(c, chain, batch) == i
    ensures AppendOutcome(c, chain, batch) ==
      if i == |batch| then Ok(()) else Err(Rejection(c, chain + batch[..i], batch[i]).value)
  {
    AcceptedPrefixIsFirstRejection(c, chain, batch);
  }

  /**
   * A two-candidate batch whose second candidate lacks valid proof of work
   * commits exactly the first: there is no batch-level rollback.
   */
  lemma PartialBatchCommitsPrefix(c: Consensus, chain: seq<Header>, good: Header, bad: Header)
    requires Rejection(c, chain, good).None?
    requires Connects(c, chain + [good], bad) && !c.validatePow(bad)
    ensures AcceptedPrefix(c, chain, [good, bad]) == 1
    ensures AppendOutcome(c, chain, [good, bad]) == Err(InvalidProofOfWork)
  {
  }
}
