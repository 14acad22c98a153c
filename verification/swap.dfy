/** Confidential two-party swaps: Alice and Bob each commit to an asset value
    under one shared set of Pedersen generators, and the swap may then store a
    commitment to, and a range proof about, how far the actual exchange rate is
    from the agreed one, provided that distance is within a tolerance.

    As in `Confidential`, a `&mut self` method is a pure function returning the
    new state with its result, and a `&self` query returns only its result. */
module Swap {
  import opened Wrappers
  import opened Crypto

  /** `SwapError`, plus `DivisionByZero`: `prove_exchange_rate` divides by
      Alice's asset value unguarded, so the Rust code panics when it is zero; the
      model reports it as an error. */
  datatype SwapError =
    | ExchangeRateExceedThreshold(actualRate: u64, expectedRate: u64, maxAllowedDiff: u64)
    | ProofCreationError(cause: ProofError)
    | DivisionByZero

  datatype SwapParticipant = SwapParticipant(
    name: string,
    assetValue: u64,
    blindingFactor: Scalar,
    commitment: CompressedRistretto)

  datatype ConfidentialSwap = ConfidentialSwap(
    pcGens: PedersenGens,
    bpGens: BulletproofGens,
    alice: SwapParticipant,
    bob: SwapParticipant,
    exchangeRateCommitment: Option<CompressedRistretto>,
    exchangeRateProof: Option<RangeProof>)

  /** The participant's commitment opens to its asset value and blinding under `pc`. */
  ghost predicate Opens(e: Engine, pc: PedersenGens, p: SwapParticipant)
  {
    p.commitment == CommitU64(e, pc, p.assetValue, p.blindingFactor)
  }

  /** The swap invariant: both participants are committed under the swap's one
      shared set of Pedersen generators, which are the default ones, and a stored
      rate proof always comes with a stored rate commitment. */
  ghost predicate Valid(e: Engine, s: ConfidentialSwap)
  {
    && s.pcGens == e.pedersenDefault
    && Opens(e, s.pcGens, s.alice)
    && Opens(e, s.pcGens, s.bob)
    && (s.exchangeRateProof.Some? ==> s.exchangeRateCommitment.Some?)
  }

  /** `SwapParticipant::new(name, asset_value, pc_gens)`; `blindingFactor` is the
      scalar the random source supplies. */
  function NewParticipant(e: Engine, name: string, assetValue: u64, pcGens: PedersenGens, blindingFactor: Scalar): (p: SwapParticipant)
    ensures p.name == name && p.assetValue == assetValue
    ensures p.blindingFactor == blindingFactor
    ensures Opens(e, pcGens, p)
  {
    SwapParticipant(name, assetValue, blindingFactor, CommitU64(e, pcGens, assetValue, blindingFactor))
  }

  /** `ConfidentialSwap::new(alice_asset, bob_asset, proof_bits)`; the two
      blindings are the scalars the random source supplies, Alice's first. */
  function New(e: Engine, aliceAsset: u64, bobAsset: u64, proofBits: usize, aliceBlinding: Scalar, bobBlinding: Scalar): (s: ConfidentialSwap)
    ensures s.alice.name == "Alice" && s.bob.name == "Bob"
    ensures s.alice.assetValue == aliceAsset && s.bob.assetValue == bobAsset
    ensures s.alice.blindingFactor == aliceBlinding && s.bob.blindingFactor == bobBlinding
    ensures s.bpGens == BulletproofGens(proofBits, 1)
    ensures s.exchangeRateCommitment == None && s.exchangeRateProof == None
    ensures Valid(e, s)
  {
    var pcGens := e.pedersenDefault;
    ConfidentialSwap(
      pcGens,
      BulletproofGens(proofBits, 1),
      NewParticipant(e, "Alice", aliceAsset, pcGens, aliceBlinding),
      NewParticipant(e, "Bob", bobAsset, pcGens, bobBlinding),
      None,
      None)
  }

  /** The actual exchange rate `bob / alice`, rounded down; an explicit error
      where the Rust code would divide by zero. */
  function ActualRate(aliceAsset: u64, bobAsset: u64): (r: Result<u64, SwapError>)
    ensures aliceAsset == 0 <==> r.Err?
    ensures r.Err? ==> r.error == DivisionByZero
    ensures r.Ok? ==> r.value * aliceAsset <= bobAsset < (r.value + 1) * aliceAsset
  {
    if aliceAsset == 0 then Err(DivisionByZero) else Ok(bobAsset / aliceAsset)
  }

  function Min(a: int, b: int): int { if a <= b then a else b }
  function Max(a: int, b: int): int { if a <= b then b else a }

  /** The distance between the actual and the expected rate, computed in `u64`
      as `prove_exchange_rate` does: each branch subtracts the smaller from the larger, so
      neither can underflow. */
  function RateDiff(actualRate: u64, expectedRate: u64): (d: u64)
    ensures Min(actualRate, expectedRate) + d == Max(actualRate, expectedRate)
  {
    if actualRate > expectedRate then actualRate - expectedRate else expectedRate - actualRate
  }

  /** The rate is rejected: Alice's asset value is non-zero and the distance from
      the floor of `bob / alice` to the expected rate is above the tolerance. */
  ghost predicate ExceedsThreshold(s: ConfidentialSwap, expectedRate: u64, maxAllowedDiff: u64)
  {
    s.alice.assetValue != 0 &&
    var actual := s.bob.assetValue / s.alice.assetValue;
    Max(actual, expectedRate) - Min(actual, expectedRate) > maxAllowedDiff
  }

  /** `prove_exchange_rate(expected_rate, proof_bits, max_allowed_diff)`;
      `blindingFactor` is the scalar the random source supplies once the rate has
      passed the threshold check. The steps, in the order `prove_exchange_rate`
      takes them: compute the rate and its
      distance from the expected rate; reject above the tolerance; store the
      commitment to the distance; ask the prover for a proof about the same
      distance and blinding; store the proof and return it. */
  function ProveExchangeRate(e: Engine, s: ConfidentialSwap, expectedRate: u64, proofBits: usize, maxAllowedDiff: u64, blindingFactor: Scalar)
    : (r: (ConfidentialSwap, Result<RangeProof, SwapError>))
    // the participants and generators never change
    ensures r.0 == s.(exchangeRateCommitment := r.0.exchangeRateCommitment, exchangeRateProof := r.0.exchangeRateProof)
    // no division by zero: explicit error, nothing written
    ensures s.alice.assetValue == 0 ==> r == (s, Err(DivisionByZero))
    // threshold rejection carries the offending values and writes nothing
    ensures ExceedsThreshold(s, expectedRate, maxAllowedDiff) ==>
      r == (s, Err(ExchangeRateExceedThreshold(s.bob.assetValue / s.alice.assetValue, expectedRate, maxAllowedDiff)))
    // an accepted rate: commitment to the distance is stored, and the prover is asked about the same pair
    ensures s.alice.assetValue != 0 && !ExceedsThreshold(s, expectedRate, maxAllowedDiff) ==>
      var diff := RateDiff(s.bob.assetValue / s.alice.assetValue, expectedRate);
      var request := e.proveSingle(s.bpGens, s.pcGens, diff, blindingFactor, proofBits);
      && r.0.exchangeRateCommitment == Some(CommitU64(e, s.pcGens, diff, blindingFactor))
      && (request.Ok? ==> r.1 == Ok(request.value.0) && r.0.exchangeRateProof == Some(request.value.0))
      && (request.Err? ==> r.1 == Err(ProofCreationError(request.error)) && r.0.exchangeRateProof == s.exchangeRateProof)
    ensures Valid(e, s) ==> Valid(e, r.0)
  {
    match ActualRate(s.alice.assetValue, s.bob.assetValue)
    case Err(err) => (s, Err(err))
    case Ok(actualRate) =>
      var rateDiff := RateDiff(actualRate, expectedRate);
      if rateDiff > maxAllowedDiff then
        (s, Err(ExchangeRateExceedThreshold(actualRate, expectedRate, maxAllowedDiff)))
      else
        var committed := s.(exchangeRateCommitment := Some(CommitU64(e, s.pcGens, rateDiff, blindingFactor)));
        match e.proveSingle(s.bpGens, s.pcGens, rateDiff, blindingFactor, proofBits)
        case Err(err) => (committed, Err(ProofCreationError(err)))
        case Ok((proof, _)) => (committed.(exchangeRateProof := Some(proof)), Ok(proof))
  }

  /** `verify_exchange_rate(proof_bits)`: `VerificationError` unless both a rate
      commitment and a rate proof are stored; otherwise the verifier checks the
      stored proof against the stored commitment at the caller's bit width. */
  function VerifyExchangeRate(e: Engine, s: ConfidentialSwap, proofBits: usize): (r: Result<(), ProofError>)
    ensures s.exchangeRateCommitment.None? || s.exchangeRateProof.None? ==> r == Err(VerificationError)
    ensures s.exchangeRateCommitment.Some? && s.exchangeRateProof.Some? ==>
      r == e.verifySingle(s.exchangeRateProof.value, s.bpGens, s.pcGens, s.exchangeRateCommitment.value, proofBits)
  {
    match (s.exchangeRateCommitment, s.exchangeRateProof)
    case (Some(commitment), Some(proof)) => e.verifySingle(proof, s.bpGens, s.pcGens, commitment, proofBits)
    case _ => Err(VerificationError)
  }

  /** Absolute distance is symmetric, and zero exactly when the rates agree. */
  lemma RateDiffSymmetric(a: u64, b: u64)
    ensures RateDiff(a, b) == RateDiff(b, a)
    ensures RateDiff(a, b) == 0 <==> a == b
  {
  }

  /** `prove_exchange_rate` succeeds exactly when Alice's asset value is non-zero,
      the rate is within the tolerance, and the prover succeeds on the distance. */
  lemma ProveSucceedsIff(e: Engine, s: ConfidentialSwap, expectedRate: u64, proofBits: usize, maxAllowedDiff: u64, blindingFactor: Scalar)
    ensures ProveExchangeRate(e, s, expectedRate, proofBits, maxAllowedDiff, blindingFactor).1.Ok? <==>
      && s.alice.assetValue != 0
      && !ExceedsThreshold(s, expectedRate, maxAllowedDiff)
      && e.proveSingle(s.bpGens, s.pcGens, RateDiff(s.bob.assetValue / s.alice.assetValue, expectedRate), blindingFactor, proofBits).Ok?
  {
  }

  /** The stored rate commitment and the stored rate proof were built from the same
      (distance, blinding) pair at bit width n. */
  ghost predicate RatePairFrom(e: Engine, s: ConfidentialSwap, diff: u64, blindingFactor: Scalar, n: usize)
  {
    var request := e.proveSingle(s.bpGens, s.pcGens, diff, blindingFactor, n);
    && s.exchangeRateCommitment == Some(CommitU64(e, s.pcGens, diff, blindingFactor))
    && request.Ok?
    && s.exchangeRateProof == Some(request.value.0)
  }

  /** After a successful `prove_exchange_rate` the stored commitment and proof
      are about the same rate distance and blinding; for a prover that reports
      the commitment it proves for, that is the stored commitment. */
  lemma AcceptedRateIsPaired(e: Engine, s: ConfidentialSwap, expectedRate: u64, proofBits: usize, maxAllowedDiff: u64, blindingFactor: Scalar)
    requires ProveExchangeRate(e, s, expectedRate, proofBits, maxAllowedDiff, blindingFactor).1.Ok?
    ensures s.alice.assetValue != 0
    ensures
      var diff := RateDiff(s.bob.assetValue / s.alice.assetValue, expectedRate);
      var after := ProveExchangeRate(e, s, expectedRate, proofBits, maxAllowedDiff, blindingFactor).0;
      && diff <= maxAllowedDiff
      && RatePairFrom(e, after, diff, blindingFactor, proofBits)
      && (ReportsOwnCommitment(e) ==>
            e.proveSingle(s.bpGens, s.pcGens, diff, blindingFactor, proofBits).value.1 == after.exchangeRateCommitment.value)
  {
  }

  /** The rate state is either empty, or its commitment and its proof were built
      from one (distance, blinding) pair: the proof is tied to the commitment. */
  ghost predicate Paired(e: Engine, s: ConfidentialSwap)
  {
    || (s.exchangeRateCommitment.None? && s.exchangeRateProof.None?)
    || exists diff: u64, blindingFactor: Scalar, n: usize :: RatePairFrom(e, s, diff, blindingFactor, n)
  }

  /** `prove_exchange_rate` returns `ProofCreationError` on `s` for this call:
      the rate passes the threshold check and the prover then fails. */
  ghost predicate ProverFails(e: Engine, s: ConfidentialSwap, expectedRate: u64, proofBits: usize, maxAllowedDiff: u64, blindingFactor: Scalar)
  {
    && s.alice.assetValue != 0
    && !ExceedsThreshold(s, expectedRate, maxAllowedDiff)
    && e.proveSingle(s.bpGens, s.pcGens, RateDiff(s.bob.assetValue / s.alice.assetValue, expectedRate), blindingFactor, proofBits).Err?
  }

  /** Every `prove_exchange_rate` whose prover does not fail keeps the rate
      commitment and the rate proof paired: a rejection or a division error
      writes nothing, and a success writes a fresh pair. A prover failure is
      exactly the case that returns `ProofCreationError`. */
  lemma ProveKeepsPaired(e: Engine, s: ConfidentialSwap, expectedRate: u64, proofBits: usize, maxAllowedDiff: u64, blindingFactor: Scalar)
    ensures
      var r := ProveExchangeRate(e, s, expectedRate, proofBits, maxAllowedDiff, blindingFactor);
      && (r.1.Err? && r.1.error.ProofCreationError? <==> ProverFails(e, s, expectedRate, proofBits, maxAllowedDiff, blindingFactor))
      && (Paired(e, s) && !ProverFails(e, s, expectedRate, proofBits, maxAllowedDiff, blindingFactor) ==> Paired(e, r.0))
  {
    var r := ProveExchangeRate(e, s, expectedRate, proofBits, maxAllowedDiff, blindingFactor);
    if r.1.Ok? {
      AcceptedRateIsPaired(e, s, expectedRate, proofBits, maxAllowedDiff, blindingFactor);
      var diff := RateDiff(s.bob.assetValue / s.alice.assetValue, expectedRate);
      assert RatePairFrom(e, r.0, diff, blindingFactor, proofBits);
    }
  }

  /** A prover failure after a success leaves the commitment to the new distance
      beside the proof about the old one, because `prove_exchange_rate` writes the
      commitment before it asks for the proof. Shown on an engine whose proofs
      and commitments record the blinding and whose prover accepts only 8 bits:
      Alice 2 and Bob 4 are proved at 8 bits with blinding 1, then at 16 bits
      with blinding 2. */
  lemma ProverFailureBreaksPairing()
    ensures
      var e := Engine(
        PedersenGens(CompressedRistretto([]), CompressedRistretto([])),
        (pc: PedersenGens, v: Scalar, r: Scalar) => CompressedRistretto(if r == 1 then [1] else [2]),
        (bp: BulletproofGens, pc: PedersenGens, v: u64, r: Scalar, n: usize) =>
          if n == 8 then Ok((RangeProof(if r == 1 then [1] else [2]), CompressedRistretto([]))) else Err(InvalidBitsize),
        (p: RangeProof, bp: BulletproofGens, pc: PedersenGens, c: CompressedRistretto, n: usize) => Ok(()));
      var swap := New(e, 2, 4, 8, 0, 0);
      var first := ProveExchangeRate(e, swap, 2, 8, 0, 1);
      var second := ProveExchangeRate(e, first.0, 2, 16, 0, 2);
      && first.1.Ok? && Paired(e, first.0)
      && second.1 == Err(ProofCreationError(InvalidBitsize))
      && !Paired(e, second.0)
  {
    var e := Engine(
      PedersenGens(CompressedRistretto([]), CompressedRistretto([])),
      (pc: PedersenGens, v: Scalar, r: Scalar) => CompressedRistretto(if r == 1 then [1] else [2]),
      (bp: BulletproofGens, pc: PedersenGens, v: u64, r: Scalar, n: usize) =>
        if n == 8 then Ok((RangeProof(if r == 1 then [1] else [2]), CompressedRistretto([]))) else Err(InvalidBitsize),
      (p: RangeProof, bp: BulletproofGens, pc: PedersenGens, c: CompressedRistretto, n: usize) => Ok(()));
    var swap := New(e, 2, 4, 8, 0, 0);
    assert !ExceedsThreshold(swap, 2, 0);
    var first := ProveExchangeRate(e, swap, 2, 8, 0, 1);
    assert RatePairFrom(e, first.0, 0, 1, 8);
    var second := ProveExchangeRate(e, first.0, 2, 16, 0, 2);
    assert second.0.exchangeRateCommitment == Some(CompressedRistretto([2]));
    assert second.0.exchangeRateProof == Some(RangeProof([1]));
    forall diff: u64, blindingFactor: Scalar, n: usize
      ensures !RatePairFrom(e, second.0, diff, blindingFactor, n)
    {
      if RatePairFrom(e, second.0, diff, blindingFactor, n) {
        assert false;
      }
    }
  }

  /** A successful `prove_exchange_rate` followed by `verify_exchange_rate` at the
      same bit width succeeds, for a complete engine. */
  lemma ProveThenVerify(e: Engine, s: ConfidentialSwap, expectedRate: u64, proofBits: usize, maxAllowedDiff: u64, blindingFactor: Scalar)
    requires VerifiesOwnProofs(e)
    requires ProveExchangeRate(e, s, expectedRate, proofBits, maxAllowedDiff, blindingFactor).1.Ok?
    ensures VerifyExchangeRate(e, ProveExchangeRate(e, s, expectedRate, proofBits, maxAllowedDiff, blindingFactor).0, proofBits) == Ok(())
  {
    AcceptedRateIsPaired(e, s, expectedRate, proofBits, maxAllowedDiff, blindingFactor);
  }

  /** A rejected rate on a swap with no rate state leaves it without one, so a
      later verification fails. */
  lemma RejectedThenVerifyFails(e: Engine, s: ConfidentialSwap, expectedRate: u64, proofBits: usize, maxAllowedDiff: u64, blindingFactor: Scalar, n: usize)
    requires s.exchangeRateCommitment.None? && s.exchangeRateProof.None?
    requires ExceedsThreshold(s, expectedRate, maxAllowedDiff)
    ensures VerifyExchangeRate(e, ProveExchangeRate(e, s, expectedRate, proofBits, maxAllowedDiff, blindingFactor).0, n) == Err(VerificationError)
  {
  }

  /** A call a client can make on a swap; `blindingFactor` is what the random
      source would supply to that call. */
  datatype Call =
    | ProveExchangeRateCall(expectedRate: u64, proofBits: usize, maxAllowedDiff: u64, blindingFactor: Scalar)
    | VerifyExchangeRateCall(proofBits: usize)

  /** The state after one call; verification leaves it unchanged. */
  function Step(e: Engine, s: ConfidentialSwap, c: Call): ConfidentialSwap
  {
    match c
    case ProveExchangeRateCall(rate, n, max, r) => ProveExchangeRate(e, s, rate, n, max, r).0
    case VerifyExchangeRateCall(_) => s
  }

  /** The call is a `prove_exchange_rate` whose prover fails on `s`; the answer
      depends only on the participants and generators, which no call changes. */
  ghost predicate CallFails(e: Engine, s: ConfidentialSwap, c: Call)
  {
    c.ProveExchangeRateCall? && ProverFails(e, s, c.expectedRate, c.proofBits, c.maxAllowedDiff, c.blindingFactor)
  }

  /** The state after a sequence of calls. Whatever the calls: the participants and
      generators never change; the swap invariant is kept; the rate state changes
      only if some call tried to prove a rate; when every proving call is
      rejected by the threshold the rate state is exactly as it was; and when no
      prover call fails the rate commitment and proof stay paired. */
  function Run(e: Engine, s: ConfidentialSwap, calls: seq<Call>): (r: ConfidentialSwap)
    ensures r == s.(exchangeRateCommitment := r.exchangeRateCommitment, exchangeRateProof := r.exchangeRateProof)
    ensures Valid(e, s) ==> Valid(e, r)
    ensures r != s ==> exists i :: 0 <= i < |calls| && calls[i].ProveExchangeRateCall?
    ensures (forall i :: 0 <= i < |calls| && calls[i].ProveExchangeRateCall? ==>
               ExceedsThreshold(s, calls[i].expectedRate, calls[i].maxAllowedDiff)) ==> r == s
    ensures Paired(e, s) && (forall i :: 0 <= i < |calls| ==> !CallFails(e, s, calls[i])) ==> Paired(e, r)
    decreases |calls|
  {
    if calls == [] then s
    else
      var before := Run(e, s, calls[..|calls| - 1]);
      var c := calls[|calls| - 1];
      if c.ProveExchangeRateCall? then
        ProveKeepsPaired(e, before, c.expectedRate, c.proofBits, c.maxAllowedDiff, c.blindingFactor);
        Step(e, before, c)
      else
        Step(e, before, c)
  }
}
