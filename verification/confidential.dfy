/** Confidential transactions: one committed secret value with a proof state that
    is either absent (Committed) or present (Proven).

    Each operation is a pure transition. A `&mut self` method returns the new state
    together with its result, and a `&self` query returns only its result, so a
    query is read-only and gives the same answer every time it is asked. */
module Confidential {
  import opened Wrappers
  import opened Crypto

  datatype ConfidentialTransactions = ConfidentialTransactions(
    pcGens: PedersenGens,
    bpGens: BulletproofGens,
    secretValue: u64,
    blinding: Scalar,
    commitment: CompressedRistretto,
    proof: Option<RangeProof>)

  /** The request `generate_proof(n)` puts to the prover: the stored value and the
      stored blinding, under the stored generators. */
  function ProofRequest(e: Engine, tx: ConfidentialTransactions, n: usize): Result<(RangeProof, CompressedRistretto), ProofError>
  {
    e.proveSingle(tx.bpGens, tx.pcGens, tx.secretValue, tx.blinding, n)
  }

  /** The stored proof is the prover's answer to the request for bit width n. */
  ghost predicate ProofFromSecret(e: Engine, tx: ConfidentialTransactions, n: usize)
  {
    ProofRequest(e, tx, n).Ok? && tx.proof == Some(ProofRequest(e, tx, n).value.0)
  }

  /** The lifecycle invariant: the public commitment opens to the stored value
      and blinding under the default Pedersen generators, the Bulletproofs
      generators serve one party, and a stored proof (if any) was produced from
      that same (value, blinding) pair. */
  ghost predicate Valid(e: Engine, tx: ConfidentialTransactions)
  {
    && tx.pcGens == e.pedersenDefault
    && tx.bpGens.partyCapacity == 1
    && tx.commitment == CommitU64(e, tx.pcGens, tx.secretValue, tx.blinding)
    && (tx.proof.Some? ==> exists n: usize :: ProofFromSecret(e, tx, n))
  }

  /** `ConfidentialTransactions::new(value, proof_bits)`; `randomBlinding` is the
      scalar the random source supplies. */
  function New(e: Engine, value: u64, proofBits: usize, randomBlinding: Scalar): (tx: ConfidentialTransactions)
    ensures tx.proof == None
    ensures tx.secretValue == value && tx.blinding == randomBlinding
    ensures tx.bpGens == BulletproofGens(proofBits, 1)
    ensures Valid(e, tx)
  {
    var pcGens := e.pedersenDefault;
    ConfidentialTransactions(
      pcGens,
      BulletproofGens(proofBits, 1),
      value,
      randomBlinding,
      CommitU64(e, pcGens, value, randomBlinding),
      None)
  }

  /** `generate_proof(proof_bits)`: asks the prover for a proof about the stored
      value and blinding, stores it (overwriting any earlier one) and returns it.
      Only the proof field can change. When the prover fails the state is left
      as it was and the prover's error is returned. */
  function GenerateProof(e: Engine, tx: ConfidentialTransactions, proofBits: usize): (r: (ConfidentialTransactions, Result<RangeProof, ProofError>))
    ensures r.0 == tx.(proof := r.0.proof)
    ensures r.1.Ok? <==> ProofRequest(e, tx, proofBits).Ok?
    ensures r.1.Ok? ==> r.0.proof == Some(r.1.value) && ProofFromSecret(e, r.0, proofBits)
    ensures r.1.Err? ==> r.0 == tx && r.1.error == ProofRequest(e, tx, proofBits).error
    ensures Valid(e, tx) ==> Valid(e, r.0)
  {
    match ProofRequest(e, tx, proofBits)
    case Err(err) => (tx, Err(err))
    case Ok((proof, _)) =>
      var proven := tx.(proof := Some(proof));
      assert ProofRequest(e, proven, proofBits) == ProofRequest(e, tx, proofBits);
      assert ProofFromSecret(e, proven, proofBits);
      (proven, Ok(proof))
  }

  /** `verify_proof(proof_bits)`: with no stored proof the answer is
      `VerificationError`; otherwise the verifier checks the stored proof against
      the stored commitment at the caller's bit width. */
  function VerifyProof(e: Engine, tx: ConfidentialTransactions, proofBits: usize): (r: Result<(), ProofError>)
    ensures tx.proof.None? ==> r == Err(VerificationError)
    ensures tx.proof.Some? ==> r == e.verifySingle(tx.proof.value, tx.bpGens, tx.pcGens, tx.commitment, proofBits)
  {
    match tx.proof
    case None => Err(VerificationError)
    case Some(proof) => e.verifySingle(proof, tx.bpGens, tx.pcGens, tx.commitment, proofBits)
  }

  /** `get_blinding()`: the secret blinding factor. */
  function GetBlinding(tx: ConfidentialTransactions): Scalar
  {
    tx.blinding
  }

  /** The blinding `get_blinding` exposes is exactly the one the public
      commitment was made with: together with the value it opens the commitment. */
  lemma BlindingOpensCommitment(e: Engine, tx: ConfidentialTransactions)
    requires Valid(e, tx)
    ensures CommitU64(e, tx.pcGens, tx.secretValue, GetBlinding(tx)) == tx.commitment
  {
  }

  /** A freshly created transaction has no proof, so verification fails. */
  lemma VerifyBeforeGenerateFails(e: Engine, value: u64, proofBits: usize, randomBlinding: Scalar, n: usize)
    ensures VerifyProof(e, New(e, value, proofBits, randomBlinding), n) == Err(VerificationError)
  {
  }

  /** The proof request and the stored commitment use the same (value, blinding)
      pair: for a prover that reports the commitment it proves for, that
      commitment is the transaction's public commitment. */
  lemma ProofRequestMatchesCommitment(e: Engine, tx: ConfidentialTransactions, n: usize)
    requires Valid(e, tx) && ReportsOwnCommitment(e)
    requires ProofRequest(e, tx, n).Ok?
    ensures ProofRequest(e, tx, n).value.1 == tx.commitment
  {
  }

  /** Generating a proof and then verifying it at the same bit width succeeds,
      for a complete engine. */
  lemma GenerateThenVerify(e: Engine, tx: ConfidentialTransactions, n: usize)
    requires Valid(e, tx) && VerifiesOwnProofs(e)
    requires GenerateProof(e, tx, n).1.Ok?
    ensures VerifyProof(e, GenerateProof(e, tx, n).0, n) == Ok(())
  {
  }

  /** For every value that fits in n bits, a transaction created for n bits
      proves and then verifies at n bits. */
  lemma InRangeValueVerifies(e: Engine, value: u64, n: usize, randomBlinding: Scalar)
    requires ProvesInRange(e) && VerifiesOwnProofs(e)
    requires FitsIn(value, n)
    ensures GenerateProof(e, New(e, value, n, randomBlinding), n).1.Ok?
    ensures VerifyProof(e, GenerateProof(e, New(e, value, n, randomBlinding), n).0, n) == Ok(())
  {
    var tx := New(e, value, n, randomBlinding);
    assert ProofRequest(e, tx, n).Ok?;
    GenerateThenVerify(e, tx, n);
  }

  /** A value of 2^n or more cannot be proved in n bits: for an engine that
      refuses such values, `generate_proof(n)` fails and the transaction keeps
      no new proof, so a fresh one still fails verification. */
  lemma OutOfRangeValueFails(e: Engine, value: u64, proofBits: usize, randomBlinding: Scalar, n: usize)
    requires RejectsOutOfRange(e)
    requires ValidBitsize(n) && value >= RangeBound(n)
    ensures
      var tx := New(e, value, proofBits, randomBlinding);
      var proven := GenerateProof(e, tx, n);
      && proven.1.Err?
      && proven.0 == tx
      && VerifyProof(e, proven.0, n) == Err(VerificationError)
  {
    var tx := New(e, value, proofBits, randomBlinding);
    assert ProofRequest(e, tx, n).Err?;
  }

  /** A second successful `generate_proof` overwrites the first: the last call wins. */
  lemma LastGenerateWins(e: Engine, tx: ConfidentialTransactions, n1: usize, n2: usize)
    requires ProofRequest(e, tx, n2).Ok?
    ensures GenerateProof(e, GenerateProof(e, tx, n1).0, n2).0.proof == Some(ProofRequest(e, tx, n2).value.0)
  {
  }

  /** A call a client can make on a transaction. */
  datatype Call = GenerateProofCall(proofBits: usize) | VerifyProofCall(proofBits: usize) | GetBlindingCall

  /** The state after one call; queries leave it unchanged. */
  function Step(e: Engine, tx: ConfidentialTransactions, c: Call): ConfidentialTransactions
  {
    match c
    case GenerateProofCall(n) => GenerateProof(e, tx, n).0
    case VerifyProofCall(_) => tx
    case GetBlindingCall => tx
  }

  /** The state after a sequence of calls. Whatever the calls: the value, blinding,
      commitment and generators never change; the lifecycle invariant is kept; the
      proof changes only if some call generated a proof; and after a final
      successful `generate_proof` the stored proof is that call's proof. */
  function Run(e: Engine, tx: ConfidentialTransactions, calls: seq<Call>): (r: ConfidentialTransactions)
    ensures r == tx.(proof := r.proof)
    ensures Valid(e, tx) ==> Valid(e, r)
    ensures r.proof != tx.proof ==> exists i :: 0 <= i < |calls| && calls[i].GenerateProofCall?
    ensures |calls| > 0 && calls[|calls| - 1].GenerateProofCall? && ProofRequest(e, tx, calls[|calls| - 1].proofBits).Ok? ==>
      r.proof == Some(ProofRequest(e, tx, calls[|calls| - 1].proofBits).value.0)
    decreases |calls|
  {
    if calls == [] then tx
    else Step(e, Run(e, tx, calls[..|calls| - 1]), calls[|calls| - 1])
  }
}
