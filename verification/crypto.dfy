/** The cryptographic collaborators of the protocol layer: Pedersen commitments over
    the Ristretto group and single-value Bulletproofs range proofs.

    None of the cryptography is modelled. An `Engine` bundles the library's
    operations as plain function values, so every statement proved about the
    protocol layer holds for EVERY engine; the few facts the proofs need about the
    library are stated as predicates on the engine. They are hypotheses of the
    lemmas that use them, written as a `requires` or as the antecedent of an
    `ensures`, and are never assumed anywhere else. */
module Crypto {
  import opened Wrappers

  /** Rust `u64` and (on a 64-bit target) `usize`. */
  const U64_LIMIT: int := 0x1_0000_0000_0000_0000
  type u64 = x: int | 0 <= x < U64_LIMIT
  type usize = x: int | 0 <= x < U64_LIMIT

  /** The order l = 2^252 + 27742317777372353535851937790883648493 of the
      Ristretto group; a `Scalar` is an integer modulo l. */
  const GROUP_ORDER: int := 0x1000_0000_0000_0000_0000_0000_0000_0000_14de_f9de_a2f7_9cd6_5812_631a_5cf5_d3ed
  type Scalar = x: int | 0 <= x < GROUP_ORDER

  /** `Scalar::from(u64)`: every 64-bit value is already reduced modulo l. */
  function ScalarFromU64(v: u64): Scalar
  {
    v
  }

  /** A compressed Ristretto point (a commitment), kept as its opaque encoding. */
  datatype CompressedRistretto = CompressedRistretto(bytes: seq<bv8>)

  /** A serialised range proof, opaque to the protocol layer. */
  datatype RangeProof = RangeProof(bytes: seq<bv8>)

  /** Pedersen generators: the value base B and the blinding base B_blinding. */
  datatype PedersenGens = PedersenGens(b: CompressedRistretto, bBlinding: CompressedRistretto)

  /** Bulletproofs generators, reduced to the two capacities they are built with
      (`BulletproofGens::new(gens_capacity, party_capacity)`). */
  datatype BulletproofGens = BulletproofGens(gensCapacity: usize, partyCapacity: usize)

  /** The library's `ProofError` variants. */
  datatype ProofError =
    | VerificationError
    | FormatError
    | WrongNumBlindingFactors
    | InvalidBitsize
    | InvalidAggregation
    | InvalidGeneratorsLength
    | ProvingError

  /** The library operations the protocol layer calls:
      - `pedersenDefault`: `PedersenGens::default()`;
      - `commit(pc, v, r)`: `pc.commit(v, r).compress()`;
      - `proveSingle(bp, pc, v, r, n)`: `RangeProof::prove_single` with a fresh
        transcript, yielding the proof and the commitment it proves for;
      - `verifySingle(proof, bp, pc, c, n)`: `RangeProof::verify_single` with a
        fresh transcript carrying the same label as the prover's. */
  datatype Engine = Engine(
    pedersenDefault: PedersenGens,
    commit: (PedersenGens, Scalar, Scalar) -> CompressedRistretto,
    proveSingle: (BulletproofGens, PedersenGens, u64, Scalar, usize) -> Result<(RangeProof, CompressedRistretto), ProofError>,
    verifySingle: (RangeProof, BulletproofGens, PedersenGens, CompressedRistretto, usize) -> Result<(), ProofError>)

  /** Commitment to a 64-bit value: `pc.commit(Scalar::from(v), r).compress()`. */
  function CommitU64(e: Engine, pc: PedersenGens, v: u64, r: Scalar): CompressedRistretto
  {
    e.commit(pc, ScalarFromU64(v), r)
  }

  /** The bit widths a single range proof supports. */
  predicate ValidBitsize(n: usize)
  {
    n == 8 || n == 16 || n == 32 || n == 64
  }

  /** 2^n for a supported bit width n. */
  function RangeBound(n: usize): (bound: int)
    requires ValidBitsize(n)
    ensures bound > 0
  {
    if n == 8 then 0x100
    else if n == 16 then 0x1_0000
    else if n == 32 then 0x1_0000_0000
    else U64_LIMIT
  }

  /** The value lies in [0, 2^n) for a supported bit width n. */
  predicate FitsIn(v: u64, n: usize)
  {
    ValidBitsize(n) && v < RangeBound(n)
  }

  /** Engine assumption: proving succeeds whenever the value fits in the bit width
      and the generators are large enough for one party and n bits. */
  ghost predicate ProvesInRange(e: Engine)
  {
    forall bp: BulletproofGens, pc: PedersenGens, v: u64, r: Scalar, n: usize ::
      FitsIn(v, n) && n <= bp.gensCapacity && 1 <= bp.partyCapacity ==>
        e.proveSingle(bp, pc, v, r, n).Ok?
  }

  /** Engine assumption: the prover refuses a value that does not fit in a
      supported bit width n (a value of 2^n or more). */
  ghost predicate RejectsOutOfRange(e: Engine)
  {
    forall bp: BulletproofGens, pc: PedersenGens, v: u64, r: Scalar, n: usize ::
      ValidBitsize(n) && v >= RangeBound(n) ==> e.proveSingle(bp, pc, v, r, n).Err?
  }

  /** Engine assumption: the commitment the prover returns is the Pedersen
      commitment to the proved value and blinding. */
  ghost predicate ReportsOwnCommitment(e: Engine)
  {
    forall bp: BulletproofGens, pc: PedersenGens, v: u64, r: Scalar, n: usize ::
      e.proveSingle(bp, pc, v, r, n).Ok? ==>
        e.proveSingle(bp, pc, v, r, n).value.1 == CommitU64(e, pc, v, r)
  }

  /** Engine assumption (completeness): a proof the prover produced verifies
      against the commitment to the proved value, the same generators and the
      same bit width. */
  ghost predicate VerifiesOwnProofs(e: Engine)
  {
    forall bp: BulletproofGens, pc: PedersenGens, v: u64, r: Scalar, n: usize ::
      e.proveSingle(bp, pc, v, r, n).Ok? ==>
        e.verifySingle(e.proveSingle(bp, pc, v, r, n).value.0, bp, pc, CommitU64(e, pc, v, r), n) == Ok(())
  }
}
