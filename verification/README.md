# Confidential transactions and confidential swaps — a Dafny model

This project models the protocol layer of a small Bulletproofs-based library.
That layer has two parts:

- **Confidential transactions** (`src/confidential.rs`) cover one secret `u64` value. The value is committed with a Pedersen commitment at creation. A range proof about it can then be generated (absent → present, and a later call overwrites an earlier proof) and verified. Verification is a query and fails when no proof is stored.
- **Confidential swaps** (`src/confidential_swap.rs`) cover two participants, "Alice" and "Bob". Each commits to an asset value under one shared set of Pedersen generators. `prove_exchange_rate` computes the actual rate `bob / alice` (rounded down) and its absolute distance from the expected rate. A distance above the tolerance is rejected with `ExchangeRateExceedThreshold`, which carries the offending values, and nothing is stored. Otherwise the swap stores a commitment to the distance and a range proof about it. `verify_exchange_rate` fails unless both are stored.

The cryptography is not modelled. `Crypto.Engine` bundles these library operations as function values:

- the default Pedersen generators;
- `commit` followed by `compress`;
- `RangeProof::prove_single`;
- `RangeProof::verify_single`.

Every operation takes the engine as a parameter, so every result holds for every engine. Four facts about a well-behaved library are hypotheses of the lemmas that use them. Each appears as a `requires` or as the antecedent of an `ensures` implication, and is never assumed anywhere else:

- `ProvesInRange`: proving succeeds for a value that fits the bit width.
- `RejectsOutOfRange`: proving fails for a value of 2^n or more at bit width n.
- `ReportsOwnCommitment`: the prover returns the commitment to the proved value.
- `VerifiesOwnProofs`: a produced proof verifies against that commitment.

The random blinding is a parameter of each operation that draws one.

Each `&mut self` method is a pure function that returns the new state together with its result. Each `&self` query is a pure function of the state. Queries are therefore read-only and repeatable by construction.

Files:

- `wrappers.dfy`: `Option` and `Result`.
- `crypto.dfy`: integer widths, scalars, opaque points and proofs, the engine, and the engine predicates.
- `confidential.dfy`: the transaction lifecycle.
- `swap.dfy`: participants, the swap, and the rate rule.
- `demo.dfy`: the demonstration scenarios.

## Model

| member | source | states |
|---|---|---|
| Confidential.New | src/confidential.rs:16-35 | A new transaction has no proof and stores the given value and blinding. Its public commitment opens to exactly that (value, blinding) under the default Pedersen generators. Its Bulletproofs generators are built for `proof_bits` and one party. |
| Confidential.GenerateProof | src/confidential.rs:36-49 | Only the proof field can change. The result is `Ok` exactly when the prover succeeds on the stored value and blinding. The stored proof is then the returned one and comes from that same pair. On a prover error the state is unchanged and the error is returned. The lifecycle invariant is preserved. |
| Confidential.VerifyProof | src/confidential.rs:50-63 | With no proof the result is `VerificationError`. Otherwise the stored proof is checked against the stored commitment, at the caller's bit width. |
| Confidential.BlindingOpensCommitment | src/confidential.rs:64-66 | The blinding `get_blinding` exposes, together with the stored value, opens the public commitment. |
| Confidential.VerifyBeforeGenerateFails | src/confidential.rs:27-62 | Verifying a freshly created transaction fails with `VerificationError`. |
| Confidential.ProofRequestMatchesCommitment | src/confidential.rs:22-46 | The proof request and the public commitment use the same (value, blinding) pair. The commitment the prover reports is the stored one. |
| Confidential.GenerateThenVerify | src/confidential.rs:36-62 | A successful `generate_proof(n)` followed by `verify_proof(n)` succeeds, for a complete engine. |
| Confidential.InRangeValueVerifies | src/confidential.rs:16-62 | Take any value that fits in n bits, with a transaction created for n bits. Proving and then verifying at n bits both succeed. |
| Confidential.OutOfRangeValueFails | src/confidential.rs:36-62 | For an engine that refuses values of 2^n or more, `generate_proof(n)` on such a value fails. The transaction is unchanged and verification still fails. |
| Confidential.LastGenerateWins | src/confidential.rs:36-48 | After two successful `generate_proof` calls, the stored proof is the second call's proof. |
| Confidential.Run | src/confidential.rs:36-66 | Over any sequence of calls, value, blinding, commitment and generators never change. The invariant is kept. The proof changes only if some call generated one. A final successful generation decides the stored proof. |
| Swap.NewParticipant | src/confidential_swap.rs:54-63 | The participant keeps the given name, asset value and blinding. Its commitment opens to that (value, blinding) under the given generators. |
| Swap.New | src/confidential_swap.rs:66-79 | The participants are "Alice" and "Bob" with the given asset values. Both are committed under the swap's one shared set of default generators. The rate commitment and the rate proof start as `None`. |
| Swap.ActualRate | src/confidential_swap.rs:89 | If Alice's value is non-zero, the rate q is the floor of bob / alice: `q * alice <= bob < (q + 1) * alice`. If it is zero, the result is an explicit `DivisionByZero`. |
| Swap.RateDiff | src/confidential_swap.rs:92-96 | The `u64` result is the absolute difference: min + d == max. Neither branch underflows. |
| Swap.RateDiffSymmetric | src/confidential_swap.rs:92-96 | The distance is symmetric and is zero exactly when the two rates are equal. |
| Swap.ProveExchangeRate | src/confidential_swap.rs:81-127 | Alice, Bob and the generators never change. A distance above the tolerance returns `ExchangeRateExceedThreshold(actual, expected, max)` and writes nothing. An accepted rate stores the commitment to the distance under a fresh blinding. The prover is asked about that same pair. Its proof is stored and returned. A prover failure returns `ProofCreationError` with the commitment already written. |
| Swap.ProveSucceedsIff | src/confidential_swap.rs:89-126 | Proving succeeds exactly when all three hold: Alice's value is non-zero, the distance is within the tolerance, and the prover succeeds on the distance. |
| Swap.AcceptedRateIsPaired | src/confidential_swap.rs:108-126 | After success, the stored commitment and the stored proof both come from the same (distance, blinding) pair. That distance is within the tolerance. |
| Swap.ProveThenVerify | src/confidential_swap.rs:108-144 | A successful `prove_exchange_rate` followed by `verify_exchange_rate` at the same bit width succeeds, for a complete engine. |
| Swap.VerifyExchangeRate | src/confidential_swap.rs:130-144 | The result is `VerificationError` unless both the rate commitment and the rate proof are stored. Otherwise the stored proof is checked against the stored commitment. |
| Swap.RejectedThenVerifyFails | src/confidential_swap.rs:99-143 | A rejected rate on a swap with no rate state leaves it empty, so a later verification fails. |
| Swap.ProveKeepsPaired | src/confidential_swap.rs:81-127 | `ProofCreationError` is returned exactly when the rate passes the threshold check and the prover then fails. In every other case, a rate commitment and proof that came from one (distance, blinding) pair still do. |
| Swap.ProverFailureBreaksPairing | src/confidential_swap.rs:108-125 | On a concrete engine, a success at 8 bits followed by a prover failure at 16 bits leaves the new commitment beside the old proof, so no single (distance, blinding) pair explains both. |
| Swap.Run | src/confidential_swap.rs:81-144 | Over any sequence of calls, participants and generators never change. The invariant "a stored proof comes with a stored commitment" is kept. If every proving call is rejected by the threshold, the swap is unchanged. If no prover call fails, the rate commitment and proof stay paired from one (distance, blinding) pair. |
| Demo.TransactionScenario | src/main.rs:6-23 | With a complete engine, the secret 42 committed, proved and verified at 64 bits is accepted. |
| Demo.RejectedSwapScenario | src/main.rs:25-41 | Alice 600, Bob 200, expected rate 2, tolerance 1: the actual rate is 0 and the distance is 2 > 1. The result is `ExchangeRateExceedThreshold(0, 2, 1)`, the state is unchanged and empty, and verification then fails. |
| Demo.AcceptedSwapScenario | src/confidential_swap.rs:89-144 | Alice 2, Bob 4, expected rate 2, tolerance 0: the distance is 0. With a complete engine it is committed, proved in 8 bits and verified. |
| Demo.ZeroAliceScenario | src/confidential_swap.rs:89 | With Alice's value 0, proving returns `DivisionByZero` and leaves the swap unchanged. |

The model follows the code, with three deliberate divergences. Each replaces a panic with a typed error:

1. `bob / alice` panics when Alice's value is zero (src/confidential_swap.rs:89). The model returns `DivisionByZero` and leaves the swap unchanged (`Swap.ActualRate`, `Swap.ProveExchangeRate`). The rate is kept as `bob / alice`, as written, not `alice / bob`.
2. `generate_proof` aborts through `expect` when the prover fails (src/confidential.rs:46) and otherwise returns `&RangeProof`. `Confidential.GenerateProof` returns `Result<RangeProof, ProofError>`: the proof on success, the prover's error on failure, with the transaction unchanged.
3. `prove_exchange_rate` aborts through `expect` when the prover fails (src/confidential_swap.rs:124). `Swap.ProveExchangeRate` returns `ProofCreationError`. The state is what the code leaves at that point: the new rate commitment is written (line 114) and the earlier rate proof is untouched. So after an earlier success, the commitment no longer matches the proof (`Swap.ProverFailureBreaksPairing`).

## Left out

- Random blindings from the operating system (`src/utils.rs`, `getrandom` followed by reduction modulo the group order) are not modelled. Each operation takes the resulting scalar as a parameter.
- Curve arithmetic, `PedersenGens::commit`, `compress`, and the internals of `prove_single` and `verify_single` are foreign library code. They are fields of `Crypto.Engine`.
- Merlin transcripts are not modelled. Prover and verifier use the same label, which the engine fields absorb.
- `BulletproofGens` is reduced to its two capacities; its generator points are not modelled.
- The binding and hiding of commitments are not modelled. Neither is the failure of a proof checked at another bit width or against another commitment. These are cryptographic properties of the engine, not of this layer. Whether the library's prover refuses an out-of-range value is also not modelled: it is the hypothesis `RejectsOutOfRange` of `Confidential.OutOfRangeValueFails`.
- `usize` is taken to be 64 bits wide.
- `SwapError`'s `Display` formatting and the `From<ProofError>` conversion are presentation and glue code.
- The console output of `src/main.rs` is not modelled; only its scenarios are.
- Confidential.GenerateProof: the code aborts through `expect` when the prover fails. The model instead returns the prover's error and leaves the transaction unchanged (divergence 2 above).
- Swap.ProveExchangeRate: the code aborts through `expect` when the prover fails. The model returns `ProofCreationError`, and the state is as the code leaves it at that point (divergence 3 above).
- Swap.Run: keeps the rate commitment and proof paired only for call sequences in which no prover call fails. A prover failure after a success leaves the new commitment beside the old proof (`Swap.ProverFailureBreaksPairing`). In the code that state exists only after the abort in `expect`.
