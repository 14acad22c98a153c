/** The demonstration program's scenarios, and two more swap scenarios, stated for
    every engine and every blinding the random source may supply. */
module Demo {
  import opened Wrappers
  import opened Crypto
  import Confidential
  import Swap

  /** The transaction demo: the secret 42 committed for 64-bit proofs, proved and
      verified at 64 bits, is accepted by a complete engine. */
  lemma TransactionScenario(e: Engine, blinding: Scalar)
    requires ProvesInRange(e) && VerifiesOwnProofs(e)
    ensures
      var tx := Confidential.New(e, 42, 64, blinding);
      var proven := Confidential.GenerateProof(e, tx, 64);
      && proven.1.Ok?
      && Confidential.VerifyProof(e, proven.0, 64) == Ok(())
  {
    Confidential.InRangeValueVerifies(e, 42, 64, blinding);
  }

  /** The swap demo: Alice 600, Bob 200, expected rate 2, tolerance 1. The actual
      rate is 200 / 600 = 0, two away from 2, so the rate is rejected with the
      offending values, nothing is stored and verification then fails. */
  lemma RejectedSwapScenario(e: Engine, aliceBlinding: Scalar, bobBlinding: Scalar, rateBlinding: Scalar)
    ensures
      var swap := Swap.New(e, 600, 200, 8, aliceBlinding, bobBlinding);
      var proved := Swap.ProveExchangeRate(e, swap, 2, 8, 1, rateBlinding);
      && proved.1 == Err(Swap.ExchangeRateExceedThreshold(0, 2, 1))
      && proved.0 == swap
      && proved.0.exchangeRateCommitment == None && proved.0.exchangeRateProof == None
      && Swap.VerifyExchangeRate(e, proved.0, 8) == Err(VerificationError)
  {
    var swap := Swap.New(e, 600, 200, 8, aliceBlinding, bobBlinding);
    assert Swap.ExceedsThreshold(swap, 2, 1);
  }

  /** Alice 2, Bob 4, expected rate 2, tolerance 0: the rate is exact, so a
      complete engine proves the zero distance in 8 bits and then verifies it. */
  lemma AcceptedSwapScenario(e: Engine, aliceBlinding: Scalar, bobBlinding: Scalar, rateBlinding: Scalar)
    requires ProvesInRange(e) && VerifiesOwnProofs(e)
    ensures
      var swap := Swap.New(e, 2, 4, 8, aliceBlinding, bobBlinding);
      var proved := Swap.ProveExchangeRate(e, swap, 2, 8, 0, rateBlinding);
      && proved.1.Ok?
      && proved.0.exchangeRateCommitment == Some(CommitU64(e, swap.pcGens, 0, rateBlinding))
      && Swap.VerifyExchangeRate(e, proved.0, 8) == Ok(())
  {
    var swap := Swap.New(e, 2, 4, 8, aliceBlinding, bobBlinding);
    assert !Swap.ExceedsThreshold(swap, 2, 0);
    assert Swap.RateDiff(4 / 2, 2) == 0;
    assert FitsIn(0, 8);
    Swap.ProveThenVerify(e, swap, 2, 8, 0, rateBlinding);
  }

  /** Alice's asset value 0: the rate cannot be computed, and the call reports a
      division error instead of storing anything. */
  lemma ZeroAliceScenario(e: Engine, bobAsset: u64, aliceBlinding: Scalar, bobBlinding: Scalar, expectedRate: u64, maxAllowedDiff: u64, rateBlinding: Scalar)
    ensures
      var swap := Swap.New(e, 0, bobAsset, 8, aliceBlinding, bobBlinding);
      Swap.ProveExchangeRate(e, swap, expectedRate, 8, maxAllowedDiff, rateBlinding) == (swap, Err(Swap.DivisionByZero))
  {
  }
}
