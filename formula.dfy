/** binomialCoefficientFormula from script.js: the multiplicative formula
    C(n, k) = prod_{i < k} (n - i) / (i + 1), after replacing k by n - k
    when that is smaller. Arithmetic is on unbounded integers, and each
    division is exact. */
module Formula {
  import opened Binomial

  /** For valid input the result is C(n, k); for any other input the loop
      does not run and the result is the initial 1. */
  method BinomialCoefficientFormula(n: int, k: int) returns (result: int)
    ensures ValidInput(n, k) ==> result == C(n, k)
    ensures !ValidInput(n, k) ==> result == 1
  {
    var rounds := k;
    if rounds > n - rounds {
      rounds := n - rounds;
    }
    // a positive round count is only reached from valid input, and is at most n
    assert rounds > 0 ==> ValidInput(n, k) && rounds <= n;
    result := 1;
    var i: nat := 0;
    while i < rounds
      invariant rounds > 0 ==> i <= rounds
      invariant i > 0 ==> rounds > 0
      invariant n >= 0 ==> result == C(n, i)
      invariant n < 0 ==> result == 1
    {
      StepDivisible(n, i);
      result := result * (n - i);
      result := result / (i + 1);
      i := i + 1;
    }
    if ValidInput(n, k) {
      assert i == rounds;
      Symmetry(n, k);
    }
  }
}
