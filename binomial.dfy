/** The reference binomial coefficient C(n, k), the counting function both
    computations in script.js aim at, together with the identities they rely on. */
module Binomial {

  /** Number of ways to choose k of n items, defined by Pascal's rule.
      C(n, k) is 0 when k > n, which is how cells above the diagonal of the
      triangle are left. */
  function C(n: nat, k: nat): (r: nat)
  {
    if k == 0 then 1
    else if n == 0 then 0
    else C(n - 1, k - 1) + C(n - 1, k)
  }

  /** The guard of the page's entry point: a coefficient is computed only
      for integers with 0 <= k <= n. */
  predicate ValidInput(n: int, k: int)
  {
    n >= 0 && k >= 0 && k <= n
  }

  /** Choosing more items than there are is impossible. */
  lemma {:induction false} AboveDiagonal(n: nat, k: nat)
    requires k > n
    ensures C(n, k) == 0
  {
    if n > 0 {
      AboveDiagonal(n - 1, k - 1);
      AboveDiagonal(n - 1, k);
    }
  }

  /** The right edge of the triangle: C(n, n) == 1. */
  lemma {:induction false} Diagonal(n: nat)
    ensures C(n, n) == 1
  {
    if n > 0 {
      Diagonal(n - 1);
      AboveDiagonal(n - 1, n);
    }
  }

  /** Every cell on or below the diagonal is a positive count. */
  lemma {:induction false} Positive(n: nat, k: nat)
    requires k <= n
    ensures C(n, k) >= 1
  {
    if k > 0 {
      if k == n {
        Diagonal(n);
      } else {
        Positive(n - 1, k);
      }
    }
  }

  /** The second diagonal: C(n, 1) == n. */
  lemma {:induction false} ChooseOne(n: nat)
    ensures C(n, 1) == n
  {
    if n > 0 {
      ChooseOne(n - 1);
    }
  }

  /** Symmetry: choosing k items is choosing the n - k left behind.
      The multiplicative formula uses it to shorten its loop. */
  lemma {:induction false} Symmetry(n: nat, k: nat)
    requires k <= n
    ensures C(n, k) == C(n, n - k)
  {
    if k == 0 {
      Diagonal(n);
    } else if k == n {
      Diagonal(n);
    } else {
      // 0 < k < n
      Symmetry(n - 1, k - 1);
      Symmetry(n - 1, k);
      assert C(n, n - k) == C(n - 1, n - k - 1) + C(n - 1, n - k);
    }
  }

  /** The step of the multiplicative formula: C(n, i) * (n - i) == C(n, i + 1) * (i + 1).
      It holds for every i, also past n where both sides are 0. */
  lemma {:induction false} MultiplicativeStep(n: nat, i: nat)
    ensures C(n, i) * (n - i) == C(n, i + 1) * (i + 1)
  {
    if n == 0 {
      if i > 0 {
        AboveDiagonal(0, i);
      }
      AboveDiagonal(0, i + 1);
    } else if i == 0 {
      ChooseOne(n);
    } else {
      MultiplicativeStep(n - 1, i - 1);
      MultiplicativeStep(n - 1, i);
      assert C(n, i) == C(n - 1, i - 1) + C(n - 1, i);
      assert C(n, i + 1) == C(n - 1, i) + C(n - 1, i + 1);
      StepAlgebra(C(n - 1, i - 1), C(n - 1, i), C(n - 1, i + 1), n, i);
    }
  }

  /** The ring arithmetic behind the inductive step of MultiplicativeStep,
      with a, b, c standing for C(n-1, i-1), C(n-1, i), C(n-1, i+1). */
  lemma StepAlgebra(a: int, b: int, c: int, n: int, i: int)
    requires a * (n - i) == b * i
    requires b * (n - 1 - i) == c * (i + 1)
    ensures (a + b) * (n - i) == (b + c) * (i + 1)
  {
  }

  /** Exact division: a multiple of d divided by d gives the factor back. */
  lemma DivideMultiple(x: int, d: int)
    requires d > 0
    ensures (x * d) % d == 0 && (x * d) / d == x
  {
    var q, r := (x * d) / d, (x * d) % d;
    assert x * d == q * d + r && 0 <= r < d;
    assert (x - q) * d == r;
    MultipleBounds(x - q, d);
  }

  /** A nonzero multiple of a positive d is at least d away from 0. */
  lemma MultipleBounds(m: int, d: int)
    requires d > 0
    ensures m >= 1 ==> m * d >= d
    ensures m <= -1 ==> m * d <= -d
  {
  }

  /** The division in each round of the formula loop is exact: once the
      accumulator holds C(n, i), multiplying by n - i gives a multiple of
      i + 1, and the quotient is C(n, i + 1). */
  lemma StepDivisible(n: nat, i: nat)
    ensures (C(n, i) * (n - i)) % (i + 1) == 0
    ensures (C(n, i) * (n - i)) / (i + 1) == C(n, i + 1)
  {
    MultiplicativeStep(n, i);
    DivideMultiple(C(n, i + 1), i + 1);
  }
}
