/** generatePascalTriangle from script.js: fills an (n+1) x (k+1) table row by
    row with Pascal's rule, computing only columns 0..min(i, k) of row i, and
    emits one step per computed cell. */
module PascalTriangle {
  import opened Binomial
  import opened StepTrace

  /** What cell (r, c) holds while the fill is at cell (i, j): its binomial
      value if it is already visited, the initial 0 otherwise. Cells right of
      the diagonal are never visited, and 0 is their binomial value anyway. */
  ghost function Partial(r: nat, c: nat, i: nat, j: nat): (v: nat)
  {
    if r < i || (r == i && c < j) then C(r, c) else 0
  }

  /** Every cell of the table t of rows 0..n, columns 0..k is the reference C(i, j). */
  ghost predicate BinomialTable(t: array2<int>, n: nat, k: nat)
    reads t
  {
    t.Length0 == n + 1 && t.Length1 == k + 1 &&
    forall i, j :: 0 <= i <= n && 0 <= j <= k ==> t[i, j] == C(i, j)
  }

  /** Builds the table for rows 0..n and columns 0..k. `steps` is the ghost
      record of the visualisation steps, one (row, column) pair per computed
      cell, in the order they are emitted. */
  method GeneratePascalTriangle(n: nat, k: nat) returns (t: array2<int>, ghost steps: seq<Step>)
    ensures fresh(t)
    ensures t.Length0 == n + 1 && t.Length1 == k + 1
    ensures forall i, j :: 0 <= i <= n && 0 <= j <= k ==> t[i, j] == C(i, j)
    // the cells the loops compute are nonzero, and only those
    ensures forall i, j :: 0 <= i <= n && 0 <= j <= k ==> (t[i, j] != 0 <==> j <= Min(i, k))
    ensures forall i :: 0 <= i <= n ==> t[i, 0] == 1
    ensures forall i :: 0 <= i <= n && i <= k ==> t[i, i] == 1
    ensures forall i, j :: 0 < j < i <= n && j <= k ==> t[i, j] == t[i - 1, j - 1] + t[i - 1, j]
    ensures steps == Steps(n, k)
  {
    t := new int[n + 1, k + 1]((_, _) => 0);
    steps := [];
    var i: nat := 0;
    while i <= n
      invariant i <= n + 1
      invariant forall r, c :: 0 <= r <= n && 0 <= c <= k ==> t[r, c] == Partial(r, c, i, 0)
      invariant steps == TraceUpTo(i, k)
    {
      ghost var done := steps;
      var j: nat := 0;
      while j <= Min(i, k)
        invariant j <= Min(i, k) + 1
        invariant forall r, c :: 0 <= r <= n && 0 <= c <= k ==> t[r, c] == Partial(r, c, i, j)
        invariant steps == done + RowSteps(i, j)
      {
        var cell;
        if j == 0 || j == i {
          cell := 1;
          if j == i {
            Diagonal(i);
          }
        } else {
          assert t[i - 1, j - 1] == C(i - 1, j - 1) && t[i - 1, j] == C(i - 1, j);
          cell := t[i - 1, j - 1] + t[i - 1, j];
        }
        t[i, j] := cell;
        steps := steps + [(i, j)];
        j := j + 1;
      }
      // the columns right of the diagonal stay 0, which is their binomial value
      forall c | j <= c <= k
        ensures C(i, c) == 0
      {
        AboveDiagonal(i, c);
      }
      i := i + 1;
    }
    TableProperties(t, n, k);
  }

  /** Boundary values, Pascal's rule and the nonzero pattern of a binomial table. */
  lemma TableProperties(t: array2<int>, n: nat, k: nat)
    requires BinomialTable(t, n, k)
    ensures forall i, j :: 0 <= i <= n && 0 <= j <= k ==> (t[i, j] != 0 <==> j <= Min(i, k))
    ensures forall i :: 0 <= i <= n ==> t[i, 0] == 1
    ensures forall i :: 0 <= i <= n && i <= k ==> t[i, i] == 1
    ensures forall i, j :: 0 < j < i <= n && j <= k ==> t[i, j] == t[i - 1, j - 1] + t[i - 1, j]
  {
    forall r, c | 0 <= r <= n && 0 <= c <= k
      ensures t[r, c] != 0 <==> c <= Min(r, k)
    {
      if c <= r {
        Positive(r, c);
      } else {
        AboveDiagonal(r, c);
      }
    }
    forall r | 0 <= r <= n && r <= k
      ensures t[r, r] == 1
    {
      Diagonal(r);
    }
    forall r, c | 0 < c < r <= n && c <= k
      ensures t[r, c] == t[r - 1, c - 1] + t[r - 1, c]
    {
      assert t[r, c] == C(r, c) && t[r - 1, c - 1] == C(r - 1, c - 1) && t[r - 1, c] == C(r - 1, c);
    }
  }
}
