/** The computational part of generateAndVisualize in script.js: validate
    n and k, run the selected method, and pick the coefficient it produced. */
module Orchestrator {
  import opened Binomial
  import opened StepTrace
  import PascalTriangle
  import Formula

  /** What one run of the page's entry point yields: the coefficient, or the
      rejection that the page reports with an alert. */
  datatype Outcome = Computed(value: int) | InvalidInput

  /** The method selector value that chooses the triangle; any other value
      chooses the formula. */
  const DynamicMethod: string := "dynamic"

  /** Runs one computation. `steps` is the ghost record of the animation
      steps emitted: the full row-major trace for the triangle method, none
      for the formula or for rejected input. Whichever method is chosen, a
      valid request yields C(n, k). */
  method GenerateAndVisualize(n: int, k: int, selected: string) returns (outcome: Outcome, ghost steps: seq<Step>)
    ensures outcome.Computed? <==> ValidInput(n, k)
    ensures outcome.Computed? ==> outcome.value == C(n, k)
    ensures steps == if ValidInput(n, k) && selected == DynamicMethod then Steps(n, k) else []
  {
    steps := [];
    if n >= 0 && k >= 0 && k <= n {
      var result;
      if selected == DynamicMethod {
        var triangle;
        triangle, steps := PascalTriangle.GeneratePascalTriangle(n, k);
        result := triangle[n, k];
      } else {
        result := Formula.BinomialCoefficientFormula(n, k);
      }
      outcome := Computed(result);
    } else {
      outcome := InvalidInput;
    }
  }

  /** The example runs: 5 choose 2 is 10, n choose 0 is 1 (here n = 10),
      the single-cell triangle 0 choose 0 is 1, and the inputs (-1, 0),
      (3, 5) and (2, -1) are rejected. */
  lemma Examples()
    ensures C(5, 2) == 10 && C(10, 0) == 1 && C(0, 0) == 1
    ensures !ValidInput(-1, 0) && !ValidInput(3, 5) && !ValidInput(2, -1)
  {
  }

  /** The example runs through the entry point itself: 5 choose 2 is 10 by
      either method, with the triangle method emitting its steps; n = 10,
      k = 0 and n = 0, k = 0 give 1; and (3, 5) is rejected with no step. */
  method ExampleRuns()
  {
    Examples();
    var dynamic, steps := GenerateAndVisualize(5, 2, DynamicMethod);
    var formula, none := GenerateAndVisualize(5, 2, "formula");
    assert dynamic == formula == Computed(10);
    assert steps == Steps(5, 2) && none == [];
    var single, _ := GenerateAndVisualize(0, 0, DynamicMethod);
    var zero, _ := GenerateAndVisualize(10, 0, "formula");
    assert single == zero == Computed(1);
    var rejected, idle := GenerateAndVisualize(3, 5, DynamicMethod);
    assert rejected == InvalidInput && idle == [];
  }
}
