# Binomial coefficient calculator: verified model of the computation

The calculator computes the binomial coefficient C(n, k) in one of two ways and animates
the first of them:

- **Pascal's triangle fill** (`generatePascalTriangle`). A table of n + 1 rows and
  k + 1 columns starts out all zeros. The fill goes row by row and only reaches column
  min(i, k) of row i. Column 0 and the diagonal get 1. Every other cell gets the sum of
  the two cells above it. After each cell the page renders one animation step.
- **Multiplicative formula** (`binomialCoefficientFormula`). If n - k is smaller than k,
  k is replaced by n - k. Then, for i = 0 .. k - 1, the accumulator is multiplied by
  n - i and divided by i + 1.
- **Entry point** (`generateAndVisualize`). It computes only when 0 <= k <= n. The
  result is read from `triangle[n][k]` or taken from the formula.

The model has one module per component:

- `binomial.dfy` (module `Binomial`): the reference `C(n, k)`, defined by Pascal's rule.
  It also holds the guard `ValidInput` and the identities both methods depend on:
  zero above the diagonal, one on the diagonal, symmetry, and the multiplicative step
  with its exact division.
- `steps.dfy` (module `StepTrace`): the sequence of `(row, column)` animation steps as a
  specification function `Steps(n, k)`. The lemmas give its members, its row-major order,
  its length and where each cell sits in it.
- `triangle.dfy` (module `PascalTriangle`): the fill as a method over an `array2<int>`
  with nested `while` loops. It carries a ghost trace of the steps it emits.
- `formula.dfy` (module `Formula`): the multiplicative loop over unbounded integers.
- `orchestrator.dfy` (module `Orchestrator`): the guard, the choice of method and the
  choice of result. `ExampleRuns` drives the entry point on the example inputs: (5, 2)
  gives 10 by both methods, (0, 0) and (10, 0) give 1, and (3, 5) is rejected with no step.

Three facts about the code shape the contracts:

- Only columns 0..k exist, so `t[i][i] == 1` is stated for i <= k.
- One step is emitted per computed cell: the sum over i = 0..n of (min(i, k) + 1) steps
  in all, 12 for n = 4, k = 2.
- Cells that are never computed keep 0, which is C(i, j) for j > i. So every cell of
  the table, computed or not, equals `C(i, j)`.

The formula also accepts input the guard rejects. For such input its loop never runs and
it returns 1. The model states this; the entry point never reaches it.

## Model

| member | source | states |
|---|---|---|
| `PascalTriangle.GeneratePascalTriangle` | script.js:3-20 | The table has n + 1 rows of k + 1 cells, and every cell (i, j) is C(i, j). A cell is nonzero exactly when the loops compute it (j <= min(i, k)). Column 0 is 1, the diagonal is 1 for i <= k, and interior cells obey Pascal's rule. The emitted step trace is `Steps(n, k)`. |
| `PascalTriangle.TableProperties` | script.js:9-14 | A table of binomial values has 1 in column 0 and on the diagonal for i <= k, satisfies Pascal's rule for 0 < j < i, j <= k, and is zero exactly right of column min(i, k). |
| `Binomial.AboveDiagonal` | script.js:9-10 | C(n, k) == 0 for k > n, the value the untouched zero cells keep. |
| `Binomial.Diagonal` | script.js:11-12 | C(n, n) == 1, the boundary value written when j == i. |
| `Binomial.Positive` | script.js:10-14 | Every cell with j <= i holds a count of at least 1, so a computed cell is never mistaken for an unset one. |
| `Binomial.Symmetry` | script.js:98 | C(n, k) == C(n, n - k) for k <= n, which justifies replacing k by n - k. Together with the formula method's contract, the formula gives the same value for k and n - k. |
| `Binomial.MultiplicativeStep` | script.js:100-102 | C(n, i) * (n - i) == C(n, i + 1) * (i + 1) for all n and i. |
| `Binomial.StepDivisible` | script.js:101-102 | Once the accumulator is C(n, i), multiplying by n - i gives a multiple of i + 1, and the quotient is C(n, i + 1): the division is exact. |
| `Formula.BinomialCoefficientFormula` | script.js:97-105 | For 0 <= k <= n the result is C(n, k). For every other input the result is 1. |
| `StepTrace.TraceMembers` | script.js:8-16 | A pair (i, j) is a step of the trace exactly when i is one of the rows filled so far and j <= min(i, k). |
| `StepTrace.TraceOrdered` | script.js:8-16 | Steps come in strictly increasing row-major order: rows ascending, columns ascending within a row. No cell is visited twice. |
| `StepTrace.TraceLength` | script.js:8-10 | The trace has one step per computed cell: its length is the sum of the row widths min(i, k) + 1. |
| `StepTrace.RowStepsAt` | script.js:10-16 | Within a row the steps are (i, 0), (i, 1), ... in column order. |
| `StepTrace.TraceAt` | script.js:8-16 | Cell (i, j) is emitted at index `Position(i, j, k)` (cells of the earlier rows, plus j). |
| `StepTrace.ReadsPrecedeWrite` | script.js:14 | Both cells read by the recurrence, (i-1, j-1) and (i-1, j), are cells the fill computes. Both are emitted before (i, j). |
| `StepTrace.StepCount` | script.js:8-10 | For k <= n, twice the number of steps is (k + 1)(k + 2) + 2(n - k)(k + 1). |
| `StepTrace.StepCountExample` | script.js:8-16 | The run with n = 4, k = 2 emits 12 steps. |
| `Orchestrator.GenerateAndVisualize` | script.js:72-94 | A result is produced exactly when 0 <= k <= n, and it is C(n, k) whichever method is selected. Steps are emitted only for valid input and the triangle method, and then they are exactly `Steps(n, k)`. |
| `Orchestrator.Examples` | script.js:72-93 | C(5, 2) == 10, C(10, 0) == 1 and C(0, 0) == 1. The inputs (-1, 0), (3, 5) and (2, -1) fail the guard. |

## Left out

- Rendering and the DOM: `visualizeStep`'s drawing, `visualizePascalTriangle`, `clearVisualization`, `displayFinalResult`, `displayFormulaInfo`, `displayDynamicProgrammingInfo` and `displayTimeComplexity` (script.js:22-63, 107-120). They only write text and elements into the page. Each step is modelled by its (row, column) entry in the ghost trace.
- The `await` and `setTimeout` pacing between steps, and two overlapping runs being interleaved (script.js:16, 26, 179-181). These are timing and concurrency. Steps are modelled as emitted synchronously, in order.
- Reading the inputs from the page (script.js:24, 68-70): n, k and the speed come from `parseInt` of input fields, and the method from `querySelector(...).value` of the checked radio button. The model takes n, k and the method as parameters; the speed only paces the animation. A `NaN` from `parseInt` fails the guard in the source, so it would behave like any rejected input here.
- Wall-clock timing with `performance.now()` and `updateTimeComplexityGraph` (script.js:74, 87-91, 122-177). This is a clock and a chart library that is not part of this model.
- The `alert` on invalid input (script.js:93). It is shown only as the `InvalidInput` outcome.
- Formula.BinomialCoefficientFormula: works on unbounded integers with exact division. JavaScript numbers are doubles, so the source can round in `result /= (i + 1)` and loses exactness above 2^53. The model does not capture those rounding errors.
- PascalTriangle.GeneratePascalTriangle: adds cells as unbounded integers. The source adds JavaScript doubles (script.js:14), so its cells round once they pass 2^53 and become `Infinity` for large n; the model's exact sums differ from the source's there.
- Orchestrator.GenerateAndVisualize: the two methods agree on C(n, k) only in exact arithmetic. In doubles each method rounds in its own way, so the source's results for the two methods can differ for large n.
- PascalTriangle.GeneratePascalTriangle: allocates the whole (n + 1) × (k + 1) table up front. The source allocates row i as it reaches it, so during a step the rows below i do not exist yet. The final table is the same, and so is every cell the recurrence reads.
- PascalTriangle.GeneratePascalTriangle: a step's ghost entry records the cell, not a snapshot of the partial table that the source renders at that step.
- PascalTriangle.GeneratePascalTriangle: takes natural numbers. Only validated input ever reaches it, and the source's behaviour for negative n or k is not modelled.
