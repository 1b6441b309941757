/** The order in which the triangle fill in script.js visits cells, one
    (row, column) step per computed cell: rows 0..n top to bottom, and within
    row i the columns 0..min(i, k) left to right. */
module StepTrace {

  /** One visited cell: (row, column). */
  type Step = (nat, nat)

  function Min(a: nat, b: nat): (r: nat)
  {
    if a <= b then a else b
  }

  /** Number of cells the fill computes in row i when only columns up to k are kept. */
  function RowWidth(i: nat, k: nat): (r: nat)
  {
    Min(i, k) + 1
  }

  /** The first `width` steps of row i: (i, 0), (i, 1), ..., (i, width - 1). */
  function RowSteps(i: nat, width: nat): (r: seq<Step>)
  {
    if width == 0 then [] else RowSteps(i, width - 1) + [(i, width - 1)]
  }

  /** The steps of rows 0 .. rows - 1, in the order the loops emit them. */
  function TraceUpTo(rows: nat, k: nat): (r: seq<Step>)
  {
    if rows == 0 then [] else TraceUpTo(rows - 1, k) + RowSteps(rows - 1, RowWidth(rows - 1, k))
  }

  /** The full trace of a fill of rows 0..n, columns 0..k. */
  function Steps(n: nat, k: nat): (r: seq<Step>)
  {
    TraceUpTo(n + 1, k)
  }

  /** Sum of the row widths of rows 0 .. rows - 1. */
  function CellsUpTo(rows: nat, k: nat): (r: nat)
  {
    if rows == 0 then 0 else CellsUpTo(rows - 1, k) + RowWidth(rows - 1, k)
  }

  /** Index in the trace of the step that computes cell (i, j). */
  function Position(i: nat, j: nat, k: nat): (r: nat)
  {
    CellsUpTo(i, k) + j
  }

  /** Row-major order: earlier row first, then smaller column. */
  predicate Before(p: Step, q: Step)
  {
    p.0 < q.0 || (p.0 == q.0 && p.1 < q.1)
  }

  /** A row segment lists its columns in order. */
  lemma {:induction false} RowStepsAt(i: nat, width: nat)
    ensures |RowSteps(i, width)| == width
    ensures forall c :: 0 <= c < width ==> RowSteps(i, width)[c] == (i, c)
  {
    if width > 0 {
      RowStepsAt(i, width - 1);
    }
  }

  /** The trace is as long as the number of cells computed. */
  lemma {:induction false} TraceLength(rows: nat, k: nat)
    ensures |TraceUpTo(rows, k)| == CellsUpTo(rows, k)
  {
    if rows > 0 {
      TraceLength(rows - 1, k);
      RowStepsAt(rows - 1, RowWidth(rows - 1, k));
    }
  }

  /** The trace holds exactly the cells (i, j) with i < rows and j <= min(i, k). */
  lemma {:induction false} TraceMembers(rows: nat, k: nat, p: Step)
    ensures p in TraceUpTo(rows, k) <==> p.0 < rows && p.1 <= Min(p.0, k)
  {
    if rows > 0 {
      TraceMembers(rows - 1, k, p);
      var w := RowWidth(rows - 1, k);
      RowStepsAt(rows - 1, w);
      var row := RowSteps(rows - 1, w);
      if p.0 == rows - 1 && p.1 < w {
        assert row[p.1] == p;
      }
      if p in row {
        var c :| 0 <= c < |row| && row[c] == p;
        assert p == (rows - 1, c);
      }
    }
  }

  /** Steps are emitted in strictly increasing row-major order, so no cell is visited twice. */
  lemma {:induction false} TraceOrdered(rows: nat, k: nat)
    ensures forall a, b :: 0 <= a < b < |TraceUpTo(rows, k)| ==>
      Before(TraceUpTo(rows, k)[a], TraceUpTo(rows, k)[b])
  {
    if rows > 0 {
      TraceOrdered(rows - 1, k);
      var prefix := TraceUpTo(rows - 1, k);
      var w := RowWidth(rows - 1, k);
      var row := RowSteps(rows - 1, w);
      RowStepsAt(rows - 1, w);
      var t := TraceUpTo(rows, k);
      assert t == prefix + row;
      forall a, b | 0 <= a < b < |t|
        ensures Before(t[a], t[b])
      {
        if b < |prefix| {
          assert t[a] == prefix[a] && t[b] == prefix[b];
        } else if a < |prefix| {
          assert t[a] == prefix[a];
          assert prefix[a] in prefix;
          TraceMembers(rows - 1, k, prefix[a]);
          assert t[b] == row[b - |prefix|];
        } else {
          assert t[a] == row[a - |prefix|] && t[b] == row[b - |prefix|];
        }
      }
    }
  }

  /** Cell (i, j) is computed at index Position(i, j, k) of every trace that covers row i. */
  lemma {:induction false} TraceAt(rows: nat, k: nat, i: nat, j: nat)
    requires i < rows && j <= Min(i, k)
    ensures Position(i, j, k) < |TraceUpTo(rows, k)|
    ensures TraceUpTo(rows, k)[Position(i, j, k)] == (i, j)
  {
    TraceLength(rows, k);
    TraceLength(rows - 1, k);
    var w := RowWidth(rows - 1, k);
    RowStepsAt(rows - 1, w);
    if i < rows - 1 {
      TraceAt(rows - 1, k, i, j);
      TraceLength(i + 1, k);
      CellsMonotone(i + 1, rows - 1, k);
    }
  }

  /** More rows never means fewer cells. */
  lemma {:induction false} CellsMonotone(r: nat, s: nat, k: nat)
    requires r <= s
    ensures CellsUpTo(r, k) <= CellsUpTo(s, k)
  {
    if r < s {
      CellsMonotone(r, s - 1, k);
    }
  }

  /** The recurrence for an interior cell (i, j) reads (i-1, j-1) and (i-1, j);
      both are cells the fill computes, and both are emitted earlier in the trace. */
  lemma ReadsPrecedeWrite(n: nat, k: nat, i: nat, j: nat)
    requires 0 < j < i <= n && j <= k
    ensures j - 1 <= Min(i - 1, k) && j <= Min(i - 1, k)
    ensures Position(i - 1, j - 1, k) < Position(i - 1, j, k) < Position(i, j, k) < |Steps(n, k)|
    ensures Steps(n, k)[Position(i - 1, j - 1, k)] == (i - 1, j - 1)
    ensures Steps(n, k)[Position(i - 1, j, k)] == (i - 1, j)
    ensures Steps(n, k)[Position(i, j, k)] == (i, j)
  {
    TraceAt(n + 1, k, i - 1, j - 1);
    TraceAt(n + 1, k, i - 1, j);
    TraceAt(n + 1, k, i, j);
  }

  /** Closed form of the step count for k <= n:
      1 + 2 + ... + (k + 1) for the rows up to k, then k + 1 for each of the n - k rows below. */
  lemma {:induction false} StepCount(n: nat, k: nat)
    requires k <= n
    ensures 2 * |Steps(n, k)| == (k + 1) * (k + 2) + 2 * (n - k) * (k + 1)
  {
    TraceLength(n + 1, k);
    CellsClosedForm(n + 1, k);
  }

  lemma {:induction false} CellsClosedForm(rows: nat, k: nat)
    requires k < rows
    ensures 2 * CellsUpTo(rows, k) == (k + 1) * (k + 2) + 2 * (rows - 1 - k) * (k + 1)
  {
    if rows == k + 1 {
      TriangularCells(rows, k);
    } else {
      CellsClosedForm(rows - 1, k);
    }
  }

  /** While rows <= k + 1 no row is cut short, so the count is triangular. */
  lemma {:induction false} TriangularCells(rows: nat, k: nat)
    requires rows <= k + 1
    ensures 2 * CellsUpTo(rows, k) == rows * (rows + 1)
  {
    if rows > 0 {
      TriangularCells(rows - 1, k);
    }
  }

  /** The run with n = 4, k = 2 emits 1 + 2 + 3 + 3 + 3 = 12 steps. */
  lemma StepCountExample()
    ensures |Steps(4, 2)| == 12
  {
  }
}
