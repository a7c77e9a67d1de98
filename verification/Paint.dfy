/**
 What a list of runs means: the cells it writes, and the grid that painting it
 produces (the run loop of `ClientScreen::apply`).
 */
module Paint {
  import opened Wire
  import opened Widths
  import opened Datagram

  datatype Cell = Cell(ch: scalar, style: byte, fg: Option<byte>, bg: Option<byte>, wide: bool)

  type Grid = seq<seq<Cell>>

  const SPACE: scalar := 32
  const BLANK: Cell := Cell(SPACE, 0, None, None, false)

  ghost predicate Rectangular(g: Grid, cols: nat, rows: nat) {
    |g| == rows && forall r :: 0 <= r < |g| ==> |g[r]| == cols
  }

  function BlankGrid(cols: nat, rows: nat): (g: Grid) {
    seq(rows, _ => seq(cols, _ => BLANK))
  }

  predicate InGrid(g: Grid, r: int, c: int) {
    0 <= r < |g| && 0 <= c < |g[r]|
  }

  // ---------- the cells that a list of runs writes ----------

  /** `run` writes `x` at row `r`, column `c`. */
  predicate RunHas(run: DiffRun, r: int, c: int, x: Cell) {
    && run.row == r
    && run.startCol <= c < run.startCol + |run.chars|
    && x == Cell(run.chars[c - run.startCol], run.style, run.fg, run.bg, false)
  }

  ghost predicate Has(runs: seq<DiffRun>, r: int, c: int, x: Cell) {
    exists run :: run in runs && RunHas(run, r, c, x)
  }

  /** Runs that cover the same cell agree on it; non-overlapping runs are a special case. */
  ghost predicate Consistent(runs: seq<DiffRun>) {
    forall r, c, x, y :: Has(runs, r, c, x) && Has(runs, r, c, y) ==> x == y
  }

  ghost predicate SameCells(a: seq<DiffRun>, b: seq<DiffRun>) {
    forall r, c, x :: Has(a, r, c, x) <==> Has(b, r, c, x)
  }

  /** No character of width 2. */
  ghost predicate NoWide(w: WidthTable, runs: seq<DiffRun>) {
    forall run :: run in runs ==> forall ch :: ch in run.chars ==> !IsWide(w, ch)
  }

  // ---------- painting ----------

  /** The cell at (`r`, `c`) after `run` is painted over `have`. */
  function PaintCell(w: WidthTable, run: DiffRun, r: int, c: int, have: Cell): Cell {
    if run.row != r then have
    else if run.startCol <= c < run.startCol + |run.chars| then
      Cell(run.chars[c - run.startCol], run.style, run.fg, run.bg, false)
    else if |run.chars| > 0 && c == run.startCol + |run.chars| && IsWide(w, run.chars[|run.chars| - 1]) then
      Cell(SPACE, run.style, run.fg, run.bg, true)
    else have
  }

  function PaintRun(w: WidthTable, g: Grid, run: DiffRun): (h: Grid)
    ensures |h| == |g| && forall r :: 0 <= r < |g| ==> |h[r]| == |g[r]|
  {
    seq(|g|, r requires 0 <= r < |g| =>
      seq(|g[r]|, c requires 0 <= c < |g[r]| => PaintCell(w, run, r, c, g[r][c])))
  }

  function PaintRuns(w: WidthTable, g: Grid, runs: seq<DiffRun>): (h: Grid)
    ensures |h| == |g| && forall r :: 0 <= r < |g| ==> |h[r]| == |g[r]|
    decreases |runs|
  {
    if runs == [] then g
    else
      var last := |runs| - 1;
      PaintRun(w, PaintRuns(w, g, runs[..last]), runs[last])
  }

  lemma {:induction false} PaintRunsConcat(w: WidthTable, g: Grid, a: seq<DiffRun>, b: seq<DiffRun>)
    ensures PaintRuns(w, g, a + b) == PaintRuns(w, PaintRuns(w, g, a), b)
    decreases |b|
  {
    if b == [] {
      assert a + b == a;
    } else {
      var last := |b| - 1;
      PaintRunsConcat(w, g, a, b[..last]);
      assert (a + b)[..|a + b| - 1] == a + b[..last];
    }
  }

  /** A painted cell holds what some run writes there, or is untouched. */
  lemma {:induction false} PaintedCell(w: WidthTable, g: Grid, runs: seq<DiffRun>, r: int, c: int)
    requires NoWide(w, runs) && InGrid(g, r, c)
    ensures var x := PaintRuns(w, g, runs)[r][c];
            Has(runs, r, c, x) || (x == g[r][c] && forall y :: !Has(runs, r, c, y))
    decreases |runs|
  {
    if runs != [] {
      var last := |runs| - 1;
      var run := runs[last];
      PaintedCell(w, g, runs[..last], r, c);
      var x := PaintRuns(w, g, runs)[r][c];
      if run.row == r && run.startCol <= c < run.startCol + |run.chars| {
        assert run in runs && RunHas(run, r, c, x);
      } else {
        forall y
          ensures Has(runs, r, c, y) <==> Has(runs[..last], r, c, y)
        {
          assert forall q :: q in runs <==> q in runs[..last] || q == run;
        }
      }
    }
  }

  /** Painting depends only on the cells written, not on the order of the runs or how they are cut. */
  lemma SameCellsPaintTheSame(w: WidthTable, g: Grid, a: seq<DiffRun>, b: seq<DiffRun>)
    requires NoWide(w, a) && NoWide(w, b) && Consistent(a) && SameCells(a, b)
    ensures PaintRuns(w, g, a) == PaintRuns(w, g, b)
  {
    var p, q := PaintRuns(w, g, a), PaintRuns(w, g, b);
    forall r | 0 <= r < |g|
      ensures p[r] == q[r]
    {
      forall c | 0 <= c < |g[r]|
        ensures p[r][c] == q[r][c]
      {
        PaintedCell(w, g, a, r, c);
        PaintedCell(w, g, b, r, c);
        assert Has(b, r, c, q[r][c]) ==> Has(a, r, c, q[r][c]);
      }
    }
  }
}
