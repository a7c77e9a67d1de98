/**
 The client framebuffer (crates/nosh-client/src/screen.rs), as a value: what
 `apply` and `resize` do, and what duplicated and reordered diffs do to it.
 */
module Screen {
  import opened Wire
  import opened Widths
  import opened Datagram
  import opened Paint

  const MAX_TERMINAL_COLS: u16 := 512
  const MAX_TERMINAL_ROWS: u16 := 256

  datatype ScreenState = ScreenState(
    cols: u16, rows: u16,
    confirmed: Grid, confirmedCursor: CursorPos,
    physical: Grid, physicalCursor: CursorPos,
    lastAppliedEpoch: u64)

  ghost predicate Valid(s: ScreenState) {
    Rectangular(s.confirmed, s.cols, s.rows) && Rectangular(s.physical, s.cols, s.rows)
  }

  function NewScreen(cols: u16, rows: u16): (s: ScreenState)
    ensures Valid(s)
  {
    ScreenState(cols, rows, BlankGrid(cols, rows), CursorPos(0, 0), BlankGrid(cols, rows), CursorPos(0, 0), 0)
  }

  function Min(a: nat, b: nat): nat {
    if a < b then a else b
  }

  /** Truncate or extend with blanks. */
  function ResizeGrid(g: Grid, cols: nat, rows: nat): (h: Grid)
    ensures Rectangular(h, cols, rows)
  {
    seq(rows, r requires 0 <= r => seq(cols, c requires 0 <= c => if InGrid(g, r, c) then g[r][c] else BLANK))
  }

  function ResizeScreen(s: ScreenState, cols: u16, rows: u16): (t: ScreenState)
    ensures Valid(t)
  {
    var clamped := CursorPos(Min(s.confirmedCursor.row, SaturatingSub(rows, 1)),
                             Min(s.confirmedCursor.col, SaturatingSub(cols, 1)));
    s.(cols := cols, rows := rows,
       confirmed := ResizeGrid(s.confirmed, cols, rows), confirmedCursor := clamped,
       physical := BlankGrid(cols, rows), physicalCursor := CursorPos(0, 0))
  }

  predicate Stale(s: ScreenState, d: StateDiff) {
    d.epoch == 0 || d.epoch < s.lastAppliedEpoch
  }

  predicate PlausibleSize(d: StateDiff) {
    0 < d.cols <= MAX_TERMINAL_COLS && 0 < d.rows <= MAX_TERMINAL_ROWS
  }

  function FitTo(s: ScreenState, d: StateDiff): ScreenState {
    if d.cols != s.cols || d.rows != s.rows then ResizeScreen(s, d.cols, d.rows) else s
  }

  function ApplyDiff(w: WidthTable, s: ScreenState, d: StateDiff): (t: ScreenState)
    ensures Valid(s) ==> Valid(t)
  {
    if Stale(s, d) || !PlausibleSize(d) then s
    else
      var f := FitTo(s, d);
      f.(confirmed := PaintRuns(w, f.confirmed, d.runs), confirmedCursor := d.cursor, lastAppliedEpoch := d.epoch)
  }

  function ApplyAll(w: WidthTable, s: ScreenState, ds: seq<StateDiff>): (t: ScreenState)
    decreases |ds|
  {
    if ds == [] then s else ApplyDiff(w, ApplyAll(w, s, ds[..|ds| - 1]), ds[|ds| - 1])
  }

  // ---------- resizing and applying, cell by cell ----------

  /** The content kept at a cell of a screen that may have been smaller: what was there, or blank. */
  function Kept(g: Grid, r: int, c: int): Cell {
    if 0 <= r < |g| && 0 <= c < |g[r]| then g[r][c] else BLANK
  }

  /** A resize keeps every confirmed cell that is inside both sizes; the cursor moves only if it would be outside. */
  lemma ResizeKeeps(s: ScreenState, cols: u16, rows: u16, r: nat, c: nat)
    requires r < rows && c < cols
    ensures var t := ResizeScreen(s, cols, rows);
            && t.cols == cols && t.rows == rows && t.lastAppliedEpoch == s.lastAppliedEpoch
            && InGrid(t.confirmed, r, c) && t.confirmed[r][c] == Kept(s.confirmed, r, c)
            && t.confirmedCursor.row == (if s.confirmedCursor.row < rows then s.confirmedCursor.row else rows - 1)
            && t.confirmedCursor.col == (if s.confirmedCursor.col < cols then s.confirmedCursor.col else cols - 1)
  {}

  lemma SameCellsSameGrid(g: Grid, h: Grid, cols: nat, rows: nat)
    requires Rectangular(g, cols, rows) && Rectangular(h, cols, rows)
    requires forall r, c :: 0 <= r < rows && 0 <= c < cols ==> Kept(g, r, c) == Kept(h, r, c)
    ensures g == h
  {
    forall r | 0 <= r < rows
      ensures g[r] == h[r]
    {
      forall c | 0 <= c < cols
        ensures g[r][c] == h[r][c]
      {
        assert Kept(g, r, c) == Kept(h, r, c);
      }
    }
  }

  /** Growing a screen and shrinking it back restores it, with a cursor that was on it; two resizes down are one. */
  lemma ResizeAndBack(s: ScreenState, cols: u16, rows: u16)
    requires Valid(s) && s.cols <= cols && s.rows <= rows
    requires s.confirmedCursor.row < s.rows && s.confirmedCursor.col < s.cols
    ensures var t := ResizeScreen(ResizeScreen(s, cols, rows), s.cols, s.rows);
            t.confirmed == s.confirmed && t.confirmedCursor == s.confirmedCursor && t.cols == s.cols && t.rows == s.rows
  {
    var u := ResizeScreen(s, cols, rows);
    var t := ResizeScreen(u, s.cols, s.rows);
    forall r, c | 0 <= r < s.rows && 0 <= c < s.cols
      ensures Kept(t.confirmed, r, c) == Kept(s.confirmed, r, c)
    {
      ResizeKeeps(s, cols, rows, r, c);
      ResizeKeeps(u, s.cols, s.rows, r, c);
    }
    SameCellsSameGrid(t.confirmed, s.confirmed, s.cols, s.rows);
    if s.rows > 0 && s.cols > 0 {
      ResizeKeeps(s, cols, rows, 0, 0);
      ResizeKeeps(u, s.cols, s.rows, 0, 0);
    }
  }

  /**
   Applying a diff. It is refused, without any change, exactly for epoch 0, an older epoch, or a size
   outside 1 to 512 columns and 1 to 256 rows. Otherwise the screen takes the size, cursor and epoch of the
   diff, and every cell holds what some run writes there or, if none does, what it held before.
   */
  lemma AppliedCell(w: WidthTable, s: ScreenState, d: StateDiff, r: nat, c: nat)
    requires NoWide(w, d.runs) && Valid(s) && r < d.rows && c < d.cols
    ensures var t := ApplyDiff(w, s, d);
            if d.epoch == 0 || d.epoch < s.lastAppliedEpoch || d.cols > 512 || d.rows > 256 then t == s
            else
              && t.cols == d.cols && t.rows == d.rows && t.confirmedCursor == d.cursor && t.lastAppliedEpoch == d.epoch
              && InGrid(t.confirmed, r, c)
              && (Has(d.runs, r, c, t.confirmed[r][c]) ||
                  (t.confirmed[r][c] == Kept(s.confirmed, r, c) && forall x :: !Has(d.runs, r, c, x)))
  {
    var f := FitTo(s, d);
    assert InGrid(f.confirmed, r, c);
    if d.cols != s.cols || d.rows != s.rows { ResizeKeeps(s, d.cols, d.rows, r, c); }
    PaintedCell(w, f.confirmed, d.runs, r, c);
  }

  // ---------- duplication and reordering ----------

  /** A painted cell either does not depend on the grid painted over, or is that grid's cell. */
  lemma {:induction false} PaintForgetsOrKeeps(w: WidthTable, g: Grid, h: Grid, runs: seq<DiffRun>, r: int, c: int)
    requires InGrid(g, r, c) && InGrid(h, r, c)
    ensures var p, q := PaintRuns(w, g, runs)[r][c], PaintRuns(w, h, runs)[r][c];
            p == q || (p == g[r][c] && q == h[r][c])
    decreases |runs|
  {
    if runs != [] {
      PaintForgetsOrKeeps(w, g, h, runs[..|runs| - 1], r, c);
    }
  }

  lemma PaintTwice(w: WidthTable, g: Grid, runs: seq<DiffRun>)
    ensures PaintRuns(w, PaintRuns(w, g, runs), runs) == PaintRuns(w, g, runs)
  {
    var h := PaintRuns(w, g, runs);
    var k := PaintRuns(w, h, runs);
    forall r | 0 <= r < |g|
      ensures k[r] == h[r]
    {
      forall c | 0 <= c < |g[r]|
        ensures k[r][c] == h[r][c]
      {
        PaintForgetsOrKeeps(w, g, h, runs, r, c);
      }
    }
  }

  /** Applying any diff twice is applying it once; a diff of an older epoch, or of epoch 0, changes nothing. */
  lemma ApplyTwiceIsOnce(w: WidthTable, s: ScreenState, d: StateDiff)
    ensures ApplyDiff(w, ApplyDiff(w, s, d), d) == ApplyDiff(w, s, d)
    ensures Stale(s, d) ==> ApplyDiff(w, s, d) == s
  {
    PaintTwice(w, FitTo(s, d).confirmed, d.runs);
  }

  function AllRuns(ds: seq<StateDiff>): (runs: seq<DiffRun>)
    decreases |ds|
  {
    if ds == [] then [] else AllRuns(ds[..|ds| - 1]) + ds[|ds| - 1].runs
  }

  predicate SameHeader(a: StateDiff, b: StateDiff) {
    a.(runs := []) == b.(runs := [])
  }

  /** Diffs that share a header act as one diff that carries all their runs. */
  lemma {:induction false} ApplyAllIsOneApply(w: WidthTable, s: ScreenState, ds: seq<StateDiff>, d: StateDiff)
    requires ds != [] && forall e :: e in ds ==> SameHeader(e, d)
    ensures ApplyAll(w, s, ds) == ApplyDiff(w, s, d.(runs := AllRuns(ds)))
    decreases |ds|
  {
    var last := |ds| - 1;
    var f := FitTo(s, d);
    if last == 0 {
      assert ds[..0] == [] && AllRuns(ds) == ds[0].runs;
      assert SameHeader(ds[0], d);
    } else {
      ApplyAllIsOneApply(w, s, ds[..last], d);
      PaintRunsConcat(w, f.confirmed, AllRuns(ds[..last]), ds[last].runs);
      assert SameHeader(ds[last], d);
    }
  }

  lemma {:induction false} AllRunsHas(ds: seq<StateDiff>, r: int, c: int, x: Cell)
    ensures Has(AllRuns(ds), r, c, x) <==> exists e :: e in ds && Has(e.runs, r, c, x)
    decreases |ds|
  {
    if ds != [] {
      var last := |ds| - 1;
      AllRunsHas(ds[..last], r, c, x);
      var a, b := AllRuns(ds[..last]), ds[last].runs;
      assert forall q :: q in a + b <==> q in a || q in b;
      assert forall e :: e in ds <==> e in ds[..last] || e == ds[last];
    }
  }

  /**
   Diffs of one tick (one header, agreeing cells) may arrive in any order and any
   number of times: only the set of diffs that arrive matters.
   */
  lemma OrderAndDuplicatesDoNotMatter(w: WidthTable, s: ScreenState, a: seq<StateDiff>, b: seq<StateDiff>, d: StateDiff)
    requires a != [] && (forall e :: e in a ==> SameHeader(e, d))
    requires forall e :: e in a <==> e in b
    requires NoWide(w, AllRuns(a)) && NoWide(w, AllRuns(b)) && Consistent(AllRuns(a))
    ensures ApplyAll(w, s, a) == ApplyAll(w, s, b)
  {
    assert a[0] in b;
    ApplyAllIsOneApply(w, s, a, d);
    ApplyAllIsOneApply(w, s, b, d);
    forall r, c, x
      ensures Has(AllRuns(a), r, c, x) <==> Has(AllRuns(b), r, c, x)
    {
      AllRunsHas(a, r, c, x);
      AllRunsHas(b, r, c, x);
    }
    SameCellsPaintTheSame(w, FitTo(s, d).confirmed, AllRuns(a), AllRuns(b));
  }
}
