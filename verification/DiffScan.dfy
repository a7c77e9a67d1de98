/** `compute_diff_runs`: the server's scan for the cells that differ from the acknowledged grid. */
module DiffScan {
  import opened Wire
  import opened Widths
  import opened Datagram
  import opened Paint
  import opened Packing

  predicate Changed(current: Grid, baseline: Grid, r: int, c: int) {
    InGrid(current, r, c) && !(InGrid(baseline, r, c) && baseline[r][c] == current[r][c])
  }

  ghost predicate NoWideCells(g: Grid) {
    forall r, c :: InGrid(g, r, c) ==> !g[r][c].wide
  }

  /** `runs` writes exactly the changed cells, each once and as it stands in `current`. */
  ghost predicate Describes(runs: seq<DiffRun>, current: Grid, baseline: Grid) {
    && (forall r, c, x :: Has(runs, r, c, x) <==> Changed(current, baseline, r, c) && x == current[r][c])
    && NonOverlapping(runs)
    && forall run :: run in runs ==> run.chars != []
  }

  // ---------- one run ----------

  predicate SameLook(x: Cell, run: DiffRun) {
    x.style == run.style && x.fg == run.fg && x.bg == run.bg
  }

  /** The characters of the cells that are not continuations, in order. */
  function Glyphs(cells: seq<Cell>): seq<scalar> {
    if cells == [] then []
    else
      var last := |cells| - 1;
      Glyphs(cells[..last]) + if cells[last].wide then [] else [cells[last].ch]
  }

  /** `run` holds the glyphs of the cells from its start up to `end`, all of them changed and alike in attributes. */
  ghost predicate Scanned(run: DiffRun, end: nat, current: Grid, baseline: Grid) {
    && run.row < |current| && run.startCol < end <= |current[run.row]|
    && !current[run.row][run.startCol].wide
    && run.chars == Glyphs(current[run.row][run.startCol..end])
    && forall c :: run.startCol <= c < end && !current[run.row][c].wide ==>
         Changed(current, baseline, run.row, c) && SameLook(current[run.row][c], run)
  }

  /** It could not have gone on: the row ends, or the next cell is unchanged or looks different. */
  predicate Maximal(run: DiffRun, end: nat, current: Grid, baseline: Grid) {
    InGrid(current, run.row, end) ==>
      !current[run.row][end].wide &&
      (!SameLook(current[run.row][end], run) || !Changed(current, baseline, run.row, end))
  }

  lemma GlyphsSnoc(row: seq<Cell>, start: nat, end: nat)
    requires start <= end < |row|
    ensures Glyphs(row[start..end + 1]) == Glyphs(row[start..end]) + if row[end].wide then [] else [row[end].ch]
  {
    assert row[start..end + 1][..end - start] == row[start..end];
  }

  lemma {:induction false} GlyphsLength(cells: seq<Cell>)
    ensures |Glyphs(cells)| <= |cells|
    ensures cells != [] && !cells[0].wide ==> Glyphs(cells) != []
  {
    if cells != [] {
      GlyphsLength(cells[..|cells| - 1]);
    }
  }

  /** One run: the changed cells from `start` on, as long as the attributes stay the same. */
  method TakeDiffRun(current: Grid, baseline: Grid, r: u16, start: u16) returns (run: DiffRun, col: nat)
    requires InGrid(current, r, start) && |current[r]| < 0x1_0000
    requires Changed(current, baseline, r, start) && !current[r][start].wide
    ensures run.row == r && run.startCol == start
    ensures Scanned(run, col, current, baseline) && Maximal(run, col, current, baseline)
  {
    var row := current[r];
    var first := row[start];
    run := DiffRun(r, start, first.style, first.fg, first.bg, []);
    col := start;
    while col < |row|
      invariant start <= col <= |row| && run == DiffRun(r, start, first.style, first.fg, first.bg, run.chars)
      invariant run.chars == Glyphs(row[start..col])
      invariant forall c :: start <= c < col && !row[c].wide ==> Changed(current, baseline, r, c) && SameLook(row[c], run)
      decreases |row| - col
    {
      GlyphsSnoc(row, start, col);
      if row[col].wide {
        col := col + 1;
        continue;
      }
      if row[col].style != run.style || row[col].fg != run.fg || row[col].bg != run.bg {
        break;
      }
      if !Changed(current, baseline, r, col) {
        break;
      }
      run := run.(chars := run.chars + [row[col].ch]);
      col := col + 1;
    }
  }

  // ---------- all runs ----------

  predicate InSpan(run: DiffRun, end: nat, r: int, c: int) {
    run.row == r && run.startCol <= c < end
  }

  /** Before row `rows`, or in it before column `cols`. */
  predicate Earlier(r: int, c: int, rows: int, cols: int) {
    r < rows || (r == rows && c < cols)
  }

  ghost predicate EndsBy(runs: seq<DiffRun>, ends: seq<nat>, rows: int, cols: int)
    requires |runs| == |ends|
  {
    forall i :: 0 <= i < |runs| ==> runs[i].row < rows || (runs[i].row == rows && ends[i] <= cols)
  }

  ghost predicate Spans(runs: seq<DiffRun>, ends: seq<nat>, current: Grid, baseline: Grid) {
    && |runs| == |ends|
    && (forall i :: 0 <= i < |runs| ==>
          Scanned(runs[i], ends[i], current, baseline) && Maximal(runs[i], ends[i], current, baseline))
    && forall i, j :: 0 <= i < j < |runs| ==>
         runs[i].row < runs[j].row || (runs[i].row == runs[j].row && ends[i] <= runs[j].startCol)
  }

  ghost predicate SpansReach(runs: seq<DiffRun>, ends: seq<nat>, current: Grid, baseline: Grid, rows: int, cols: int)
    requires |runs| == |ends|
  {
    forall r, c :: Changed(current, baseline, r, c) && !current[r][c].wide && Earlier(r, c, rows, cols) ==>
      exists i :: 0 <= i < |runs| && InSpan(runs[i], ends[i], r, c)
  }

  lemma AddSpan(runs: seq<DiffRun>, ends: seq<nat>, run: DiffRun, end: nat, current: Grid, baseline: Grid)
    requires Spans(runs, ends, current, baseline) && EndsBy(runs, ends, run.row, run.startCol)
    requires Scanned(run, end, current, baseline) && Maximal(run, end, current, baseline)
    ensures Spans(runs + [run], ends + [end], current, baseline) && EndsBy(runs + [run], ends + [end], run.row, end)
  {}

  lemma AddReach(runs: seq<DiffRun>, ends: seq<nat>, run: DiffRun, end: nat, current: Grid, baseline: Grid)
    requires |runs| == |ends| && SpansReach(runs, ends, current, baseline, run.row, run.startCol)
    ensures SpansReach(runs + [run], ends + [end], current, baseline, run.row, end)
  {
    var more, stops := runs + [run], ends + [end];
    forall r, c | Changed(current, baseline, r, c) && !current[r][c].wide && Earlier(r, c, run.row, end)
      ensures exists i :: 0 <= i < |more| && InSpan(more[i], stops[i], r, c)
    {
      if Earlier(r, c, run.row, run.startCol) {
        var i :| 0 <= i < |runs| && InSpan(runs[i], ends[i], r, c);
        assert more[i] == runs[i] && stops[i] == ends[i];
      } else {
        assert InSpan(more[|runs|], stops[|runs|], r, c);
      }
    }
  }

  /**
   The whole scan, for any grid: maximal runs in row order that do not touch each other, and every
   changed cell that is not a continuation lies in one of them. `ends` are where they end.
   */
  method ComputeDiffRuns(current: Grid, baseline: Grid) returns (runs: seq<DiffRun>, ghost ends: seq<nat>)
    requires |current| < 0x1_0000 && forall r :: 0 <= r < |current| ==> |current[r]| < 0x1_0000
    ensures Spans(runs, ends, current, baseline) && SpansReach(runs, ends, current, baseline, |current|, 0)
    ensures NoWideCells(current) ==> Describes(runs, current, baseline)
  {
    runs, ends := [], [];
    for r := 0 to |current|
      invariant Spans(runs, ends, current, baseline) && EndsBy(runs, ends, r, 0)
      invariant SpansReach(runs, ends, current, baseline, r, 0)
    {
      var row := current[r];
      var col := 0;
      while col < |row|
        invariant 0 <= col <= |row|
        invariant Spans(runs, ends, current, baseline) && EndsBy(runs, ends, r, col)
        invariant SpansReach(runs, ends, current, baseline, r, col)
      {
        if !Changed(current, baseline, r, col) || row[col].wide {
          col := col + 1;
          continue;
        }
        var run, next := TakeDiffRun(current, baseline, r, col);
        AddSpan(runs, ends, run, next, current, baseline);
        AddReach(runs, ends, run, next, current, baseline);
        GlyphsLength(row[col..next]);
        if run.chars != [] {
          runs, ends := runs + [run], ends + [next];
        }
        col := next;
      }
    }
    if NoWideCells(current) {
      SpansDescribe(runs, ends, current, baseline);
    }
  }

  // ---------- without continuation cells ----------

  lemma {:induction false} GlyphsOfNarrow(cells: seq<Cell>)
    requires forall i :: 0 <= i < |cells| ==> !cells[i].wide
    ensures |Glyphs(cells)| == |cells| && forall i :: 0 <= i < |cells| ==> Glyphs(cells)[i] == cells[i].ch
  {
    if cells != [] { GlyphsOfNarrow(cells[..|cells| - 1]); }
  }

  lemma ScannedCells(run: DiffRun, end: nat, current: Grid, baseline: Grid, r: int, c: int, x: Cell)
    requires Scanned(run, end, current, baseline) && NoWideCells(current)
    ensures end == run.startCol + |run.chars| && run.chars != []
    ensures RunHas(run, r, c, x) <==> InSpan(run, end, r, c) && x == current[r][c]
  {
    var cells := current[run.row][run.startCol..end];
    assert forall i :: 0 <= i < |cells| ==> InGrid(current, run.row, run.startCol + i) && cells[i] == current[run.row][run.startCol + i];
    GlyphsOfNarrow(cells);
    if InSpan(run, end, r, c) {
      assert cells[c - run.startCol] == current[r][c] && InGrid(current, r, c);
    }
  }

  lemma {:induction false} SpansDoNotOverlap(runs: seq<DiffRun>, ends: seq<nat>, current: Grid, baseline: Grid, r: int, c: int)
    requires Spans(runs, ends, current, baseline) && NoWideCells(current)
    ensures Cover(runs, r, c) <= 1
    decreases |runs|
  {
    if runs != [] {
      var last := |runs| - 1;
      SpansDoNotOverlap(runs[..last], ends[..last], current, baseline, r, c);
      SumAppend(CoverOf(r, c), runs[..last], runs[last]);
      assert runs == runs[..last] + [runs[last]];
      CoverIffHas(runs[..last], r, c);
      if RunCovers(runs[last], r, c) && Cover(runs[..last], r, c) > 0 {
        var x :| Has(runs[..last], r, c, x);
        var i :| 0 <= i < last && RunHas(runs[i], r, c, x);
        ScannedCells(runs[i], ends[i], current, baseline, r, c, x);
        assert false;
      }
    }
  }

  lemma SpansDescribe(runs: seq<DiffRun>, ends: seq<nat>, current: Grid, baseline: Grid)
    requires Spans(runs, ends, current, baseline) && SpansReach(runs, ends, current, baseline, |current|, 0)
    requires NoWideCells(current)
    ensures Describes(runs, current, baseline)
  {
    forall r, c, x
      ensures Has(runs, r, c, x) <==> Changed(current, baseline, r, c) && x == current[r][c]
    {
      if run :| run in runs && RunHas(run, r, c, x) {
        var i :| 0 <= i < |runs| && runs[i] == run;
        ScannedCells(run, ends[i], current, baseline, r, c, x);
        assert InGrid(current, r, c);
      }
      if Changed(current, baseline, r, c) && x == current[r][c] {
        assert Earlier(r, c, |current|, 0);
        var i :| 0 <= i < |runs| && InSpan(runs[i], ends[i], r, c);
        ScannedCells(runs[i], ends[i], current, baseline, r, c, x);
        assert runs[i] in runs;
      }
    }
    forall r, c
      ensures Cover(runs, r, c) <= 1
    {
      SpansDoNotOverlap(runs, ends, current, baseline, r, c);
    }
    forall run | run in runs
      ensures run.chars != []
    {
      var i :| 0 <= i < |runs| && runs[i] == run;
      ScannedCells(run, ends[i], current, baseline, 0, 0, BLANK);
    }
  }

  // ---------- with wide glyphs ----------

  /** How the server's terminal lays out a row: a wide glyph, and only it, is followed by its continuation cell. */
  ghost predicate Paired(w: WidthTable, row: seq<Cell>) {
    forall c :: 0 <= c < |row| ==>
      && (row[c].wide <==> c > 0 && !row[c - 1].wide && IsWide(w, row[c - 1].ch))
      && (row[c].wide ==> row[c] == Cell(SPACE, row[c - 1].style, row[c - 1].fg, row[c - 1].bg, true))
  }

  lemma {:induction false} GlyphsConcat(a: seq<Cell>, b: seq<Cell>)
    ensures Glyphs(a + b) == Glyphs(a) + Glyphs(b)
    decreases |b|
  {
    if b == [] {
      assert a + b == a;
    } else {
      var last := |b| - 1;
      GlyphsConcat(a, b[..last]);
      assert (a + b)[..|a + b| - 1] == a + b[..last];
    }
  }

  lemma GlyphsPrefix(row: seq<Cell>, start: nat, at: nat, end: nat)
    requires start <= at <= end <= |row|
    ensures Glyphs(row[start..at]) <= Glyphs(row[start..end])
    ensures at == end || row[at].wide || Glyphs(row[start..at]) + [row[at].ch] <= Glyphs(row[start..end])
  {
    assert row[start..end] == row[start..at] + row[at..end];
    GlyphsConcat(row[start..at], row[at..end]);
    if at < end {
      GlyphsSnoc(row, start, at);
      assert row[start..end] == row[start..at + 1] + row[at + 1..end];
      GlyphsConcat(row[start..at + 1], row[at + 1..end]);
    }
  }

  /** Up to the first wide glyph of a run, its characters stand one per cell. */
  lemma {:induction false} GlyphAt(w: WidthTable, row: seq<Cell>, start: nat, end: nat, m: nat)
    requires Paired(w, row) && start < end <= |row| && !row[start].wide
    requires var chars := Glyphs(row[start..end]); m < |chars| && forall i :: 0 <= i < m ==> !IsWide(w, chars[i])
    ensures start + m < end && !row[start + m].wide && row[start + m].ch == Glyphs(row[start..end])[m]
    ensures |Glyphs(row[start..start + m + 1])| == m + 1
  {
    if m > 0 {
      GlyphAt(w, row, start, end, m - 1);
    }
    var at := start + m;
    assert m == 0 ==> row[start..at] == [];
    assert at < end;
    GlyphsPrefix(row, start, at, end);
    GlyphsSnoc(row, start, at);
  }

  /** Painting the run over `have` gives the cells it was scanned from. */
  ghost predicate Reproduces(w: WidthTable, run: DiffRun, have: seq<Cell>, end: nat, row: seq<Cell>)
    requires end <= |row| == |have|
  {
    forall c :: run.startCol <= c < end ==> PaintCell(w, run, run.row, c, have[c]) == row[c]
  }

  lemma ReproducesGlyph(w: WidthTable, run: DiffRun, end: nat, current: Grid, baseline: Grid, m: nat)
    requires Scanned(run, end, current, baseline) && Paired(w, current[run.row])
    requires m < |run.chars| && forall i :: 0 <= i < m ==> !IsWide(w, run.chars[i])
    ensures run.startCol + m < end
    ensures current[run.row][run.startCol + m] == Cell(run.chars[m], run.style, run.fg, run.bg, false)
  {
    GlyphAt(w, current[run.row], run.startCol, end, m);
  }

  lemma NoGlyphLeft(row: seq<Cell>, start: nat, at: nat, end: nat, c: nat)
    requires start <= at <= c < end <= |row| && |Glyphs(row[start..at])| == |Glyphs(row[start..end])|
    ensures row[c].wide
  {
    GlyphsPrefix(row, start, at, c);
    GlyphsPrefix(row, start, c, end);
  }

  /** After the last glyph there is at most its continuation cell. */
  lemma SpanEnd(w: WidthTable, run: DiffRun, end: nat, current: Grid, baseline: Grid)
    requires Scanned(run, end, current, baseline) && Paired(w, current[run.row])
    requires forall i :: 0 <= i < |run.chars| - 1 ==> !IsWide(w, run.chars[i])
    ensures run.chars != [] && end <= run.startCol + |run.chars| + 1
    ensures end == run.startCol + |run.chars| + 1 ==> current[run.row][end - 1].wide && IsWide(w, run.chars[|run.chars| - 1])
  {
    var row, start := current[run.row], run.startCol as nat;
    GlyphsLength(row[start..end]);
    var at := start + |run.chars|;
    GlyphAt(w, row, start, end, |run.chars| - 1);
    if at < end { NoGlyphLeft(row, start, at, end, at); }
    if at + 1 < end { NoGlyphLeft(row, start, at, end, at + 1); }
  }

  /**
   Painting a scanned run gives back the cells it was scanned from if and only if no wide glyph
   comes before another character in it: the client gives every character one column.
   */
  lemma ScannedReproducesIff(w: WidthTable, run: DiffRun, end: nat, current: Grid, baseline: Grid, have: seq<Cell>)
    requires Scanned(run, end, current, baseline) && Paired(w, current[run.row]) && |have| == |current[run.row]|
    ensures Reproduces(w, run, have, end, current[run.row]) <==>
            forall i :: 0 <= i < |run.chars| - 1 ==> !IsWide(w, run.chars[i])
  {
    var row := current[run.row];
    if forall i :: 0 <= i < |run.chars| - 1 ==> !IsWide(w, run.chars[i]) {
      SpanEnd(w, run, end, current, baseline);
      forall c | run.startCol <= c < end
        ensures PaintCell(w, run, run.row, c, have[c]) == row[c]
      {
        ReproducesGlyph(w, run, end, current, baseline, if c < run.startCol + |run.chars| then c - run.startCol else |run.chars| - 1);
      }
    } else {
      var i := FirstWide(w, run.chars);
      ReproducesGlyph(w, run, end, current, baseline, i);
      WideInside(w, run, end, current, baseline, i);
      assert PaintCell(w, run, run.row, run.startCol + i + 1, have[run.startCol + i + 1]) != row[run.startCol + i + 1];
    }
  }

  lemma {:induction false} FirstWide(w: WidthTable, chars: seq<scalar>) returns (i: nat)
    requires exists k :: 0 <= k < |chars| - 1 && IsWide(w, chars[k])
    ensures i < |chars| - 1 && IsWide(w, chars[i]) && forall k :: 0 <= k < i ==> !IsWide(w, chars[k])
  {
    i := 0;
    while !IsWide(w, chars[i])
      invariant i < |chars| - 1 && forall k :: 0 <= k < i ==> !IsWide(w, chars[k])
      decreases |chars| - i
    {
      i := i + 1;
    }
  }

  lemma WideInside(w: WidthTable, run: DiffRun, end: nat, current: Grid, baseline: Grid, i: nat)
    requires Scanned(run, end, current, baseline) && Paired(w, current[run.row]) && i < |run.chars| - 1
    requires IsWide(w, run.chars[i]) && forall k :: 0 <= k < i ==> !IsWide(w, run.chars[k])
    ensures run.startCol + i + 1 < end && current[run.row][run.startCol + i + 1].wide
  {
    var row := current[run.row];
    GlyphAt(w, row, run.startCol, end, i);
  }
}
