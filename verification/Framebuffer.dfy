/** `ClientScreen`: the object whose methods update the two grids in place and emit terminal bytes. */
module Framebuffer {
  import opened Wire
  import opened Widths
  import opened Datagram
  import opened Paint
  import opened Packing
  import opened Screen
  import opened Terminal
  import opened Render
  import opened Predictor
  import opened Client

  /** A run painted into the row it is on. */
  function PaintRow(w: WidthTable, run: DiffRun, row: seq<Cell>): seq<Cell> {
    seq(|row|, c requires 0 <= c < |row| => PaintCell(w, run, run.row, c, row[c]))
  }

  lemma PaintRunIsPaintRow(w: WidthTable, g: Grid, run: DiffRun)
    ensures PaintRun(w, g, run) == if run.row < |g| then g[run.row := PaintRow(w, run, g[run.row])] else g
  {
    var h := PaintRun(w, g, run);
    forall r | 0 <= r < |g| && r != run.row
      ensures h[r] == g[r]
    {}
  }

  /** The inner loop of `apply`: character by character, with the continuation cell of a wide glyph. */
  method PaintChars(w: WidthTable, run: DiffRun, row: seq<Cell>) returns (cells: seq<Cell>)
    ensures cells == PaintRow(w, run, row)
  {
    cells := row;
    for i := 0 to |run.chars|
      invariant |cells| == |row|
      invariant forall c :: 0 <= c < |row| ==> cells[c] == PaintCell(w, LeftPart(run, i), run.row, c, row[c])
    {
      var col: nat := run.startCol + i;
      if col >= |cells| {
        break;
      }
      var ch := run.chars[i];
      cells := cells[col := Cell(ch, run.style, run.fg, run.bg, false)];
      if IsWide(w, ch) && col + 1 < |cells| {
        cells := cells[col + 1 := Cell(SPACE, run.style, run.fg, run.bg, true)];
      }
    }
  }

  method EmitCell(want: Cell, r: u16, c: u16, pen: Pen) returns (out: seq<byte>)
    ensures out == CellBytes(want, r, c, pen)
  {
    out := [];
    if pen.at != Some((r, c)) {
      out := out + MoveToBytes(r, c);
    }
    if pen.look != Some((want.style, want.fg, want.bg)) {
      out := out + SgrBytes(want.style, want.fg, want.bg);
    }
    out := out + Utf8(want.ch);
  }

  lemma DrawNext(desired: Grid, physical: Grid, r: nat, c: nat, pen: Pen, out: seq<byte>)
    requires SameShape(desired, physical) && InGrid(desired, r, c) && !Skips(desired[r][c], physical[r][c])
    ensures out + CellsFrom(desired, physical, r, c, pen)
            == (out + CellBytes(desired[r][c], r, c, pen))
               + CellsFrom(desired, physical, r, c + 1, PenAfter(desired[r][c], r, c))
  {
    ConcatAssociates(out, CellBytes(desired[r][c], r, c, pen),
                     CellsFrom(desired, physical, r, c + 1, PenAfter(desired[r][c], r, c)));
  }

  /** A row cut or extended to `cols` cells. */
  function FitRow(row: seq<Cell>, cols: nat): (r: seq<Cell>)
    ensures |r| == cols
    ensures forall c :: 0 <= c < cols ==> r[c] == if c < |row| then row[c] else BLANK
  {
    if |row| > cols then row[..cols] else row + seq(cols - |row|, _ => BLANK)
  }

  class ClientScreen {
    var cols: u16
    var rows: u16
    var confirmed: Grid
    var confirmedCursor: CursorPos
    var physical: Grid
    var physicalCursor: CursorPos
    var lastAppliedEpoch: u64

    function State(): ScreenState
      reads this
    {
      ScreenState(cols, rows, confirmed, confirmedCursor, physical, physicalCursor, lastAppliedEpoch)
    }

    constructor (cols: u16, rows: u16)
      ensures State() == NewScreen(cols, rows)
    {
      this.cols, this.rows := cols, rows;
      confirmed, physical := BlankGrid(cols, rows), BlankGrid(cols, rows);
      confirmedCursor, physicalCursor := CursorPos(0, 0), CursorPos(0, 0);
      lastAppliedEpoch := 0;
    }

    method Resize(cols: u16, rows: u16)
      modifies this
      ensures State() == ResizeScreen(old(State()), cols, rows)
    {
      ghost var before := confirmed;
      for r := 0 to |confirmed|
        invariant |confirmed| == |before|
        invariant forall i :: 0 <= i < r ==> confirmed[i] == FitRow(before[i], cols)
        invariant forall i :: r <= i < |before| ==> confirmed[i] == before[i]
        invariant State() == old(State()).(confirmed := confirmed)
      {
        confirmed := confirmed[r := FitRow(confirmed[r], cols)];
      }
      if |confirmed| > rows {
        confirmed := confirmed[..rows];
      } else {
        confirmed := confirmed + seq(rows - |confirmed|, _ => seq(cols, _ => BLANK));
      }
      forall r | 0 <= r < rows
        ensures confirmed[r] == ResizeGrid(before, cols, rows)[r]
      {
        assert r < |before| ==> confirmed[r] == FitRow(before[r], cols);
      }
      assert confirmed == ResizeGrid(before, cols, rows);
      physical := BlankGrid(cols, rows);
      this.cols, this.rows := cols, rows;
      confirmedCursor := CursorPos(Min(confirmedCursor.row, SaturatingSub(rows, 1)),
                                   Min(confirmedCursor.col, SaturatingSub(cols, 1)));
      physicalCursor := CursorPos(0, 0);
    }

    method PaintAllRuns(w: WidthTable, runs: seq<DiffRun>)
      modifies `confirmed
      ensures confirmed == PaintRuns(w, old(confirmed), runs)
    {
      for i := 0 to |runs|
        invariant confirmed == PaintRuns(w, old(confirmed), runs[..i])
      {
        var run := runs[i];
        PaintRunIsPaintRow(w, confirmed, run);
        assert runs[..i + 1][..i] == runs[..i];
        if run.row >= |confirmed| {
          continue;
        }
        var cells := PaintChars(w, run, confirmed[run.row]);
        confirmed := confirmed[run.row := cells];
      }
      assert runs[..|runs|] == runs;
    }

    method Apply(w: WidthTable, d: StateDiff)
      modifies this
      ensures State() == ApplyDiff(w, old(State()), d)
    {
      if d.epoch == 0 || d.epoch < lastAppliedEpoch {
        return;
      }
      if !PlausibleSize(d) {
        return;
      }
      if d.cols != cols || d.rows != rows {
        Resize(d.cols, d.rows);
      }
      PaintAllRuns(w, d.runs);
      confirmedCursor := d.cursor;
      lastAppliedEpoch := d.epoch;
    }

    /** The emitter: `pen` is where the terminal's cursor and rendition are known to be. */
    method EmitCells(desired: Grid) returns (out: seq<byte>)
      requires Valid(State()) && SameShape(desired, physical)
      ensures out == CellsFrom(desired, physical, 0, 0, Pen(None, None))
    {
      out := [];
      var pen := Pen(None, None);
      ghost var whole := CellsFrom(desired, physical, 0, 0, pen);
      for r := 0 to |desired|
        invariant out + CellsFrom(desired, physical, r, 0, pen) == whole
      {
        for c := 0 to |desired[r]|
          invariant out + CellsFrom(desired, physical, r, c, pen) == whole
        {
          var want, have := desired[r][c], physical[r][c];
          if want == have || want.wide {
            continue;
          }
          DrawNext(desired, physical, r, c, pen, out);
          var bytes := EmitCell(want, r, c, pen);
          out := out + bytes;
          pen := Pen(Some((r, c + 1)), Some((want.style, want.fg, want.bg)));
        }
      }
      assert out + [] == out;
    }

    method EmitDiff(desired: Grid, cursor: CursorPos) returns (out: seq<byte>)
      requires Valid(State()) && SameShape(desired, physical)
      modifies `physical, `physicalCursor
      ensures out == DiffBytes(desired, old(physical), cursor)
      ensures State() == old(State()).(physical := desired, physicalCursor := cursor)
    {
      out := EmitCells(desired);
      out := out + MoveToBytes(cursor.row, cursor.col);
      physical := desired;
      physicalCursor := cursor;
    }

    /** Compose confirmed cells, banner and predictions, cell by cell, and emit the difference. */
    method RenderWithPredictor(o: Overlay, loss: Loss) returns (out: seq<byte>)
      requires Valid(State())
      modifies `physical, `physicalCursor
      ensures SameShape(Desired(old(State()), o, loss), old(physical))
      ensures out == DiffBytes(Desired(old(State()), o, loss), old(physical), DesiredCursor(old(State()), o))
      ensures State() == old(State()).(physical := Desired(old(State()), o, loss), physicalCursor := DesiredCursor(old(State()), o))
    {
      var desired := confirmed;
      for r := 0 to |confirmed|
        invariant |desired| == |confirmed|
        invariant forall i :: 0 <= i < r ==> desired[i] == Desired(State(), o, loss)[i]
        invariant forall i :: r <= i < |confirmed| ==> desired[i] == confirmed[i]
      {
        var row := confirmed[r];
        for c := 0 to |row|
          invariant |row| == |confirmed[r]|
          invariant forall j :: 0 <= j < c ==> row[j] == DesiredCell(State(), o, loss, r, j)
          invariant forall j :: c <= j < |row| ==> row[j] == confirmed[r][j]
        {
          var banner := LossCell(loss, r, c);
          if banner.Some? {
            row := row[c := banner.value];
          }
          var predicted := CellAt(o, r, c);
          if predicted.Some? {
            row := row[c := predicted.value];
          }
        }
        assert row == Desired(State(), o, loss)[r];
        desired := desired[r := row];
      }
      assert desired == Desired(State(), o, loss);
      out := EmitDiff(desired, DesiredCursor(State(), o));
    }

    method EmitConnectClear() returns (out: seq<byte>)
      modifies `physical, `physicalCursor
      ensures out == CONNECT_CLEAR && State() == ResetPhysical(old(State()))
    {
      out := CONNECT_CLEAR;
      physical := BlankGrid(cols, rows);
      physicalCursor := CursorPos(0, 0);
    }
  }
}
