/**
 The minimal-diff renderer (`ClientScreen::emit_diff`): which bytes it writes, and
 what those bytes do to a terminal, for any terminal of the screen's size.
 */
module Render {
  import opened Wire
  import opened Widths
  import opened Datagram
  import opened Paint
  import opened Terminal

  /** What a cell looks like; reserved style bits have no rendition. */
  function Show(x: Cell): Glyph {
    Glyph(x.ch, LookOf(x.style, x.fg, x.bg))
  }

  /** Cells of one column. */
  predicate Drawable(w: WidthTable, x: Cell) {
    !x.wide && IsNarrow(w, x.ch)
  }

  ghost predicate DrawableGrid(w: WidthTable, g: Grid) {
    SaneWidths(w) && forall r, c :: InGrid(g, r, c) ==> Drawable(w, g[r][c])
  }

  // ---------- the bytes ----------

  /** Where the terminal cursor and rendition are known to be. */
  datatype Pen = Pen(at: Option<(nat, nat)>, look: Option<(byte, Option<byte>, Option<byte>)>)

  predicate Skips(want: Cell, have: Cell) {
    want == have || want.wide
  }

  function MovePart(r: u16, c: u16, pen: Pen): (s: seq<byte>) {
    if pen.at == Some((r, c)) then [] else MoveToBytes(r, c)
  }

  function SgrPart(want: Cell, pen: Pen): (s: seq<byte>) {
    if pen.look == Some((want.style, want.fg, want.bg)) then [] else SgrBytes(want.style, want.fg, want.bg)
  }

  function CellBytes(want: Cell, r: u16, c: u16, pen: Pen): (s: seq<byte>) {
    MovePart(r, c, pen) + (SgrPart(want, pen) + Utf8(want.ch))
  }

  function PenAfter(want: Cell, r: nat, c: nat): Pen {
    Pen(Some((r, c + 1)), Some((want.style, want.fg, want.bg)))
  }

  /** The cells from (`r`, `c`) on, row by row. */
  function CellsFrom(desired: Grid, physical: Grid, r: nat, c: nat, pen: Pen): (s: seq<byte>)
    requires SameShape(desired, physical)
    requires r <= |desired| && (r < |desired| ==> c <= |desired[r]|)
    decreases |desired| - r, if r < |desired| then |desired[r]| - c else 0
  {
    if r == |desired| then []
    else if c == |desired[r]| then CellsFrom(desired, physical, r + 1, 0, pen)
    else
      var want := desired[r][c];
      if Skips(want, physical[r][c]) then CellsFrom(desired, physical, r, c + 1, pen)
      else CellBytes(want, r, c, pen) + CellsFrom(desired, physical, r, c + 1, PenAfter(want, r, c))
  }

  function DiffBytes(desired: Grid, physical: Grid, cursor: CursorPos): (s: seq<byte>)
    requires SameShape(desired, physical)
  {
    CellsFrom(desired, physical, 0, 0, Pen(None, None)) + MoveToBytes(cursor.row, cursor.col)
  }

  /** Equally sized grids, with `u16` indices. */
  ghost predicate SameShape(g: Grid, h: Grid) {
    && |g| == |h| < 0x1_0000
    && forall r :: 0 <= r < |g| ==> |g[r]| == |h[r]| < 0x1_0000
  }

  /** The number of cells from (`r`, `c`) on that differ. */
  function DiffCount(desired: Grid, physical: Grid, r: nat, c: nat): nat
    requires SameShape(desired, physical)
    requires r <= |desired| && (r < |desired| ==> c <= |desired[r]|)
    decreases |desired| - r, if r < |desired| then |desired[r]| - c else 0
  {
    if r == |desired| then 0
    else if c == |desired[r]| then DiffCount(desired, physical, r + 1, 0)
    else (if Skips(desired[r][c], physical[r][c]) then 0 else 1) + DiffCount(desired, physical, r, c + 1)
  }

  // ---------- what the bytes do ----------

  ghost predicate PenMatches(t: Term, pen: Pen) {
    && (pen.at.Some? ==> t.row == pen.at.value.0 && t.col == pen.at.value.1)
    && (pen.look.Some? ==> t.look == LookOf(pen.look.value.0, pen.look.value.1, pen.look.value.2))
  }

  ghost predicate Fits(t: Term, g: Grid) {
    && WellFormed(t) && t.parser == Ground && |g| == t.rows < 0x1_0000 && t.cols < 0x1_0000
    && forall r :: 0 <= r < |g| ==> |g[r]| == t.cols
  }

  lemma MovePartEffect(t: Term, r: u16, c: u16, pen: Pen)
    requires t.parser == Ground && PenMatches(t, pen) && r < t.rows < 0x1_0000 && c < t.cols < 0x1_0000
    ensures FeedAll(t, MovePart(r, c, pen)) == t.(row := r, col := c)
  {
    FeedMoveTo(t, r, c);
  }

  lemma SgrPartEffect(t: Term, want: Cell, pen: Pen)
    requires t.parser == Ground
    requires pen.look.Some? ==> t.look == LookOf(pen.look.value.0, pen.look.value.1, pen.look.value.2)
    ensures FeedAll(t, SgrPart(want, pen)) == t.(look := LookOf(want.style, want.fg, want.bg))
  {
    FeedSgr(t, want.style, want.fg, want.bg);
  }

  /** Writing one cell, with or without a move and attributes, puts its character there in its rendition. */
  lemma CellBytesEffect(t: Term, want: Cell, r: u16, c: u16, pen: Pen)
    requires WellFormed(t) && t.parser == Ground && PenMatches(t, pen) && Printable(want.ch)
    requires r < t.rows < 0x1_0000 && c < t.cols < 0x1_0000
    ensures FeedAll(t, CellBytes(want, r, c, pen)) ==
            Put(t.(row := r, col := c, look := LookOf(want.style, want.fg, want.bg)), want.ch)
  {
    var t1 := t.(row := r, col := c);
    var t2 := t1.(look := LookOf(want.style, want.fg, want.bg));
    FeedConcat(t, MovePart(r, c, pen), SgrPart(want, pen) + Utf8(want.ch));
    MovePartEffect(t, r, c, pen);
    FeedConcat(t1, SgrPart(want, pen), Utf8(want.ch));
    SgrPartEffect(t1, want, pen);
    FeedUtf8(t2, want.ch);
  }

  /** The glyph stands at (`r`, `c`) and the cursor right behind it. */
  predicate Landed(t: Term, r: nat, c: nat, glyph: Glyph) {
    r < |t.grid| && c < |t.grid[r]| && t.grid[r][c] == glyph && t.row == r && t.col == c + 1
  }

  lemma WideMisses(t: Term, ch: scalar)
    requires WellFormed(t) && t.row < t.rows && t.col < t.cols && ch != 32
    ensures !Landed(PutWide(t, ch), t.row, t.col, Glyph(ch, t.look))
  {
    if t.col + 1 >= t.cols {
      var u := Wrap(t);
      assert u.col == 0 && (u.row == t.row ==> u.grid[u.row] == seq(t.cols, _ => EMPTY));
    }
  }

  lemma PutLandsIffNarrow(t: Term, ch: scalar)
    requires WellFormed(t) && t.row < t.rows && t.col < t.cols && IsNarrow(t.widths, 32)
    ensures Landed(Put(t, ch), t.row, t.col, Glyph(ch, t.look)) <==> IsNarrow(t.widths, ch)
  {
    if IsWide(t.widths, ch) {
      WideMisses(t, ch);
    }
  }

  /**
   The emitter goes on as if every character filled one cell. A printable character does so, for
   any terminal and with or without the move and attributes in front, if and only if it is narrow.
   */
  lemma CellLandsIffNarrow(t: Term, want: Cell, r: u16, c: u16, pen: Pen)
    requires WellFormed(t) && t.parser == Ground && PenMatches(t, pen) && Printable(want.ch) && SaneWidths(t.widths)
    requires r < t.rows < 0x1_0000 && c < t.cols < 0x1_0000
    ensures Landed(FeedAll(t, CellBytes(want, r, c, pen)), r, c, Show(want)) <==> IsNarrow(t.widths, want.ch)
  {
    CellBytesEffect(t, want, r, c, pen);
    PutLandsIffNarrow(t.(row := r, col := c, look := LookOf(want.style, want.fg, want.bg)), want.ch);
  }

  /** At or after (`r`, `c`) in row order. */
  predicate AtOrAfter(i: int, j: int, r: int, c: int) {
    i > r || (i == r && j >= c)
  }

  ghost predicate Effect(t: Term, u: Term, desired: Grid, physical: Grid, r: int, c: int)
    requires Fits(t, desired) && SameShape(desired, physical) && Fits(u, desired)
  {
    forall i, j :: InGrid(desired, i, j) ==>
      u.grid[i][j] == if AtOrAfter(i, j, r, c) && desired[i][j] != physical[i][j] then Show(desired[i][j]) else t.grid[i][j]
  }

  lemma EffectOfSkip(t: Term, u: Term, desired: Grid, physical: Grid, r: nat, c: nat)
    requires Fits(t, desired) && SameShape(desired, physical) && Fits(u, desired) && r < |desired|
    requires c == |desired[r]| ==> Effect(t, u, desired, physical, r + 1, 0)
    requires c < |desired[r]| ==> desired[r][c] == physical[r][c] && Effect(t, u, desired, physical, r, c + 1)
    ensures c <= |desired[r]| ==> Effect(t, u, desired, physical, r, c)
  {}

  lemma EffectOfDraw(t: Term, t1: Term, u: Term, desired: Grid, physical: Grid, r: nat, c: nat)
    requires Fits(t, desired) && Fits(t1, desired) && SameShape(desired, physical) && Fits(u, desired)
    requires InGrid(desired, r, c) && desired[r][c] != physical[r][c]
    requires forall i, j :: InGrid(desired, i, j) ==>
      t1.grid[i][j] == if i == r && j == c then Show(desired[r][c]) else t.grid[i][j]
    requires Effect(t1, u, desired, physical, r, c + 1)
    ensures Effect(t, u, desired, physical, r, c)
  {}

  lemma {:induction false} CellsFromEffect(t: Term, desired: Grid, physical: Grid, r: nat, c: nat, pen: Pen)
    returns (u: Term)
    requires Fits(t, desired) && SameShape(desired, physical) && DrawableGrid(t.widths, desired) && PenMatches(t, pen)
    requires r <= |desired| && (r < |desired| ==> c <= |desired[r]|)
    ensures u == FeedAll(t, CellsFrom(desired, physical, r, c, pen))
    ensures Fits(u, desired) && u.rows == t.rows && u.cols == t.cols && u.widths == t.widths
    ensures Effect(t, u, desired, physical, r, c)
    ensures u.puts == t.puts + DiffCount(desired, physical, r, c)
    decreases |desired| - r, if r < |desired| then |desired[r]| - c else 0
  {
    if r == |desired| {
      u := t;
    } else if c == |desired[r]| {
      u := CellsFromEffect(t, desired, physical, r + 1, 0, pen);
      EffectOfSkip(t, u, desired, physical, r, c);
    } else if Skips(desired[r][c], physical[r][c]) {
      assert InGrid(desired, r, c);
      u := CellsFromEffect(t, desired, physical, r, c + 1, pen);
      EffectOfSkip(t, u, desired, physical, r, c);
    } else {
      var next := PenAfter(desired[r][c], r, c);
      var t1 := DrawCell(t, desired, physical, r, c, pen);
      u := CellsFromEffect(t1, desired, physical, r, c + 1, next);
      FeedConcat(t, CellBytes(desired[r][c], r, c, pen), CellsFrom(desired, physical, r, c + 1, next));
      EffectOfDraw(t, t1, u, desired, physical, r, c);
    }
  }

  lemma DrawCell(t: Term, desired: Grid, physical: Grid, r: nat, c: nat, pen: Pen) returns (u: Term)
    requires Fits(t, desired) && SameShape(desired, physical) && DrawableGrid(t.widths, desired) && PenMatches(t, pen)
    requires r < |desired| && c < |desired[r]|
    ensures u == FeedAll(t, CellBytes(desired[r][c], r, c, pen))
    ensures Fits(u, desired) && u.rows == t.rows && u.cols == t.cols && u.widths == t.widths && u.puts == t.puts + 1
    ensures PenMatches(u, PenAfter(desired[r][c], r, c))
    ensures forall i, j :: InGrid(desired, i, j) ==>
      u.grid[i][j] == if i == r && j == c then Show(desired[r][c]) else t.grid[i][j]
  {
    assert InGrid(desired, r, c);
    CellBytesEffect(t, desired[r][c], r, c, pen);
    u := FeedAll(t, CellBytes(desired[r][c], r, c, pen));
  }

  /** Where `MoveTo` puts the cursor of a terminal that large. */
  function Target(cursor: CursorPos, t: Term): (nat, nat) {
    (Coordinate((cursor.row + 1) % 0x1_0000, t.rows), Coordinate((cursor.col + 1) % 0x1_0000, t.cols))
  }

  /**
   Rendering on any terminal of the screen's size: exactly the cells where `desired` differs
   from `physical` are rewritten, once each, and all others keep what the terminal showed.
   */
  lemma RenderEffect(t: Term, desired: Grid, physical: Grid, cursor: CursorPos)
    requires Fits(t, desired) && SameShape(desired, physical) && DrawableGrid(t.widths, desired)
    ensures var u := FeedAll(t, DiffBytes(desired, physical, cursor));
            && Fits(u, desired) && u.widths == t.widths
            && (forall i, j :: InGrid(desired, i, j) ==>
                  u.grid[i][j] == if desired[i][j] != physical[i][j] then Show(desired[i][j]) else t.grid[i][j])
            && (u.row, u.col) == Target(cursor, t)
            && u.puts == t.puts + DiffCount(desired, physical, 0, 0)
  {
    var cells := CellsFrom(desired, physical, 0, 0, Pen(None, None));
    var u := CellsFromEffect(t, desired, physical, 0, 0, Pen(None, None));
    FeedConcat(t, cells, MoveToBytes(cursor.row, cursor.col));
    FeedMoveTo(u, cursor.row, cursor.col);
  }

  // ---------- the cache ----------

  /** The terminal shows `g`. */
  ghost predicate Shows(t: Term, g: Grid) {
    Fits(t, g) && forall r, c :: InGrid(g, r, c) ==> t.grid[r][c] == Show(g[r][c])
  }

  /** A terminal that shows the cached grid shows the desired grid after the minimal diff. */
  lemma DiffRefinesRepaint(t: Term, desired: Grid, physical: Grid, cursor: CursorPos)
    requires Shows(t, physical) && SameShape(desired, physical) && DrawableGrid(t.widths, desired)
    ensures Shows(FeedAll(t, DiffBytes(desired, physical, cursor)), desired)
  {
    RenderEffect(t, desired, physical, cursor);
    assert forall r, c :: InGrid(desired, r, c) ==> InGrid(physical, r, c);
  }

  /**
   From an arbitrary terminal the minimal diff reaches the desired grid if and only if the
   terminal already shows the desired glyph wherever the cache says nothing needs writing.
   */
  lemma RepaintIffStaleCellsAgree(t: Term, desired: Grid, physical: Grid, cursor: CursorPos)
    requires Fits(t, desired) && SameShape(desired, physical) && DrawableGrid(t.widths, desired)
    ensures Shows(FeedAll(t, DiffBytes(desired, physical, cursor)), desired) <==>
            forall r, c :: InGrid(desired, r, c) && desired[r][c] == physical[r][c] ==> t.grid[r][c] == Show(desired[r][c])
  {
    RenderEffect(t, desired, physical, cursor);
    var u := FeedAll(t, DiffBytes(desired, physical, cursor));
    if Shows(u, desired) {
      forall r, c | InGrid(desired, r, c) && desired[r][c] == physical[r][c]
        ensures t.grid[r][c] == Show(desired[r][c])
      {
        assert u.grid[r][c] == Show(desired[r][c]);
      }
    }
  }
}
