/**
 The client pump (`run_pump`) as a step system over screen, predictor and terminal: datagrams,
 keystrokes, the connection-loss banner, server resizes and the clear at connect time.
 */
module Client {
  import opened Wire
  import opened Widths
  import opened Datagram
  import opened Paint
  import opened Screen
  import opened Terminal
  import opened Render
  import opened Predictor
  import opened PredictorLaws

  // ---------- composition ----------

  const REVERSE: byte := 0x08

  /** `text` is the formatted banner; the elapsed time in it comes from the clock. */
  datatype Loss = Loss(active: bool, text: seq<scalar>, cols: u16)

  function LossCell(loss: Loss, row: nat, col: nat): Option<Cell> {
    if !loss.active || row != 0 then None
    else Some(Cell(if col < loss.cols && col < |loss.text| then loss.text[col] else SPACE, REVERSE, None, None, false))
  }

  /** Prediction over banner over confirmed cell. */
  function DesiredCell(s: ScreenState, o: Overlay, loss: Loss, r: nat, c: nat): Cell
    requires InGrid(s.confirmed, r, c)
  {
    match CellAt(o, r, c)
    case Some(x) => x
    case None => match LossCell(loss, r, c) case Some(x) => x case None => s.confirmed[r][c]
  }

  function Desired(s: ScreenState, o: Overlay, loss: Loss): (g: Grid)
    ensures |g| == |s.confirmed| && forall r :: 0 <= r < |g| ==> |g[r]| == |s.confirmed[r]|
  {
    seq(|s.confirmed|, r requires 0 <= r < |s.confirmed| =>
      seq(|s.confirmed[r]|, c requires 0 <= c < |s.confirmed[r]| => DesiredCell(s, o, loss, r, c)))
  }

  function DesiredCursor(s: ScreenState, o: Overlay): CursorPos {
    match PredictedCursor(o) case Some(p) => p case None => s.confirmedCursor
  }

  // ---------- the steps ----------

  datatype Session = Session(screen: ScreenState, overlay: Overlay, loss: Loss, wasAlt: bool, term: Term)

  datatype PumpEvent =
    | Arrives(diff: StateDiff, rtt: nat)
    | Types(bytes: seq<byte>)
    | GoesSilent(text: seq<scalar>)
    | ServerResizes(cols: u16, rows: u16)

  function Rendered(c: Session): Session
    requires Valid(c.screen)
  {
    var g, cursor := Desired(c.screen, c.overlay, c.loss), DesiredCursor(c.screen, c.overlay);
    c.(screen := c.screen.(physical := g, physicalCursor := cursor),
       term := FeedAll(c.term, DiffBytes(g, c.screen.physical, cursor)))
  }

  /** The overlay after a datagram: alternate-screen entry, cull, resize and cursor sync, in that order. */
  function OverlayAfter(o: Overlay, wasAlt: bool, before: ScreenState, s: ScreenState, d: StateDiff, rtt: nat): Overlay {
    var a := if d.altScreen && !wasAlt then Reset(o) else o;
    Settle(Cull(a, s, d.epoch, rtt), before, s)
  }

  /** After culling: a new size resets, and a reset overlay takes the confirmed cursor. */
  function Settle(o: Overlay, before: ScreenState, s: ScreenState): Overlay {
    var e := if s.cols != before.cols || s.rows != before.rows then Reset(SetSize(o, s.cols, s.rows)) else o;
    SyncCursor(e, s.confirmedCursor)
  }

  function Receives(w: WidthTable, c: Session, d: StateDiff, rtt: nat): (r: Session)
    requires Valid(c.screen)
    ensures Valid(r.screen)
  {
    if d.epoch <= c.screen.lastAppliedEpoch then c
    else
      var s := ApplyDiff(w, c.screen, d);
      var o := OverlayAfter(c.overlay, c.wasAlt, c.screen, s, d, rtt);
      Rendered(c.(screen := s, overlay := o, loss := c.loss.(active := false), wasAlt := d.altScreen))
  }

  function PumpStep(w: WidthTable, c: Session, e: PumpEvent): (r: Session)
    requires Valid(c.screen)
    ensures Valid(r.screen)
  {
    match e
    case Arrives(d, rtt) => Receives(w, c, d, rtt)
    case Types(bytes) => Rendered(c.(overlay := OnAction(c.overlay, ClassifyInput(w, bytes), c.screen)))
    case GoesSilent(text) => Rendered(c.(loss := c.loss.(active := true, text := text)))
    case ServerResizes(cols, rows) =>
      c.(screen := ResizeScreen(c.screen, cols, rows), overlay := Reset(SetSize(c.overlay, cols, rows)))
  }

  function PumpRun(w: WidthTable, c: Session, es: seq<PumpEvent>): (r: Session)
    requires Valid(c.screen)
    ensures Valid(r.screen)
    decreases |es|
  {
    if es == [] then c else PumpStep(w, PumpRun(w, c, es[..|es| - 1]), es[|es| - 1])
  }

  // ---------- predictions end with the next accepted datagram ----------

  /** Every pending prediction is due at the next epoch. */
  ghost predicate DueNext(c: Session) {
    forall p :: p in c.overlay.pending ==> p.epochRequired <= c.screen.lastAppliedEpoch + 1
  }

  /** A datagram that passes the gate leaves nothing pending, even if its size was rejected. */
  lemma AcceptedDatagramEmptiesPending(w: WidthTable, c: Session, d: StateDiff, rtt: nat)
    requires Valid(c.screen) && DueNext(c) && d.epoch > c.screen.lastAppliedEpoch
    ensures Receives(w, c, d, rtt).overlay.pending == []
  {
    var a := if d.altScreen && !c.wasAlt then Reset(c.overlay) else c.overlay;
    CullAllDue(a, ApplyDiff(w, c.screen, d), d.epoch, rtt);
  }

  lemma {:induction false} RunKeepsDueNext(w: WidthTable, c: Session, es: seq<PumpEvent>)
    requires Valid(c.screen) && DueNext(c)
    ensures DueNext(PumpRun(w, c, es))
    decreases |es|
  {
    if es != [] {
      var last := |es| - 1;
      RunKeepsDueNext(w, c, es[..last]);
      StepKeepsDueNext(w, PumpRun(w, c, es[..last]), es[last]);
    }
  }

  lemma StepKeepsDueNext(w: WidthTable, c: Session, e: PumpEvent)
    requires Valid(c.screen) && DueNext(c)
    ensures DueNext(PumpStep(w, c, e))
  {
    match e
    case Arrives(d, rtt) =>
      if d.epoch > c.screen.lastAppliedEpoch {
        AcceptedDatagramEmptiesPending(w, c, d, rtt);
      }
    case Types(bytes) => InputRequiresNextEpoch(c.overlay, ClassifyInput(w, bytes), c.screen);
    case _ =>
  }

  /**
   Over any run of the pump from a fresh session, resizes included: predictions never outlive
   the next datagram that passes the gate.
   */
  lemma PredictionsNeverOutliveDatagram(w: WidthTable, c: Session, es: seq<PumpEvent>, d: StateDiff, rtt: nat)
    requires Valid(c.screen) && c.overlay.pending == []
    requires d.epoch > PumpRun(w, c, es).screen.lastAppliedEpoch
    ensures PumpRun(w, c, es + [Arrives(d, rtt)]).overlay.pending == []
  {
    RunKeepsDueNext(w, c, es);
    AcceptedDatagramEmptiesPending(w, PumpRun(w, c, es), d, rtt);
    assert (es + [Arrives(d, rtt)])[..|es|] == es;
  }

  // ---------- the terminal always shows what the client thinks it shows ----------

  ghost predicate NarrowPending(w: WidthTable, o: Overlay) {
    forall p :: p in o.pending ==> IsNarrow(w, p.ch)
  }

  /** The terminal agrees on widths and shows the cached grid, and only cells of one column are involved. */
  ghost predicate InStep(w: WidthTable, c: Session) {
    && c.term.widths == w && Valid(c.screen) && Shows(c.term, c.screen.physical)
    && DrawableGrid(w, c.screen.confirmed) && NarrowPending(w, c.overlay) && AllNarrow(w, c.loss.text)
  }

  /** Text of width 1, and no change of size. */
  ghost predicate Plain(w: WidthTable, c: Session, e: PumpEvent) {
    match e
    case Arrives(d, _) =>
      && (d.epoch > c.screen.lastAppliedEpoch && PlausibleSize(d) ==> d.cols == c.screen.cols && d.rows == c.screen.rows)
      && (forall run :: run in d.runs ==> AllNarrow(w, run.chars))
    case Types(bytes) => var a := ClassifyInput(w, bytes); a.PredictChar? ==> a.width == 1
    case GoesSilent(text) => AllNarrow(w, text)
    case ServerResizes(_, _) => false
  }

  ghost predicate PlainRun(w: WidthTable, c: Session, es: seq<PumpEvent>)
    requires Valid(c.screen)
    decreases |es|
  {
    es == [] || (PlainRun(w, c, es[..|es| - 1]) && Plain(w, PumpRun(w, c, es[..|es| - 1]), es[|es| - 1]))
  }

  lemma DesiredIsDrawable(w: WidthTable, s: ScreenState, o: Overlay, loss: Loss)
    requires DrawableGrid(w, s.confirmed) && NarrowPending(w, o) && AllNarrow(w, loss.text)
    ensures DrawableGrid(w, Desired(s, o, loss))
  {
    var g := Desired(s, o, loss);
    forall r, c | InGrid(g, r, c)
      ensures Drawable(w, g[r][c])
    {
      assert InGrid(s.confirmed, r, c);
      assert g[r][c] == DesiredCell(s, o, loss, r, c);
    }
  }

  /** Rendering keeps the client in step, and makes the terminal show the composed grid with the caret placed. */
  lemma RenderKeepsInStep(w: WidthTable, c: Session)
    requires InStep(w, c)
    ensures InStep(w, Rendered(c))
    ensures Shows(Rendered(c).term, Desired(c.screen, c.overlay, c.loss))
    ensures (Rendered(c).term.row, Rendered(c).term.col) == Target(DesiredCursor(c.screen, c.overlay), c.term)
  {
    var g := Desired(c.screen, c.overlay, c.loss);
    DesiredIsDrawable(w, c.screen, c.overlay, c.loss);
    assert SameShape(g, c.screen.physical);
    DiffRefinesRepaint(c.term, g, c.screen.physical, DesiredCursor(c.screen, c.overlay));
    RenderEffect(c.term, g, c.screen.physical, DesiredCursor(c.screen, c.overlay));
  }

  lemma PaintKeepsDrawable(w: WidthTable, g: Grid, runs: seq<DiffRun>)
    requires DrawableGrid(w, g) && forall run :: run in runs ==> AllNarrow(w, run.chars)
    ensures DrawableGrid(w, PaintRuns(w, g, runs))
  {
    var h := PaintRuns(w, g, runs);
    forall r, c | InGrid(h, r, c)
      ensures Drawable(w, h[r][c])
    {
      assert InGrid(g, r, c);
      PaintedCell(w, g, runs, r, c);
    }
  }

  lemma {:induction false} PushAllNarrow(w: WidthTable, o: Overlay, chars: seq<scalar>, lastApplied: u64)
    requires NarrowPending(w, o) && AllNarrow(w, chars)
    ensures NarrowPending(w, PushAll(o, chars, lastApplied))
    decreases |chars|
  {
    if chars != [] && !Overflows(o, 1) {
      assert IsNarrow(w, chars[0]);
      PushAllNarrow(w, Push(o, chars[0], 1, lastApplied), chars[1..], lastApplied);
    }
  }

  lemma ActionKeepsNarrow(w: WidthTable, o: Overlay, bytes: seq<byte>, s: ScreenState)
    requires NarrowPending(w, o) && (var a := ClassifyInput(w, bytes); a.PredictChar? ==> a.width == 1)
    ensures NarrowPending(w, OnAction(o, ClassifyInput(w, bytes), s))
  {
    var a := ClassifyInput(w, bytes);
    if a.PredictBatch? {
      PushAllNarrow(w, o, a.chars, s.lastAppliedEpoch);
    } else if a.PredictBackspace? && o.cursor.col > o.epochStartCol {
      WithoutCellSubset(o.pending, o.cursor.row, o.cursor.col - 1);
    }
  }

  lemma OverlayAfterOnlyRemoves(o: Overlay, wasAlt: bool, before: ScreenState, s: ScreenState, d: StateDiff, rtt: nat)
    ensures forall p :: p in OverlayAfter(o, wasAlt, before, s, d, rtt).pending ==> p in o.pending
  {
    var a := if d.altScreen && !wasAlt then Reset(o) else o;
    CullOnlyRemoves(a, s, d.epoch, rtt);
    SettleOnlyRemoves(Cull(a, s, d.epoch, rtt), before, s);
  }

  lemma SettleOnlyRemoves(o: Overlay, before: ScreenState, s: ScreenState)
    ensures Settle(o, before, s).pending == o.pending || Settle(o, before, s).pending == []
  {}

  lemma StepKeepsInStep(w: WidthTable, c: Session, e: PumpEvent)
    requires InStep(w, c) && Plain(w, c, e)
    ensures InStep(w, PumpStep(w, c, e))
  {
    match e
    case Arrives(d, rtt) =>
      if d.epoch > c.screen.lastAppliedEpoch {
        var s := ApplyDiff(w, c.screen, d);
        PaintKeepsDrawable(w, c.screen.confirmed, d.runs);
        OverlayAfterOnlyRemoves(c.overlay, c.wasAlt, c.screen, s, d, rtt);
        var o := OverlayAfter(c.overlay, c.wasAlt, c.screen, s, d, rtt);
        RenderKeepsInStep(w, c.(screen := s, overlay := o, loss := c.loss.(active := false), wasAlt := d.altScreen));
      }
    case Types(bytes) =>
      ActionKeepsNarrow(w, c.overlay, bytes, c.screen);
      RenderKeepsInStep(w, c.(overlay := OnAction(c.overlay, ClassifyInput(w, bytes), c.screen)));
    case GoesSilent(text) => RenderKeepsInStep(w, c.(loss := c.loss.(active := true, text := text)));
  }

  /** Over any plain run the cache agrees with the real terminal. */
  lemma {:induction false} RunKeepsInStep(w: WidthTable, c: Session, es: seq<PumpEvent>)
    requires InStep(w, c) && PlainRun(w, c, es)
    ensures InStep(w, PumpRun(w, c, es))
    decreases |es|
  {
    if es != [] {
      var last := |es| - 1;
      RunKeepsInStep(w, c, es[..last]);
      StepKeepsInStep(w, PumpRun(w, c, es[..last]), es[last]);
    }
  }

  // ---------- coming into step ----------

  /** `\x1b[2J\x1b[H`. */
  const CONNECT_CLEAR: seq<byte> := [ESC, 0x5B, 0x32, 0x4A, ESC, 0x5B, 0x48]

  function ResetPhysical(s: ScreenState): (t: ScreenState)
    ensures Valid(s) ==> Valid(t)
  {
    s.(physical := BlankGrid(s.cols, s.rows), physicalCursor := CursorPos(0, 0))
  }

  lemma BlankLooksEmpty()
    ensures Show(BLANK) == EMPTY
  {}

  lemma ClearBytes(t: Term)
    requires t.parser == Ground
    ensures FeedAll(t, CONNECT_CLEAR) == t.(grid := EmptyGrid(t.cols, t.rows), row := 0, col := 0)
  {
    var erase, home := CsiBytes([2], 0x4A), [ESC, 0x5B, 0x48];
    assert CONNECT_CLEAR == erase + home;
    FeedConcat(t, erase, home);
    FeedCsiBytes(t, [2], 0x4A);
    var u := EraseAll(t);
    assert FeedAll(u, home) == FeedAll(Feed(u, ESC), home[1..]);
    var u1 := Feed(u, ESC);
    assert FeedAll(u1, home[1..]) == FeedAll(Feed(u1, 0x5B), home[1..][1..]);
    assert home[1..][1..] == [0x48];
    FeedOne(Feed(u1, 0x5B), 0x48);
  }

  /** The clear at connect time brings any terminal of the screen's size into step. */
  lemma ConnectClearShowsBlank(t: Term, s: ScreenState)
    requires WellFormed(t) && t.parser == Ground && t.cols == s.cols && t.rows == s.rows
    ensures Shows(FeedAll(t, CONNECT_CLEAR), ResetPhysical(s).physical)
  {
    ClearBytes(t);
    BlankLooksEmpty();
  }

  /** Resetting the cache alone does so exactly when the terminal is blank already. */
  lemma ResetPhysicalInStepIffBlank(t: Term, s: ScreenState)
    requires WellFormed(t) && t.parser == Ground && t.cols == s.cols && t.rows == s.rows
    ensures Shows(t, ResetPhysical(s).physical) <==> t.grid == EmptyGrid(t.cols, t.rows)
  {
    var g := ResetPhysical(s).physical;
    BlankLooksEmpty();
    if Shows(t, g) {
      forall r | 0 <= r < t.rows
        ensures t.grid[r] == EmptyGrid(t.cols, t.rows)[r]
      {
        forall c | 0 <= c < t.cols
          ensures t.grid[r][c] == EMPTY
        {
          assert InGrid(g, r, c);
        }
      }
    }
  }

  /**
   After a cache reset (also the one inside `resize`) the next render repairs the terminal if and
   only if every cell that should be blank is blank on it already: stale glyphs stay visible.
   */
  lemma RenderAfterResetIff(t: Term, desired: Grid, s: ScreenState, cursor: CursorPos)
    requires Fits(t, desired) && t.cols == s.cols && t.rows == s.rows && DrawableGrid(t.widths, desired)
    ensures SameShape(desired, ResetPhysical(s).physical)
    ensures Shows(FeedAll(t, DiffBytes(desired, ResetPhysical(s).physical, cursor)), desired) <==>
            forall r, c :: InGrid(desired, r, c) && desired[r][c] == BLANK ==> t.grid[r][c] == EMPTY
  {
    BlankLooksEmpty();
    var physical := ResetPhysical(s).physical;
    assert forall r, c :: InGrid(desired, r, c) ==> physical[r][c] == BLANK;
    RepaintIffStaleCellsAgree(t, desired, physical, cursor);
  }
}
