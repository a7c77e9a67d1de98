/**
 What the user sees: glyph by glyph and caret, what stands on the terminal after each step of the
 pump. Predictions go over the banner, and the banner over the confirmed screen.
 */
module Display {
  import opened Wire
  import opened Widths
  import opened Datagram
  import opened Paint
  import opened Screen
  import opened Terminal
  import opened Render
  import opened Predictor
  import opened PredictorLaws
  import opened CaretLaws
  import opened Client

  /** Predictions are displayed at all. */
  predicate Displays(o: Overlay) {
    o.mode == Always || (o.mode == Adaptive && o.srttTrigger)
  }

  /** Prediction `i` is for this cell, and its epoch is confirmed. */
  predicate StandsAt(o: Overlay, i: nat, row: nat, col: nat)
    requires i < |o.pending|
  {
    o.pending[i].row == row && o.pending[i].col == col && o.pending[i].tentativeUntil <= o.confirmedEpoch
  }

  /** Prediction `i` is the one drawn at the cell. */
  ghost predicate Drawn(o: Overlay, i: nat, row: nat, col: nat)
    requires i < |o.pending|
  {
    Displays(o) && StandsAt(o, i, row, col) && forall j :: 0 <= j < i ==> !StandsAt(o, j, row, col)
  }

  ghost predicate Free(o: Overlay, row: nat, col: nat) {
    forall i :: 0 <= i < |o.pending| ==> !StandsAt(o, i, row, col)
  }

  const UNDERLINED: Rendition := Rendition(false, false, true, false, None, None)
  const REVERSED: Rendition := Rendition(false, false, false, true, None, None)

  /** A predicted character is plain, or underlined on a slow link. */
  function Predicted(o: Overlay, ch: scalar): Glyph {
    Glyph(ch, if o.flagging then UNDERLINED else PLAIN)
  }

  /** Where nothing is predicted: the banner in reverse video on the first row while it is up, else the confirmed cell. */
  function Behind(c: Session, row: nat, col: nat): Glyph
    requires InGrid(c.screen.confirmed, row, col)
  {
    if c.loss.active && row == 0 then
      Glyph(if col < c.loss.cols && col < |c.loss.text| then c.loss.text[col] else SPACE, REVERSED)
    else
      var x := c.screen.confirmed[row][col];
      Glyph(x.ch, LookOf(x.style, x.fg, x.bg))
  }

  ghost predicate CellIsShown(c: Session, row: nat, col: nat)
    requires InGrid(c.screen.confirmed, row, col) && InTerm(c.term, row, col)
  {
    && (forall i :: 0 <= i < |c.overlay.pending| && Drawn(c.overlay, i, row, col) ==>
          c.term.grid[row][col] == Predicted(c.overlay, c.overlay.pending[i].ch))
    && (Free(c.overlay, row, col) || !Displays(c.overlay) ==> c.term.grid[row][col] == Behind(c, row, col))
  }

  predicate InTerm(t: Term, row: nat, col: nat) {
    row < |t.grid| && col < |t.grid[row]|
  }

  /** The caret is the predicted one while a visible prediction or a caret motion is pending, else the server's. */
  ghost predicate PredictsCaret(o: Overlay) {
    Displays(o) && (o.motionPending || exists i :: 0 <= i < |o.pending| && o.pending[i].tentativeUntil <= o.confirmedEpoch)
  }

  ghost function Caret(c: Session): CursorPos {
    if PredictsCaret(c.overlay) then c.overlay.cursor else c.screen.confirmedCursor
  }

  /** On the screen the terminal's cursor stands exactly at the caret. */
  ghost predicate CaretIsShown(c: Session) {
    var caret := Caret(c);
    caret.row < c.screen.rows && caret.col < c.screen.cols && c.screen.rows < 0x1_0000 && c.screen.cols < 0x1_0000 ==>
      c.term.row == caret.row && c.term.col == caret.col
  }

  ghost predicate Faithful(c: Session) {
    && (forall row, col :: InGrid(c.screen.confirmed, row, col) ==> InTerm(c.term, row, col) && CellIsShown(c, row, col))
    && CaretIsShown(c)
  }

  // ---------- one render ----------

  lemma {:induction false} NotVisible(o: Overlay, ps: seq<Prediction>, row: nat, col: nat)
    requires forall p :: p in ps ==> !(p.row == row && p.col == col && p.tentativeUntil <= o.confirmedEpoch)
    ensures FirstVisible(o, ps, row, col) == None
  {
    if ps != [] { NotVisible(o, ps[1..], row, col); }
  }

  lemma {:induction false} FindsFirst(o: Overlay, ps: seq<Prediction>, i: nat, row: nat, col: nat)
    requires i < |ps| && StandsAt(o.(pending := ps), i, row, col)
    requires forall j :: 0 <= j < i ==> !StandsAt(o.(pending := ps), j, row, col)
    ensures FirstVisible(o, ps, row, col) == Some(ps[i])
  {
    assert StandsAt(o.(pending := ps), 0, row, col) <==> i == 0;
    if i > 0 {
      forall j | 0 <= j < |ps| - 1
        ensures StandsAt(o.(pending := ps[1..]), j, row, col) <==> StandsAt(o.(pending := ps), j + 1, row, col)
      {
        assert ps[1..][j] == ps[j + 1];
      }
      FindsFirst(o, ps[1..], i - 1, row, col);
    }
  }

  lemma {:induction false} AnyVisibleIff(o: Overlay, ps: seq<Prediction>)
    ensures AnyVisible(o, ps) <==> exists i :: 0 <= i < |ps| && ps[i].tentativeUntil <= o.confirmedEpoch
  {
    if ps != [] {
      AnyVisibleIff(o, ps[1..]);
      if AnyVisible(o, ps[1..]) {
        var i :| 0 <= i < |ps[1..]| && ps[1..][i].tentativeUntil <= o.confirmedEpoch;
        assert ps[i + 1].tentativeUntil <= o.confirmedEpoch;
      }
      if i :| 0 <= i < |ps| && ps[i].tentativeUntil <= o.confirmedEpoch {
        if i > 0 { assert ps[1..][i - 1].tentativeUntil <= o.confirmedEpoch; }
      }
    }
  }

  lemma StylesLook()
    ensures LookOf(UNDERLINE, None, None) == UNDERLINED && LookOf(REVERSE, None, None) == REVERSED && LookOf(0, None, None) == PLAIN
  {}

  lemma RenderedCell(w: WidthTable, c: Session, row: nat, col: nat)
    requires InStep(w, c) && InGrid(c.screen.confirmed, row, col)
    ensures InTerm(Rendered(c).term, row, col) && CellIsShown(Rendered(c), row, col)
  {
    var o, r := c.overlay, Rendered(c);
    var g := Desired(c.screen, o, c.loss);
    RenderKeepsInStep(w, c);
    assert InGrid(g, row, col) && g[row][col] == DesiredCell(c.screen, o, c.loss, row, col);
    assert r.term.grid[row][col] == Show(g[row][col]);
    StylesLook();
    assert o.(pending := o.pending) == o;
    forall i | 0 <= i < |o.pending| && Drawn(o, i, row, col)
      ensures FirstVisible(o, o.pending, row, col) == Some(o.pending[i])
    {
      FindsFirst(o, o.pending, i, row, col);
    }
    if Free(o, row, col) {
      forall p | p in o.pending
        ensures !(p.row == row && p.col == col && p.tentativeUntil <= o.confirmedEpoch)
      {
        var i :| 0 <= i < |o.pending| && o.pending[i] == p;
        assert !StandsAt(o, i, row, col);
      }
      NotVisible(o, o.pending, row, col);
    }
  }

  lemma RenderedCaret(w: WidthTable, c: Session)
    requires InStep(w, c)
    ensures CaretIsShown(Rendered(c))
  {
    RenderKeepsInStep(w, c);
    AnyVisibleIff(c.overlay, c.overlay.pending);
    assert DesiredCursor(c.screen, c.overlay) == Caret(c) == Caret(Rendered(c));
    if c.screen.rows > 0 {
      assert |c.screen.physical[0]| == c.screen.cols;
    }
  }

  lemma RenderIsFaithful(w: WidthTable, c: Session)
    requires InStep(w, c)
    ensures Faithful(Rendered(c))
  {
    forall row, col | InGrid(c.screen.confirmed, row, col)
      ensures InTerm(Rendered(c).term, row, col) && CellIsShown(Rendered(c), row, col)
    {
      RenderedCell(w, c, row, col);
    }
    RenderedCaret(w, c);
  }

  // ---------- runs ----------

  predicate Renders(c: Session, e: PumpEvent) {
    e.Types? || e.GoesSilent? || (e.Arrives? && e.diff.epoch > c.screen.lastAppliedEpoch)
  }

  lemma StepIsFaithful(w: WidthTable, c: Session, e: PumpEvent)
    requires InStep(w, c) && Plain(w, c, e) && (Faithful(c) || Renders(c, e))
    ensures Faithful(PumpStep(w, c, e))
  {
    match e
    case Arrives(d, rtt) =>
      if d.epoch > c.screen.lastAppliedEpoch {
        var s := ApplyDiff(w, c.screen, d);
        PaintKeepsDrawable(w, c.screen.confirmed, d.runs);
        OverlayAfterOnlyRemoves(c.overlay, c.wasAlt, c.screen, s, d, rtt);
        var o := OverlayAfter(c.overlay, c.wasAlt, c.screen, s, d, rtt);
        RenderIsFaithful(w, c.(screen := s, overlay := o, loss := c.loss.(active := false), wasAlt := d.altScreen));
      }
    case Types(bytes) =>
      ActionKeepsNarrow(w, c.overlay, bytes, c.screen);
      RenderIsFaithful(w, c.(overlay := OnAction(c.overlay, ClassifyInput(w, bytes), c.screen)));
    case GoesSilent(text) => RenderIsFaithful(w, c.(loss := c.loss.(active := true, text := text)));
  }

  /** A session at connect time, on any terminal of that size. */
  function Connected(t: Term, mode: Mode, cols: u16, rows: u16): Session {
    Session(NewScreen(cols, rows), NewOverlay(mode, cols, rows), Loss(false, [], cols), false, FeedAll(t, CONNECT_CLEAR))
  }

  lemma ConnectedIsFaithful(t: Term, mode: Mode, cols: u16, rows: u16)
    requires WellFormed(t) && t.parser == Ground && t.cols == cols && t.rows == rows && SaneWidths(t.widths)
    ensures InStep(t.widths, Connected(t, mode, cols, rows)) && Faithful(Connected(t, mode, cols, rows))
  {
    var c := Connected(t, mode, cols, rows);
    ConnectClearShowsBlank(t, NewScreen(cols, rows));
    ClearBytes(t);
    BlankLooksEmpty();
  }

  /**
   Over any run of one-column text without a resize, on any terminal: every cell shows its drawn
   prediction, or else the banner while it is up, or else the confirmed cell, and the cursor stands
   at the caret.
   */
  lemma {:induction false} RunIsFaithful(t: Term, mode: Mode, cols: u16, rows: u16, es: seq<PumpEvent>)
    requires WellFormed(t) && t.parser == Ground && t.cols == cols && t.rows == rows && SaneWidths(t.widths)
    requires PlainRun(t.widths, Connected(t, mode, cols, rows), es)
    ensures Faithful(PumpRun(t.widths, Connected(t, mode, cols, rows), es))
    decreases |es|
  {
    var c := Connected(t, mode, cols, rows);
    ConnectedIsFaithful(t, mode, cols, rows);
    if es != [] {
      var last := |es| - 1;
      RunIsFaithful(t, mode, cols, rows, es[..last]);
      RunKeepsInStep(t.widths, c, es[..last]);
      StepIsFaithful(t.widths, PumpRun(t.widths, c, es[..last]), es[last]);
    }
  }

  // ---------- a key ----------

  lemma OneCharIsPredicted(w: WidthTable, ch: scalar)
    requires SaneWidths(w) && IsNarrow(w, ch)
    ensures ClassifyInput(w, Utf8(ch)) == PredictChar(ch, 1)
  {
    NarrowTextClassification(w, [ch]);
    assert Utf8Text([ch]) == Utf8(ch) + Utf8Text([]) == Utf8(ch);
  }

  /**
   A key on the terminal. From any state in step, a character of one column typed where nothing is
   predicted and where it fits stands at the old caret at once, with the cursor behind it, exactly
   if predictions are displayed and their epoch is confirmed. Otherwise the cell shows what is behind.
   */
  lemma TypedIsSeen(w: WidthTable, c: Session, ch: scalar)
    requires InStep(w, c) && IsNarrow(w, ch) && !c.overlay.inPaste
    requires var at := c.overlay.cursor;
             InGrid(c.screen.confirmed, at.row, at.col) && at.col + 1 <= c.overlay.cols && Free(c.overlay, at.row, at.col)
    ensures var at, r := c.overlay.cursor, PumpStep(w, c, Types(Utf8(ch)));
            && InTerm(r.term, at.row, at.col)
            && if Displays(c.overlay) && c.overlay.predictionEpoch <= c.overlay.confirmedEpoch then
                 && r.term.grid[at.row][at.col] == Predicted(c.overlay, ch)
                 && (at.col + 1 < c.screen.cols ==> r.term.row == at.row && r.term.col == at.col + 1)
               else r.term.grid[at.row][at.col] == Behind(c, at.row, at.col)
  {
    OneCharIsPredicted(w, ch);
    StepIsFaithful(w, c, Types(Utf8(ch)));
    var o := Push(c.overlay, ch, 1, c.screen.lastAppliedEpoch);
    var r := PumpStep(w, c, Types(Utf8(ch)));
    TypedOverlay(c, o, ch, r);
    PushStands(c.overlay, o, ch, c.screen.lastAppliedEpoch);
    PushIsSeen(c, o, ch, r);
  }

  lemma TypedOverlay(c: Session, o: Overlay, ch: scalar, r: Session)
    requires Valid(c.screen) && !c.overlay.inPaste && c.overlay.cursor.col + 1 <= c.overlay.cols
    requires o == Push(c.overlay, ch, 1, c.screen.lastAppliedEpoch)
    requires r == Rendered(c.(overlay := OnAction(c.overlay, PredictChar(ch, 1), c.screen)))
    ensures r.overlay == o && r.loss == c.loss && r.screen == c.screen.(physical := r.screen.physical, physicalCursor := r.screen.physicalCursor)
  {}

  lemma PushIsSeen(c: Session, o: Overlay, ch: scalar, r: Session)
    requires r.overlay == o && r.loss == c.loss && r.screen == c.screen.(physical := r.screen.physical, physicalCursor := r.screen.physicalCursor)
    requires Faithful(r) && Valid(c.screen) && InGrid(c.screen.confirmed, c.overlay.cursor.row, c.overlay.cursor.col)
    requires o == Push(c.overlay, ch, 1, c.screen.lastAppliedEpoch) && PushesOne(c.overlay, o, ch)
    ensures var at := c.overlay.cursor;
            && InTerm(r.term, at.row, at.col)
            && if Displays(c.overlay) && c.overlay.predictionEpoch <= c.overlay.confirmedEpoch then
                 && r.term.grid[at.row][at.col] == Predicted(c.overlay, ch)
                 && (at.col + 1 < c.screen.cols ==> r.term.row == at.row && r.term.col == at.col + 1)
               else r.term.grid[at.row][at.col] == Behind(c, at.row, at.col)
  {
    var at := c.overlay.cursor;
    assert InGrid(r.screen.confirmed, at.row, at.col);
    assert CellIsShown(r, at.row, at.col);
    if Displays(o) && o.predictionEpoch <= o.confirmedEpoch {
      assert Drawn(o, |c.overlay.pending|, at.row, at.col);
      assert o.pending[|c.overlay.pending|].tentativeUntil <= o.confirmedEpoch;
      assert PredictsCaret(o);
    }
  }

  /** The new prediction is the only one that stands at the old caret, once its epoch is confirmed. */
  ghost predicate PushesOne(o: Overlay, p: Overlay, ch: scalar) {
    && |p.pending| == |o.pending| + 1 && p.pending[|o.pending|].ch == ch && p.pending[|o.pending|].tentativeUntil == o.predictionEpoch
    && if o.predictionEpoch <= o.confirmedEpoch then
         && StandsAt(p, |o.pending|, o.cursor.row, o.cursor.col)
         && (forall j :: 0 <= j < |o.pending| ==> !StandsAt(p, j, o.cursor.row, o.cursor.col))
       else Free(p, o.cursor.row, o.cursor.col)
  }

  lemma PushStands(o: Overlay, p: Overlay, ch: scalar, lastApplied: u64)
    requires p == Push(o, ch, 1, lastApplied) && Free(o, o.cursor.row, o.cursor.col)
    ensures PushesOne(o, p, ch)
  {
    forall j | 0 <= j < |o.pending|
      ensures !StandsAt(p, j, o.cursor.row, o.cursor.col)
    {
      assert !StandsAt(o, j, o.cursor.row, o.cursor.col);
    }
  }

  // ---------- the server and the banner ----------

  /**
   A datagram that passes the gate ends the banner and every prediction: each cell of the terminal
   shows what the applied screen holds there, and the cursor is the server's unless a caret motion waits.
   */
  lemma DatagramIsSeen(w: WidthTable, c: Session, d: StateDiff, rtt: nat, row: nat, col: nat)
    requires InStep(w, c) && DueNext(c) && Plain(w, c, Arrives(d, rtt)) && d.epoch > c.screen.lastAppliedEpoch
    requires InGrid(c.screen.confirmed, row, col)
    ensures var s, r := ApplyDiff(w, c.screen, d), PumpStep(w, c, Arrives(d, rtt));
            && !r.loss.active && InGrid(s.confirmed, row, col) && InTerm(r.term, row, col)
            && r.term.grid[row][col] == Show(s.confirmed[row][col])
            && (!r.overlay.motionPending ==> Caret(r) == s.confirmedCursor) && CaretIsShown(r)
  {
    StepIsFaithful(w, c, Arrives(d, rtt));
    AcceptedDatagramEmptiesPending(w, c, d, rtt);
    var r := PumpStep(w, c, Arrives(d, rtt));
    assert Free(r.overlay, row, col);
    assert CellIsShown(r, row, col);
  }

  /** Once the server has fallen silent, the first row reads the banner in reverse video wherever nothing is predicted. */
  lemma SilenceIsSeen(w: WidthTable, c: Session, text: seq<scalar>, col: nat)
    requires InStep(w, c) && AllNarrow(w, text) && InGrid(c.screen.confirmed, 0, col) && Free(c.overlay, 0, col)
    ensures var t := PumpStep(w, c, GoesSilent(text)).term;
            && InTerm(t, 0, col)
            && t.grid[0][col] == Glyph(if col < c.loss.cols && col < |text| then text[col] else 32, REVERSED)
  {
    StepIsFaithful(w, c, GoesSilent(text));
    assert CellIsShown(PumpStep(w, c, GoesSilent(text)), 0, col);
  }

  /** A resize by the server reaches screen and overlay alike, drops all predictions and begins a new epoch. */
  lemma ServerResizeIsTaken(w: WidthTable, c: Session, cols: u16, rows: u16, r: nat, k: nat)
    requires Valid(c.screen) && r < rows && k < cols
    ensures var n := PumpStep(w, c, ServerResizes(cols, rows));
            && n.screen.cols == n.overlay.cols == cols && n.screen.rows == n.overlay.rows == rows
            && n.overlay.pending == [] && n.overlay.predictionEpoch == c.overlay.predictionEpoch + 1 && n.overlay.needsSync
            && InGrid(n.screen.confirmed, r, k) && n.screen.confirmed[r][k] == Kept(c.screen.confirmed, r, k)
  {
    ResizeKeeps(c.screen, cols, rows, r, k);
  }
}
