/** When a typed character is displayed at once, what a reset anchors, and the round-trip thresholds. */
module CaretLaws {
  import opened Wire
  import opened Datagram
  import opened Paint
  import opened Screen
  import opened Predictor
  import opened PredictorLaws

  // ---------- display at once ----------

  lemma {:induction false} FirstVisibleSnoc(o: Overlay, ps: seq<Prediction>, p: Prediction, row: nat, col: nat)
    ensures FirstVisible(o, ps + [p], row, col) ==
            if FirstVisible(o, ps, row, col).Some? then FirstVisible(o, ps, row, col)
            else if p.row == row && p.col == col && !IsTentative(o, p) then Some(p)
            else None
  {
    if ps == [] {
      assert ps + [p] == [p] && [p][1..] == [];
    } else {
      FirstVisibleSnoc(o, ps[1..], p, row, col);
      assert (ps + [p])[1..] == ps[1..] + [p];
    }
  }

  lemma {:induction false} FirstVisibleSame(o: Overlay, t: Overlay, ps: seq<Prediction>, row: nat, col: nat)
    requires o.confirmedEpoch == t.confirmedEpoch
    ensures FirstVisible(o, ps, row, col) == FirstVisible(t, ps, row, col)
  {
    if ps != [] { FirstVisibleSame(o, t, ps[1..], row, col); }
  }

  function Shown(o: Overlay, ch: scalar): Cell {
    Cell(ch, if o.flagging then UNDERLINE else 0, None, None, false)
  }

  /**
   The complement of no-echo safety: a character typed on a cell without a visible prediction is
   displayed at once if and only if predictions are displayed and its epoch is confirmed already.
   */
  lemma TypedIsShownIff(o: Overlay, ch: scalar, lastApplied: u64)
    requires !o.inPaste && !Overflows(o, 1)
    requires FirstVisible(o, o.pending, o.cursor.row, o.cursor.col) == None
    ensures CellAt(TypeChar(o, ch, 1, lastApplied), o.cursor.row, o.cursor.col) ==
            if ShouldDisplay(o) && o.predictionEpoch <= o.confirmedEpoch then Some(Shown(o, ch)) else None
  {
    var t := TypeChar(o, ch, 1, lastApplied);
    var p := t.pending[|o.pending|];
    FirstVisibleSame(o, t, o.pending, o.cursor.row, o.cursor.col);
    FirstVisibleSnoc(t, o.pending, p, o.cursor.row, o.cursor.col);
  }

  /** The predictions of a row typed into a new overlay. */
  ghost predicate TypedRow(o: Overlay, chars: seq<scalar>) {
    && o.confirmedEpoch == 0 && o.predictionEpoch == 0 && !o.inPaste && o.mode == Always
    && o.cursor == CursorPos(0, |chars| % 0x1_0000) && |o.pending| == |chars|
    && forall i :: 0 <= i < |chars| ==>
         var p := o.pending[i]; p.row == 0 && p.col == i && p.ch == chars[i] && p.tentativeUntil == 0
  }

  lemma {:induction false} TypeFromNew(cols: u16, rows: u16, chars: seq<scalar>, s: ScreenState)
    requires |chars| <= cols < 0xFFFF
    ensures TypedRow(TypeAll(NewOverlay(Always, cols, rows), chars, s), chars)
    ensures TypeAll(NewOverlay(Always, cols, rows), chars, s).cols == cols
    decreases |chars|
  {
    if chars != [] {
      TypeLast(NewOverlay(Always, cols, rows), chars, s);
      TypeFromNew(cols, rows, chars[..|chars| - 1], s);
    }
  }

  lemma {:induction false} FindTyped(o: Overlay, ps: seq<Prediction>, i: nat)
    requires i < |ps| && o.confirmedEpoch == 0
    requires forall k :: 0 <= k <= i ==> ps[k].row == 0 && ps[k].tentativeUntil == 0 && (ps[k].col == ps[i].col <==> k == i)
    ensures FirstVisible(o, ps, 0, ps[i].col) == Some(ps[i])
  {
    if i > 0 { FindTyped(o, ps[1..], i - 1); }
  }

  /** A new overlay has both epochs at 0, so before any echo at all a row typed into it is displayed as typed. */
  lemma FirstKeysAreShown(cols: u16, rows: u16, chars: seq<scalar>, s: ScreenState, i: nat)
    requires i < |chars| <= cols < 0xFFFF
    ensures var o := TypeAll(NewOverlay(Always, cols, rows), chars, s); CellAt(o, 0, i) == Some(Shown(o, chars[i]))
  {
    TypeFromNew(cols, rows, chars, s);
    var o := TypeAll(NewOverlay(Always, cols, rows), chars, s);
    FindTyped(o, o.pending, i);
  }

  // ---------- the prompt column ----------

  /**
   After a reset, the first cursor sync records the prompt: along any editing from there the
   caret stays at or right of the confirmed column.
   */
  lemma {:induction false} PromptIsAnchored(o: Overlay, confirmed: CursorPos, actions: seq<Action>, s: ScreenState)
    requires o.cols < 0xFFFF && forall i :: 0 <= i < |actions| ==> IsEditing(actions[i])
    ensures var r := EditAll(SyncCursor(Reset(o), confirmed), actions, s); confirmed.col == r.epochStartCol <= r.cursor.col
  {
    CaretStaysRightOfPrompt(SyncCursor(Reset(o), confirmed), actions, s);
  }

  // ---------- the round-trip thresholds ----------

  function UpdateAll(o: Overlay, rtts: seq<nat>): (r: Overlay) {
    if rtts == [] then o else UpdateRtt(UpdateAll(o, rtts[..|rtts| - 1]), rtts[|rtts| - 1])
  }

  /** Some sample is above `on` and none after it is at or below `off`, or none is and it was set before. */
  ghost predicate Latched(before: bool, rtts: seq<nat>, on: nat, off: nat) {
    || (before && forall i :: 0 <= i < |rtts| ==> rtts[i] > off)
    || exists i :: 0 <= i < |rtts| && rtts[i] > on && forall j :: i < j < |rtts| ==> rtts[j] > off
  }

  lemma LatchedSnoc(before: bool, rtts: seq<nat>, rtt: nat, on: nat, off: nat)
    requires off <= on
    ensures Latched(before, rtts + [rtt], on, off) <==> rtt > on || (rtt > off && Latched(before, rtts, on, off))
  {
    var s := rtts + [rtt];
    if rtt > on { assert s[|rtts|] > on; }
    if rtt > off && rtt <= on && Latched(before, rtts, on, off) {
      if i :| 0 <= i < |rtts| && rtts[i] > on && forall j :: i < j < |rtts| ==> rtts[j] > off {
        assert s[i] > on;
      }
    }
    if Latched(before, s, on, off) && rtt <= on {
      assert s[|rtts|] == rtt;
      if i :| 0 <= i < |s| && s[i] > on && forall j :: i < j < |s| ==> s[j] > off {
        assert i < |rtts| && rtts[i] > on;
        assert forall j :: i < j < |rtts| ==> rtts[j] == s[j];
      } else {
        assert forall j :: 0 <= j < |rtts| ==> rtts[j] == s[j];
      }
    }
  }

  /**
   Over any sequence of round-trip samples: underlining is on exactly if the last decisive sample
   was above 80 rather than at or below 50. Adaptive display is on exactly if the last decisive one
   was above 30 rather than at or below 20; while predictions are pending it is not switched off.
   */
  lemma {:induction false} RttHysteresis(o: Overlay, rtts: seq<nat>)
    ensures var r := UpdateAll(o, rtts);
            && r == o.(srttTrigger := r.srttTrigger, flagging := r.flagging)
            && (r.flagging <==> Latched(o.flagging, rtts, 80, 50))
            && (o.pending == [] ==> (r.srttTrigger <==> Latched(o.srttTrigger, rtts, 30, 20)))
            && (o.pending != [] ==> (r.srttTrigger <==> o.srttTrigger || exists i :: 0 <= i < |rtts| && rtts[i] > 30))
    decreases |rtts|
  {
    if rtts != [] {
      var front, rtt := rtts[..|rtts| - 1], rtts[|rtts| - 1];
      RttHysteresis(o, front);
      assert rtts == front + [rtt];
      LatchedSnoc(o.flagging, front, rtt, 80, 50);
      LatchedSnoc(o.srttTrigger, front, rtt, 30, 20);
      assert (exists i :: 0 <= i < |rtts| && rtts[i] > 30) <==> rtt > 30 || exists i :: 0 <= i < |front| && front[i] > 30;
    }
  }
}
