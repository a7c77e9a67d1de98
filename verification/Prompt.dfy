/**
 Where the prompt is recorded after Enter: the datagram arm of the pump culls, resets on entry of
 the alternate screen and on a new size, and only then syncs the predicted cursor.
 */
module Prompt {
  import opened Wire
  import opened Widths
  import opened Datagram
  import opened Paint
  import opened Screen
  import opened Predictor
  import opened PredictorLaws
  import opened Client

  predicate Passes(c: Session, d: StateDiff) {
    d.epoch > c.screen.lastAppliedEpoch
  }

  /** An accepted datagram that enters the alternate screen or brings a new size, or a resize by the server. */
  predicate Resets(c: Session, e: PumpEvent) {
    match e
    case Arrives(d, _) =>
      && Passes(c, d)
      && ((d.altScreen && !c.wasAlt) || (PlausibleSize(d) && (d.cols != c.screen.cols || d.rows != c.screen.rows)))
    case ServerResizes(_, _) => true
    case _ => false
  }

  /** No key in the run. */
  ghost predicate Keyless(es: seq<PumpEvent>) {
    forall i :: 0 <= i < |es| ==> !es[i].Types?
  }

  ghost predicate EverResets(w: WidthTable, c: Session, es: seq<PumpEvent>)
    requires Valid(c.screen)
    decreases |es|
  {
    es != [] && (EverResets(w, c, es[..|es| - 1]) || Resets(PumpRun(w, c, es[..|es| - 1]), es[|es| - 1]))
  }

  lemma CullNothing(o: Overlay, s: ScreenState, epoch: nat, rtt: nat)
    requires o.pending == []
    ensures Cull(o, s, epoch, rtt) == UpdateRtt(o, rtt)
  {
    assert o.pending[..0] == [];
  }

  /** The overlay keeps the caret, and waits to record a prompt. */
  predicate Held(o: Overlay, at: CursorPos) {
    o.pending == [] && o.motionPending && o.needsSync && o.epochStartCol == 0 && o.cursor == at
  }

  /** Nothing keeps the caret from the confirmed cursor. */
  predicate Freed(o: Overlay) {
    o.pending == [] && !o.motionPending
  }

  /** What an accepted datagram does to an overlay without predictions. */
  lemma AcceptedStep(w: WidthTable, c: Session, d: StateDiff, rtt: nat)
    requires Valid(c.screen) && c.overlay.pending == [] && Passes(c, d)
    ensures var r := Receives(w, c, d, rtt);
            if c.overlay.motionPending && !Resets(c, Arrives(d, rtt)) then r.overlay == UpdateRtt(c.overlay, rtt)
            else
              && Freed(r.overlay) && !r.overlay.needsSync && r.overlay.cursor == r.screen.confirmedCursor
              && (Resets(c, Arrives(d, rtt)) || c.overlay.needsSync ==> r.overlay.epochStartCol == r.screen.confirmedCursor.col)
  {
    var s := ApplyDiff(w, c.screen, d);
    var a := if d.altScreen && !c.wasAlt then Reset(c.overlay) else c.overlay;
    CullNothing(a, s, d.epoch, rtt);
  }

  lemma {:induction false} HeldStep(w: WidthTable, c: Session, e: PumpEvent, at: CursorPos)
    requires Valid(c.screen) && !e.Types? && (Held(c.overlay, at) || Freed(c.overlay))
    ensures var r := PumpStep(w, c, e);
            if Held(c.overlay, at) && !Resets(c, e) then Held(r.overlay, at) else Freed(r.overlay)
  {
    if e.Arrives? && Passes(c, e.diff) {
      AcceptedStep(w, c, e.diff, e.rtt);
    }
  }

  /** Along any run without keys, the caret stays held if and only if nothing resets. */
  lemma {:induction false} HeldRun(w: WidthTable, c: Session, es: seq<PumpEvent>, at: CursorPos)
    requires Valid(c.screen) && Held(c.overlay, at) && Keyless(es)
    ensures if EverResets(w, c, es) then Freed(PumpRun(w, c, es).overlay) else Held(PumpRun(w, c, es).overlay, at)
    decreases |es|
  {
    if es != [] {
      var last := |es| - 1;
      HeldRun(w, c, es[..last], at);
      HeldStep(w, PumpRun(w, c, es[..last]), es[last], at);
    }
  }

  /**
   After Enter, along any run without keys in which nothing resets: whatever arrives, the prompt
   column is not recorded and the displayed caret stays on the predicted line start.
   */
  lemma {:induction false} EnterWaitsForKey(w: WidthTable, c: Session, o: Overlay, es: seq<PumpEvent>)
    requires Valid(c.screen) && c.overlay == EnterLine(o) && Keyless(es) && !EverResets(w, c, es)
    ensures var r := PumpRun(w, c, es).overlay;
            && r.needsSync && r.epochStartCol == 0 && r.cursor == EnterLine(o).cursor && r.cursor.col == 0
            && PredictedCursor(r) == if ShouldDisplay(r) then Some(r.cursor) else None
  {
    HeldRun(w, c, es, EnterLine(o).cursor);
  }

  /** Datagrams and silence only. */
  ghost predicate Unsized(es: seq<PumpEvent>) {
    forall i :: 0 <= i < |es| ==> es[i].Arrives? || es[i].GoesSilent?
  }

  /** The caret is where the server's cursor is, and the prompt has been recorded. */
  predicate Recorded(c: Session) {
    Freed(c.overlay) && !c.overlay.needsSync && c.overlay.cursor == c.screen.confirmedCursor
  }

  lemma RecordedStep(w: WidthTable, c: Session, e: PumpEvent, at: CursorPos)
    requires Valid(c.screen) && (e.Arrives? || e.GoesSilent?) && (Held(c.overlay, at) || Recorded(c))
    ensures var r := PumpStep(w, c, e);
            if Held(c.overlay, at) && !Resets(c, e) then Held(r.overlay, at) else Recorded(r)
  {
    if e.Arrives? && Passes(c, e.diff) {
      AcceptedStep(w, c, e.diff, e.rtt);
    }
  }

  /**
   After Enter, along any run of datagrams and silence: the prompt is recorded if and only if some
   accepted datagram enters the alternate screen or brings a new size. Then the caret follows the
   server's cursor again.
   */
  lemma {:induction false} PromptRecordedIff(w: WidthTable, c: Session, o: Overlay, es: seq<PumpEvent>)
    requires Valid(c.screen) && c.overlay == EnterLine(o) && Unsized(es)
    ensures !PumpRun(w, c, es).overlay.needsSync <==> EverResets(w, c, es)
    ensures EverResets(w, c, es) ==> Recorded(PumpRun(w, c, es))
    ensures !EverResets(w, c, es) ==> Held(PumpRun(w, c, es).overlay, EnterLine(o).cursor)
    decreases |es|
  {
    if es != [] {
      var last := |es| - 1;
      PromptRecordedIff(w, c, o, es[..last]);
      RecordedStep(w, PumpRun(w, c, es[..last]), es[last], EnterLine(o).cursor);
    }
  }

  /**
   Otherwise the next key decides: the datagram accepted after it records its own cursor column,
   which lies behind the key if the datagram holds its echo. Erasing from there is not predicted.
   */
  lemma PromptIsRecordedLate(w: WidthTable, c: Session, o: Overlay, ch: scalar, width: u16, d: StateDiff, rtt: nat)
    requires Valid(c.screen) && !o.inPaste && !Overflows(EnterLine(o), width)
    requires c.overlay == TypeChar(EnterLine(o), ch, width, c.screen.lastAppliedEpoch) && Passes(c, d)
    ensures var r := Receives(w, c, d, rtt);
            && Recorded(r) && r.overlay.epochStartCol == r.screen.confirmedCursor.col
            && Backspace(r.overlay) == r.overlay
  {
    var s := ApplyDiff(w, c.screen, d);
    var a := if d.altScreen && !c.wasAlt then Reset(c.overlay) else c.overlay;
    assert c.overlay.pending == [c.overlay.pending[0]];
    CullAllDue(a, s, d.epoch, rtt);
    CullKeepsFlags(a, s, d.epoch, rtt);
    SettleRecords(Cull(a, s, d.epoch, rtt), c.screen, s);
  }

  lemma CullKeepsFlags(o: Overlay, s: ScreenState, epoch: nat, rtt: nat)
    requires !o.motionPending && o.needsSync
    ensures !Cull(o, s, epoch, rtt).motionPending && Cull(o, s, epoch, rtt).needsSync
  {}

  lemma SettleRecords(o: Overlay, before: ScreenState, s: ScreenState)
    requires Freed(o) && o.needsSync
    ensures var r := Settle(o, before, s);
            Freed(r) && !r.needsSync && r.cursor == s.confirmedCursor && r.epochStartCol == s.confirmedCursor.col
  {}

  /** Only entering the alternate screen resets: of two datagrams in a row that are on it, the second does not. */
  lemma EntryResetsOnce(w: WidthTable, c: Session, d: StateDiff, rtt: nat, e: StateDiff, again: nat)
    requires Valid(c.screen) && Passes(c, d) && e.epoch > d.epoch && d.altScreen
    requires PlausibleSize(d) && e.cols == d.cols && e.rows == d.rows
    ensures var r := Receives(w, c, d, rtt); Passes(r, e) && !Resets(r, Arrives(e, again))
  {}
}
