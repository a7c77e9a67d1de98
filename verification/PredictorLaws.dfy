/** What the predictor promises along every run of its operations. */
module PredictorLaws {
  import opened Wire
  import opened StableSort
  import opened Datagram
  import opened Paint
  import opened Screen
  import opened Predictor

  // ---------- runs ----------

  /** Every operation the pump performs on the overlay; screens and epochs are arbitrary. */
  datatype Event =
    | Input(action: Action, screen: ScreenState)
    | Confirm(screen: ScreenState, epoch: nat, rtt: nat)
    | Sync(cursor: CursorPos)
    | Resize(cols: u16, rows: u16)
    | Clear

  function Step(o: Overlay, e: Event): Overlay {
    match e
    case Input(a, s) => OnAction(o, a, s)
    case Confirm(s, epoch, rtt) => Cull(o, s, epoch, rtt)
    case Sync(cursor) => SyncCursor(o, cursor)
    case Resize(cols, rows) => SetSize(o, cols, rows)
    case Clear => Reset(o)
  }

  function Run(o: Overlay, es: seq<Event>): (r: Overlay)
    decreases |es|
  {
    if es == [] then o else Step(Run(o, es[..|es| - 1]), es[|es| - 1])
  }

  // ---------- what the screen says of a prediction ----------

  /** The screen shows the predicted character at its cell, and it is not blank. */
  predicate Echoed(p: Prediction, s: ScreenState) {
    InGrid(s.confirmed, p.row, p.col) && s.confirmed[p.row][p.col].ch == p.ch && p.ch != SPACE
  }

  /** The screen shows something else there; beyond the screen all is blank. */
  predicate Refuted(p: Prediction, s: ScreenState) {
    if InGrid(s.confirmed, p.row, p.col) then s.confirmed[p.row][p.col].ch != p.ch else p.ch != SPACE
  }

  /** One of the first `n` predictions is due and echoed, and of epoch `floor` or later. */
  ghost predicate EchoAmong(ps: seq<Prediction>, n: nat, s: ScreenState, epoch: nat, floor: nat)
    requires n <= |ps|
  {
    exists j :: 0 <= j < n && ps[j].epochRequired <= epoch && Echoed(ps[j], s) && ps[j].tentativeUntil >= floor
  }

  /** Prediction `i` is due and refuted, and was visible or has become so by an echo before it. */
  ghost predicate Betrays(o: Overlay, s: ScreenState, epoch: nat, i: nat)
    requires i < |o.pending|
  {
    var p := o.pending[i];
    && p.epochRequired <= epoch && Refuted(p, s)
    && (p.tentativeUntil <= o.confirmedEpoch || EchoAmong(o.pending, i, s, epoch, p.tentativeUntil))
  }

  /** The step sees a non-blank echo of a prediction made in epoch `floor` or later, and nothing betrayed before it. */
  ghost predicate Credits(o: Overlay, e: Event, floor: nat) {
    && e.Confirm?
    && (exists i :: 0 <= i < |o.pending| && o.pending[i].epochRequired <= e.epoch && Echoed(o.pending[i], e.screen) &&
          o.pending[i].tentativeUntil >= floor && forall j :: 0 <= j < i ==> !Betrays(o, e.screen, e.epoch, j))
  }

  /** Some step of the run does. */
  ghost predicate EverCredits(o: Overlay, es: seq<Event>, floor: nat)
    decreases |es|
  {
    es != [] && (EverCredits(o, es[..|es| - 1], floor) || Credits(Run(o, es[..|es| - 1]), es[|es| - 1], floor))
  }

  // ---------- no-echo safety ----------

  /** Raising reaches `floor` exactly when some credited prediction does. */
  lemma {:induction false} RaiseReaches(confirmed: nat, ps: seq<Prediction>, s: ScreenState, epoch: nat, floor: nat)
    requires confirmed < floor
    ensures Raise(confirmed, ps, s, epoch) >= floor <==>
            exists i :: 0 <= i < |ps| && Credited(ps[i], s, epoch) && ps[i].tentativeUntil >= floor
    decreases |ps|
  {
    if ps != [] {
      var last := |ps| - 1;
      RaiseReaches(confirmed, ps[..last], s, epoch, floor);
    }
  }

  lemma InputKeepsConfirmed(o: Overlay, a: Action, s: ScreenState)
    ensures OnAction(o, a, s).confirmedEpoch == o.confirmedEpoch
  {
    if a.PredictBatch? {
      PushAllKeeps(o, a.chars, s.lastAppliedEpoch);
    }
  }

  lemma CreditedIffEchoed(p: Prediction, s: ScreenState, epoch: nat)
    ensures Credited(p, s, epoch) <==> p.epochRequired <= epoch && Echoed(p, s)
    ensures Due(p, epoch) && Mismatch(p, s) <==> p.epochRequired <= epoch && Refuted(p, s)
  {}

  lemma RaiseReachesIffEcho(confirmed: nat, ps: seq<Prediction>, n: nat, s: ScreenState, epoch: nat, floor: nat)
    requires n <= |ps| && confirmed < floor
    ensures Raise(confirmed, ps[..n], s, epoch) >= floor <==> EchoAmong(ps, n, s, epoch, floor)
  {
    RaiseReaches(confirmed, ps[..n], s, epoch, floor);
    forall j | 0 <= j < n
      ensures Credited(ps[..n][j], s, epoch) <==> ps[j].epochRequired <= epoch && Echoed(ps[j], s)
    {
      CreditedIffEchoed(ps[j], s, epoch);
    }
  }

  lemma ResetsAtIffBetrays(o: Overlay, s: ScreenState, epoch: nat, i: nat)
    requires i < |o.pending|
    ensures ResetsAt(o, s, epoch, i) <==> Betrays(o, s, epoch, i)
  {
    CreditedIffEchoed(o.pending[i], s, epoch);
    if o.pending[i].tentativeUntil > o.confirmedEpoch {
      RaiseReachesIffEcho(o.confirmedEpoch, o.pending, i, s, epoch, o.pending[i].tentativeUntil);
    }
  }

  /** Where culling stops: at the first prediction betrayed by the screen. */
  lemma ResetIsFirstBetrayed(o: Overlay, s: ScreenState, epoch: nat, rtt: nat, k: nat)
    requires k == ResetIndex(UpdateRtt(o, rtt), s, epoch, 0)
    ensures k <= |o.pending| && (k < |o.pending| ==> Betrays(o, s, epoch, k))
    ensures forall j :: 0 <= j < k ==> !Betrays(o, s, epoch, j)
  {
    var u := UpdateRtt(o, rtt);
    ResetIndexIsFirst(u, s, epoch, 0);
    forall j | 0 <= j < |o.pending|
      ensures ResetsAt(u, s, epoch, j) <==> Betrays(o, s, epoch, j)
    {
      ResetsAtIffBetrays(u, s, epoch, j);
    }
  }

  lemma StepRaisesIffCredits(o: Overlay, e: Event, floor: nat)
    requires o.confirmedEpoch < floor
    ensures Step(o, e).confirmedEpoch >= floor <==> Credits(o, e, floor)
  {
    if e.Confirm? {
      var k := ResetIndex(UpdateRtt(o, e.rtt), e.screen, e.epoch, 0);
      ResetIsFirstBetrayed(o, e.screen, e.epoch, e.rtt, k);
      RaiseReachesIffEcho(o.confirmedEpoch, o.pending, k, e.screen, e.epoch, floor);
    } else if e.Input? {
      InputKeepsConfirmed(o, e.action, e.screen);
    }
  }

  lemma {:induction false} PushAllKeeps(o: Overlay, chars: seq<scalar>, lastApplied: u64)
    ensures var r := PushAll(o, chars, lastApplied);
            && r.confirmedEpoch == o.confirmedEpoch && r.predictionEpoch >= o.predictionEpoch
            && o.pending <= r.pending
            && (forall i :: |o.pending| <= i < |r.pending| ==> r.pending[i].tentativeUntil == o.predictionEpoch)
    decreases |chars|
  {
    if chars != [] && !Overflows(o, 1) {
      PushAllKeeps(Push(o, chars[0], 1, lastApplied), chars[1..], lastApplied);
    }
  }

  lemma {:induction false} WithoutCellSubset(ps: seq<Prediction>, row: u16, col: u16)
    ensures forall p :: p in WithoutCell(ps, row, col) ==> p in ps
  {
    if ps != [] { WithoutCellSubset(ps[1..], row, col); }
  }

  lemma {:induction false} SurvivorsSubset(ps: seq<Prediction>, killed: set<nat>, epoch: nat)
    ensures forall p :: p in Survivors(ps, killed, epoch) <==> p in ps && !Due(p, epoch) && p.tentativeUntil !in killed
  {
    if ps != [] { SurvivorsSubset(ps[1..], killed, epoch); }
  }

  ghost predicate NoOlderThan(before: seq<Prediction>, after: seq<Prediction>, floor: nat) {
    forall p :: p in after ==> p in before || p.tentativeUntil >= floor
  }

  lemma InputPredictsInEpoch(o: Overlay, a: Action, s: ScreenState)
    ensures OnAction(o, a, s).predictionEpoch >= o.predictionEpoch
    ensures NoOlderThan(o.pending, OnAction(o, a, s).pending, o.predictionEpoch)
  {
    if a.PredictBatch? {
      PushAllKeeps(o, a.chars, s.lastAppliedEpoch);
    } else if a.PredictBackspace? && o.cursor.col > o.epochStartCol {
      WithoutCellSubset(o.pending, o.cursor.row, o.cursor.col - 1);
    }
  }

  lemma CullOnlyRemoves(o: Overlay, s: ScreenState, epoch: nat, rtt: nat)
    ensures Cull(o, s, epoch, rtt).predictionEpoch >= o.predictionEpoch
    ensures forall p :: p in Cull(o, s, epoch, rtt).pending ==> p in o.pending
  {
    SurvivorsSubset(o.pending, Killed(o.pending, s, epoch), epoch);
  }

  /** A prediction made by a step carries an epoch no older than the one in force. */
  lemma StepPredictsInEpoch(o: Overlay, e: Event)
    ensures Step(o, e).predictionEpoch >= o.predictionEpoch
    ensures NoOlderThan(o.pending, Step(o, e).pending, o.predictionEpoch)
  {
    if e.Input? {
      InputPredictsInEpoch(o, e.action, e.screen);
    } else if e.Confirm? {
      CullOnlyRemoves(o, e.screen, e.epoch, e.rtt);
    }
  }

  lemma {:induction false} RunPredictsInEpoch(o: Overlay, es: seq<Event>)
    ensures Run(o, es).predictionEpoch >= o.predictionEpoch
    ensures NoOlderThan(o.pending, Run(o, es).pending, o.predictionEpoch)
    decreases |es|
  {
    if es != [] {
      var last := |es| - 1;
      RunPredictsInEpoch(o, es[..last]);
      StepPredictsInEpoch(Run(o, es[..last]), es[last]);
    }
  }

  lemma StepConfirmedMonotone(o: Overlay, e: Event)
    ensures Step(o, e).confirmedEpoch >= o.confirmedEpoch
  {
    if e.Input? {
      InputKeepsConfirmed(o, e.action, e.screen);
    }
  }

  /** Over any run, the confirmed epoch reaches `floor` if and only if some step credits an epoch that high. */
  lemma {:induction false} ReachesIffCredited(o: Overlay, es: seq<Event>, floor: nat)
    requires o.confirmedEpoch < floor
    ensures Run(o, es).confirmedEpoch >= floor <==> EverCredits(o, es, floor)
    decreases |es|
  {
    if es != [] {
      var last := |es| - 1;
      var mid := Run(o, es[..last]);
      ReachesIffCredited(o, es[..last], floor);
      StepConfirmedMonotone(mid, es[last]);
      if mid.confirmedEpoch < floor {
        StepRaisesIffCredits(mid, es[last], floor);
      }
    }
  }

  /**
   No-echo safety. Once the prediction epoch is ahead of the confirmed one, nothing typed from
   then on is displayed until a non-blank echo of something typed from then on is confirmed:
   whatever `cell_at` returns before that was already pending, from an older epoch. Late
   confirmations of older predictions and blank matches are ordinary steps of the run.
   */
  lemma NoEchoSafety(o: Overlay, es: seq<Event>, row: nat, col: nat)
    requires o.confirmedEpoch < o.predictionEpoch
    requires !EverCredits(o, es, o.predictionEpoch)
    ensures CellAt(Run(o, es), row, col).Some? ==>
            exists p :: p in o.pending && p.tentativeUntil < o.predictionEpoch &&
              p.row == row && p.col == col && p.ch == CellAt(Run(o, es), row, col).value.ch
  {
    ReachesIffCredited(o, es, o.predictionEpoch);
    RunPredictsInEpoch(o, es);
    var r := Run(o, es);
    if CellAt(r, row, col).Some? {
      var p := FirstVisible(r, r.pending, row, col).value;
      assert p in o.pending;
    }
  }

  /** No epoch is confirmed before it is used, and no prediction is of a later epoch than the current one. */
  ghost predicate InOrder(o: Overlay) {
    o.confirmedEpoch <= o.predictionEpoch && forall p :: p in o.pending ==> p.tentativeUntil <= o.predictionEpoch
  }

  lemma InputKeepsInOrder(o: Overlay, a: Action, s: ScreenState)
    requires InOrder(o)
    ensures InOrder(OnAction(o, a, s))
  {
    InputKeepsConfirmed(o, a, s);
    InputPredictsInEpoch(o, a, s);
    if a.PredictBatch? {
      PushAllKeeps(o, a.chars, s.lastAppliedEpoch);
    } else if a.PredictBackspace? && o.cursor.col > o.epochStartCol {
      WithoutCellSubset(o.pending, o.cursor.row, o.cursor.col - 1);
    }
  }

  lemma StepKeepsInOrder(o: Overlay, e: Event)
    requires InOrder(o)
    ensures InOrder(Step(o, e))
  {
    if e.Input? {
      InputKeepsInOrder(o, e.action, e.screen);
    } else if e.Confirm? {
      CullOnlyRemoves(o, e.screen, e.epoch, e.rtt);
      StepRaisesIffCredits(o, e, o.predictionEpoch + 1);
    }
  }

  lemma {:induction false} RunKeepsInOrder(o: Overlay, es: seq<Event>)
    requires InOrder(o)
    ensures InOrder(Run(o, es))
    decreases |es|
  {
    if es != [] {
      var last := |es| - 1;
      RunKeepsInOrder(o, es[..last]);
      StepKeepsInOrder(Run(o, es[..last]), es[last]);
    }
  }

  /** Enter, keys that are not predicted, and the start of a paste begin a new epoch with nothing pending. */
  predicate StartsEpoch(a: Action) {
    a.PredictEnter? || a.EpochReset? || a.PasteStart?
  }

  /**
   Whatever has happened since the overlay was created: after such a key nothing at all is displayed
   until an echo of something typed after it is confirmed, however long a password is being typed.
   */
  lemma HiddenUntilEchoed(mode: Mode, cols: u16, rows: u16, before: seq<Event>, a: Action, s: ScreenState,
                          after: seq<Event>, row: nat, col: nat)
    requires StartsEpoch(a)
    requires var o := OnAction(Run(NewOverlay(mode, cols, rows), before), a, s); !EverCredits(o, after, o.predictionEpoch)
    ensures CellAt(Run(OnAction(Run(NewOverlay(mode, cols, rows), before), a, s), after), row, col) == None
  {
    RunKeepsInOrder(NewOverlay(mode, cols, rows), before);
    var o := OnAction(Run(NewOverlay(mode, cols, rows), before), a, s);
    assert o.pending == [] && o.confirmedEpoch < o.predictionEpoch;
    NoEchoSafety(o, after, row, col);
  }

  ghost predicate NoneEchoed(ps: seq<Prediction>, s: ScreenState) {
    forall p :: p in ps ==> !Echoed(p, s)
  }

  /** No screen of the run shows, at the cell of a prediction then pending, that prediction's non-blank character. */
  ghost predicate NeverEchoes(o: Overlay, es: seq<Event>)
    decreases |es|
  {
    es != [] ==>
      && NeverEchoes(o, es[..|es| - 1])
      && (es[|es| - 1].Confirm? ==> NoneEchoed(Run(o, es[..|es| - 1]).pending, es[|es| - 1].screen))
  }

  lemma {:induction false} NoEchoNoCredit(o: Overlay, es: seq<Event>, floor: nat)
    requires NeverEchoes(o, es)
    ensures !EverCredits(o, es, floor)
    decreases |es|
  {
    if es != [] {
      NoEchoNoCredit(o, es[..|es| - 1], floor);
    }
  }

  /** So as long as the screen never shows what is typed, nothing typed is displayed: a password stays hidden. */
  lemma {:induction false} UnechoedStaysHidden(mode: Mode, cols: u16, rows: u16, before: seq<Event>, a: Action, s: ScreenState,
                                               after: seq<Event>, row: nat, col: nat)
    requires StartsEpoch(a)
    requires NeverEchoes(OnAction(Run(NewOverlay(mode, cols, rows), before), a, s), after)
    ensures CellAt(Run(OnAction(Run(NewOverlay(mode, cols, rows), before), a, s), after), row, col) == None
  {
    var o := OnAction(Run(NewOverlay(mode, cols, rows), before), a, s);
    NoEchoNoCredit(o, after, o.predictionEpoch);
    HiddenUntilEchoed(mode, cols, rows, before, a, s, after, row, col);
  }

  // ---------- what culling does, cell by cell ----------

  /** Not due yet, and of an epoch without a refuted prediction. */
  ghost predicate Outlives(ps: seq<Prediction>, s: ScreenState, epoch: nat, p: Prediction) {
    && p.epochRequired > epoch
    && !exists q :: q in ps && q.epochRequired <= epoch && Refuted(q, s) && q.tentativeUntil == p.tentativeUntil
  }

  lemma {:induction false} SurvivorsSelect(ps: seq<Prediction>, killed: set<nat>, epoch: nat, keep: Prediction -> bool)
    requires forall p :: p in ps ==> (keep(p) <==> !Due(p, epoch) && p.tentativeUntil !in killed)
    ensures Survivors(ps, killed, epoch) == Select(keep, ps)
  {
    if ps != [] {
      assert ps[0] in ps;
      SurvivorsSelect(ps[1..], killed, epoch, keep);
    }
  }

  lemma KilledIffRefuted(ps: seq<Prediction>, s: ScreenState, epoch: nat, p: Prediction)
    ensures Outlives(ps, s, epoch, p) <==> !Due(p, epoch) && p.tentativeUntil !in Killed(ps, s, epoch)
  {
    if q :| q in ps && q.epochRequired <= epoch && Refuted(q, s) && q.tentativeUntil == p.tentativeUntil {
      var i :| 0 <= i < |ps| && ps[i] == q;
      CreditedIffEchoed(ps[i], s, epoch);
    }
    if p.tentativeUntil in Killed(ps, s, epoch) {
      var i :| 0 <= i < |ps| && Due(ps[i], epoch) && Mismatch(ps[i], s) && ps[i].tentativeUntil == p.tentativeUntil;
      CreditedIffEchoed(ps[i], s, epoch);
    }
  }

  /**
   Culling against a screen, for every overlay, in terms of what the screen shows. If a due
   prediction is betrayed, everything is dropped and a new epoch begins. Otherwise exactly the
   predictions stay that are not due and share no epoch with a refuted one, in their order, and
   the confirmed epoch rises to the latest epoch echoed.
   */
  lemma CullOutcome(o: Overlay, s: ScreenState, epoch: nat, rtt: nat, floor: nat)
    ensures var r := Cull(o, s, epoch, rtt);
            if exists i :: 0 <= i < |o.pending| && Betrays(o, s, epoch, i) then
              r.pending == [] && r.predictionEpoch == o.predictionEpoch + 1 && r.needsSync && !r.motionPending
            else
              && r.pending == Select(p => Outlives(o.pending, s, epoch, p), o.pending)
              && r.predictionEpoch == o.predictionEpoch && r.needsSync == o.needsSync && r.motionPending == o.motionPending
              && (floor > o.confirmedEpoch ==>
                  (r.confirmedEpoch >= floor <==> EchoAmong(o.pending, |o.pending|, s, epoch, floor)))
  {
    var k := ResetIndex(UpdateRtt(o, rtt), s, epoch, 0);
    ResetIsFirstBetrayed(o, s, epoch, rtt, k);
    if k == |o.pending| {
      assert o.pending[..k] == o.pending;
      if floor > o.confirmedEpoch { RaiseReachesIffEcho(o.confirmedEpoch, o.pending, k, s, epoch, floor); }
      forall p | p in o.pending
        ensures Outlives(o.pending, s, epoch, p) <==> !Due(p, epoch) && p.tentativeUntil !in Killed(o.pending, s, epoch)
      {
        KilledIffRefuted(o.pending, s, epoch, p);
      }
      SurvivorsSelect(o.pending, Killed(o.pending, s, epoch), epoch, p => Outlives(o.pending, s, epoch, p));
    }
  }

  /**
   For one due prediction on the screen: if the screen shows its character, it goes, nothing is
   reset, and a non-blank character confirms its epoch. Otherwise it goes with a reset if it was
   visible, and silently if not.
   */
  lemma CullOne(o: Overlay, p: Prediction, s: ScreenState, epoch: nat, rtt: nat)
    requires o.pending == [p] && p.epochRequired <= epoch && InGrid(s.confirmed, p.row, p.col)
    ensures var r := Cull(o, s, epoch, rtt);
            && r.pending == []
            && if s.confirmed[p.row][p.col].ch == p.ch then
                 && r.predictionEpoch == o.predictionEpoch && r.needsSync == o.needsSync
                 && r.confirmedEpoch == if p.ch != SPACE && p.tentativeUntil > o.confirmedEpoch then p.tentativeUntil else o.confirmedEpoch
               else
                 && r.confirmedEpoch == o.confirmedEpoch
                 && (if p.tentativeUntil <= o.confirmedEpoch then r.predictionEpoch == o.predictionEpoch + 1 && r.needsSync
                     else r.predictionEpoch == o.predictionEpoch && r.needsSync == o.needsSync)
  {
    CullAllDue(o, s, epoch, rtt);
    var u := UpdateRtt(o, rtt);
    assert u.pending[..1] == [p] && u.pending[..0] == [] && [p][..0] == [];
    assert Raise(u.confirmedEpoch, [], s, epoch) == u.confirmedEpoch;
    assert ResetIndex(u, s, epoch, 0) == if ResetsAt(u, s, epoch, 0) then 0 else 1;
  }

  // ---------- predictions end with the next accepted datagram ----------

  lemma {:induction false} NoSurvivors(ps: seq<Prediction>, killed: set<nat>, epoch: nat)
    requires forall p :: p in ps ==> Due(p, epoch)
    ensures Survivors(ps, killed, epoch) == []
  {
    if ps != [] { NoSurvivors(ps[1..], killed, epoch); }
  }

  /** After a cull at an epoch that every prediction is due for, nothing is pending. */
  lemma CullAllDue(o: Overlay, s: ScreenState, epoch: nat, rtt: nat)
    requires forall p :: p in o.pending ==> Due(p, epoch)
    ensures Cull(o, s, epoch, rtt).pending == []
  {
    NoSurvivors(o.pending, Killed(o.pending, s, epoch), epoch);
  }

  lemma {:induction false} PushAllRequires(o: Overlay, chars: seq<scalar>, lastApplied: u64)
    ensures forall p :: p in PushAll(o, chars, lastApplied).pending ==>
      p in o.pending || p.epochRequired <= lastApplied + 1
    decreases |chars|
  {
    if chars != [] && !Overflows(o, 1) {
      PushAllRequires(Push(o, chars[0], 1, lastApplied), chars[1..], lastApplied);
    }
  }

  /** An input never asks for a later epoch than the one after the last applied. */
  lemma InputRequiresNextEpoch(o: Overlay, a: Action, s: ScreenState)
    ensures forall p :: p in OnAction(o, a, s).pending ==> p in o.pending || p.epochRequired <= s.lastAppliedEpoch + 1
  {
    if a.PredictBatch? {
      PushAllRequires(o, a.chars, s.lastAppliedEpoch);
    } else if a.PredictBackspace? && o.cursor.col > o.epochStartCol {
      WithoutCellSubset(o.pending, o.cursor.row, o.cursor.col - 1);
    }
  }

  // ---------- input algebra ----------

  /** The characters typed one at a time. */
  function TypeAll(o: Overlay, chars: seq<scalar>, s: ScreenState): (r: Overlay)
    decreases |chars|
  {
    if chars == [] then o else TypeAll(TypeChar(o, chars[0], 1, s.lastAppliedEpoch), chars[1..], s)
  }

  lemma {:induction false} TypeWhenFull(o: Overlay, chars: seq<scalar>, s: ScreenState)
    requires !o.inPaste && Overflows(o, 1)
    ensures TypeAll(o, chars, s) == o.(predictionEpoch := o.predictionEpoch + |chars|)
    decreases |chars|
  {
    if chars != [] { TypeWhenFull(BecomeTentative(o), chars[1..], s); }
  }

  lemma {:induction false} TypeInPaste(o: Overlay, chars: seq<scalar>, s: ScreenState)
    requires o.inPaste
    ensures TypeAll(o, chars, s) == o
    decreases |chars|
  {
    if chars != [] { TypeInPaste(o, chars[1..], s); }
  }

  /**
   A batch is the same as its characters typed singly, if and only if at most one of them
   does not fit the row: a batch stops at the first, single keys each start a new epoch.
   */
  lemma {:induction false} BatchIsSinglesIff(o: Overlay, chars: seq<scalar>, s: ScreenState)
    requires o.cols < 0xFFFF
    ensures OnAction(o, PredictBatch(chars), s) == TypeAll(o, chars, s) <==>
            o.inPaste || |chars| <= 1 || o.cursor.col + |chars| <= o.cols + 1
    decreases |chars|
  {
    if o.inPaste {
      TypeInPaste(o, chars, s);
    } else if chars != [] {
      if Overflows(o, 1) {
        TypeWhenFull(o, chars, s);
      } else {
        BatchIsSinglesIff(Push(o, chars[0], 1, s.lastAppliedEpoch), chars[1..], s);
      }
    }
  }

  function Backspaces(o: Overlay, n: nat): (r: Overlay) {
    if n == 0 then o else Backspace(Backspaces(o, n - 1))
  }

  lemma {:induction false} BackspaceFirst(o: Overlay, n: nat)
    requires n > 0
    ensures Backspaces(o, n) == Backspaces(Backspace(o), n - 1)
  {
    if n > 1 { BackspaceFirst(o, n - 1); }
  }

  lemma {:induction false} WithoutFreshCell(ps: seq<Prediction>, p: Prediction)
    requires forall q :: q in ps ==> !(q.row == p.row && q.col == p.col)
    ensures WithoutCell(ps + [p], p.row, p.col) == ps
  {
    if ps == [] {
      assert ps + [p] == [p] && [p][1..] == [];
    } else {
      WithoutFreshCell(ps[1..], p);
      assert (ps + [p])[1..] == ps[1..] + [p];
      assert ps[0] in ps && ps == [ps[0]] + ps[1..];
    }
  }

  /** No pending prediction on the `n` cells from the cursor on. */
  ghost predicate ClearAhead(o: Overlay, n: nat) {
    forall q :: q in o.pending ==> !(q.row == o.cursor.row && o.cursor.col <= q.col < o.cursor.col + n)
  }

  /**
   Typing k characters that fit and erasing them restores the overlay, up to the flag that
   keeps the caret displayed, provided the cells typed over held no older prediction.
   */
  lemma {:induction false} TypeThenErase(o: Overlay, chars: seq<scalar>, s: ScreenState)
    requires !o.inPaste && o.cols < 0xFFFF && o.epochStartCol <= o.cursor.col
    requires o.cursor.col + |chars| <= o.cols && ClearAhead(o, |chars|)
    ensures Backspaces(TypeAll(o, chars, s), |chars|) == if chars == [] then o else o.(motionPending := true)
    decreases |chars|
  {
    if chars != [] {
      var last := |chars| - 1;
      TypeLast(o, chars, s);
      var mid := TypeAll(o, chars[..last], s);
      TypedCursor(o, chars[..last], s);
      EraseLast(mid, chars[last], s.lastAppliedEpoch);
      BackspaceFirst(TypeAll(o, chars, s), |chars|);
      TypeThenErase(o, chars[..last], s);
      EraseIgnoresMotion(mid, last);
    }
  }

  lemma EraseLast(o: Overlay, ch: scalar, lastApplied: u64)
    requires !o.inPaste && o.cols < 0xFFFF && o.epochStartCol <= o.cursor.col < o.cols
    requires forall q :: q in o.pending ==> !(q.row == o.cursor.row && q.col == o.cursor.col)
    ensures Backspace(TypeChar(o, ch, 1, lastApplied)) == o.(motionPending := true)
  {
    var p := Push(o, ch, 1, lastApplied).pending[|o.pending|];
    WithoutFreshCell(o.pending, p);
  }

  lemma {:induction false} TypeLast(o: Overlay, chars: seq<scalar>, s: ScreenState)
    requires chars != []
    ensures TypeAll(o, chars, s) ==
            TypeChar(TypeAll(o, chars[..|chars| - 1], s), chars[|chars| - 1], 1, s.lastAppliedEpoch)
    decreases |chars|
  {
    if |chars| > 1 {
      var o1 := TypeChar(o, chars[0], 1, s.lastAppliedEpoch);
      TypeLast(o1, chars[1..], s);
      assert chars[1..][..|chars| - 2] == chars[..|chars| - 1][1..];
    }
  }

  /** Typing that fits moves the caret along and predicts on the cells passed. */
  lemma {:induction false} TypedCursor(o: Overlay, chars: seq<scalar>, s: ScreenState)
    requires !o.inPaste && o.cols < 0xFFFF && o.cursor.col + |chars| <= o.cols && ClearAhead(o, |chars| + 1)
    ensures var r := TypeAll(o, chars, s);
            && r.cursor == CursorPos(o.cursor.row, o.cursor.col + |chars|)
            && r == o.(pending := r.pending, cursor := r.cursor, motionPending := r.motionPending)
            && (forall q :: q in r.pending ==> !(q.row == r.cursor.row && q.col == r.cursor.col))
    decreases |chars|
  {
    if chars != [] {
      var o1 := Push(o, chars[0], 1, s.lastAppliedEpoch);
      TypedCursor(o1, chars[1..], s);
    }
  }

  lemma BackspaceIgnoresMotion(o: Overlay)
    ensures Backspace(o.(motionPending := true)) == Backspace(o).(motionPending := true)
  {}

  lemma {:induction false} EraseIgnoresMotion(o: Overlay, n: nat)
    ensures Backspaces(o.(motionPending := true), n) == Backspaces(o, n).(motionPending := true)
  {
    if n > 0 {
      EraseIgnoresMotion(o, n - 1);
      BackspaceIgnoresMotion(Backspaces(o, n - 1));
    }
  }

  /** Printing, erasing and the left, right and home keys. */
  predicate IsEditing(a: Action) {
    a.PredictChar? || a.PredictBatch? || a.PredictBackspace? || a.PredictCursorLeft? || a.PredictCursorRight? || a.PredictLineStart?
  }

  function EditAll(o: Overlay, actions: seq<Action>, s: ScreenState): (r: Overlay)
    decreases |actions|
  {
    if actions == [] then o else OnAction(EditAll(o, actions[..|actions| - 1], s), actions[|actions| - 1], s)
  }

  lemma {:induction false} PushAllAdvances(o: Overlay, chars: seq<scalar>, lastApplied: u64)
    requires o.cols < 0xFFFF
    ensures var r := PushAll(o, chars, lastApplied);
            r.cursor.col >= o.cursor.col && r.epochStartCol == o.epochStartCol && r.cols == o.cols
    decreases |chars|
  {
    if chars != [] && !Overflows(o, 1) {
      PushAllAdvances(Push(o, chars[0], 1, lastApplied), chars[1..], lastApplied);
    }
  }

  lemma EditKeepsFloor(o: Overlay, a: Action, s: ScreenState)
    requires o.epochStartCol <= o.cursor.col && o.cols < 0xFFFF && IsEditing(a)
    ensures var r := OnAction(o, a, s);
            o.epochStartCol == r.epochStartCol <= r.cursor.col && r.cols == o.cols
  {
    if a.PredictBatch? {
      PushAllAdvances(o, a.chars, s.lastAppliedEpoch);
    }
  }

  /** Along any run of editing the caret stays at or right of the recorded prompt column. */
  lemma {:induction false} CaretStaysRightOfPrompt(o: Overlay, actions: seq<Action>, s: ScreenState)
    requires o.epochStartCol <= o.cursor.col && o.cols < 0xFFFF
    requires forall i :: 0 <= i < |actions| ==> IsEditing(actions[i])
    ensures var r := EditAll(o, actions, s);
            o.epochStartCol == r.epochStartCol <= r.cursor.col && r.cols == o.cols
    decreases |actions|
  {
    if actions != [] {
      var last := |actions| - 1;
      var mid := EditAll(o, actions[..last], s);
      CaretStaysRightOfPrompt(o, actions[..last], s);
      EditKeepsFloor(mid, actions[last], s);
    }
  }

  /** The end key is different: it keeps the caret right of the prompt only if the row has content there. */
  lemma EndKeyCanCrossPrompt(o: Overlay, s: ScreenState)
    ensures o.epochStartCol <= OnAction(o, PredictLineEnd, s).cursor.col <==>
            o.epochStartCol == 0 || exists c :: o.epochStartCol <= c + 1 <= o.cols && ConfirmedChar(s, o.cursor.row, c) != SPACE
  {
    LineEndIsLast(s, o.cursor.row, o.cols);
  }

  lemma {:induction false} LineEndIsLast(s: ScreenState, row: nat, upTo: u16)
    ensures LineEnd(s, row, upTo) > 0 ==> ConfirmedChar(s, row, LineEnd(s, row, upTo) - 1) != SPACE
    ensures forall c: nat :: LineEnd(s, row, upTo) <= c < upTo ==> ConfirmedChar(s, row, c) == SPACE
  {
    if upTo > 0 && ConfirmedChar(s, row, upTo - 1) == SPACE {
      LineEndIsLast(s, row, upTo - 1);
    }
  }
}
