/** `PredictionOverlay`: the object whose methods update the predictor's fields in place. */
module EchoOverlay {
  import opened Wire
  import opened Widths
  import opened Datagram
  import opened Paint
  import opened Screen
  import opened Predictor

  type Key = (u16, u16, u64)

  /** The identity that `cull` removes by; it is not unique. */
  function KeyOf(p: Prediction): Key {
    (p.row, p.col, p.epochRequired)
  }

  /** The final `retain` of `cull`. */
  function Retain(ps: seq<Prediction>, killed: set<nat>, keys: seq<Key>): seq<Prediction> {
    if ps == [] then []
    else (if ps[0].tentativeUntil in killed || KeyOf(ps[0]) in keys then [] else [ps[0]]) + Retain(ps[1..], killed, keys)
  }

  ghost predicate KeysAreDue(ps: seq<Prediction>, keys: seq<Key>, epoch: nat) {
    forall i :: 0 <= i < |ps| ==> (KeyOf(ps[i]) in keys <==> Due(ps[i], epoch))
  }

  /** Colliding keys do no harm: equal keys are due at equal epochs. */
  lemma {:induction false} RetainIsSurvivors(ps: seq<Prediction>, killed: set<nat>, keys: seq<Key>, epoch: nat)
    requires KeysAreDue(ps, keys, epoch)
    ensures Retain(ps, killed, keys) == Survivors(ps, killed, epoch)
  {
    if ps != [] {
      assert KeyOf(ps[0]) in keys <==> Due(ps[0], epoch);
      RetainIsSurvivors(ps[1..], killed, keys, epoch);
    }
  }

  lemma KilledSnoc(ps: seq<Prediction>, i: nat, s: ScreenState, epoch: nat)
    requires i < |ps|
    ensures Killed(ps[..i + 1], s, epoch) ==
            Killed(ps[..i], s, epoch) + if Due(ps[i], epoch) && Mismatch(ps[i], s) then {ps[i].tentativeUntil} else {}
  {
    var a, b := ps[..i], ps[..i + 1];
    forall x | x in Killed(a, s, epoch)
      ensures x in Killed(b, s, epoch)
    {
      var j :| 0 <= j < |a| && Due(a[j], epoch) && Mismatch(a[j], s) && a[j].tentativeUntil == x;
      assert b[j] == a[j];
    }
    forall x | x in Killed(b, s, epoch)
      ensures x in Killed(a, s, epoch) || (Due(ps[i], epoch) && Mismatch(ps[i], s) && x == ps[i].tentativeUntil)
    {
      var j :| 0 <= j < |b| && Due(b[j], epoch) && Mismatch(b[j], s) && b[j].tentativeUntil == x;
      assert j < i ==> a[j] == b[j];
    }
    assert Due(ps[i], epoch) && Mismatch(ps[i], s) ==> b[i].tentativeUntil in Killed(b, s, epoch);
  }

  method Classify(w: WidthTable, bytes: seq<byte>) returns (a: Action)
    ensures a == ClassifyInput(w, bytes)
  {
    if bytes == [0x1B, 0x5B, 0x32, 0x30, 0x30, 0x7E] { return PasteStart; }
    if bytes == [0x1B, 0x5B, 0x32, 0x30, 0x31, 0x7E] { return PasteEnd; }
    if |bytes| > BULK_SUPPRESS_THRESHOLD {
      var text := DecodeText(bytes);
      if text.Some? {
        var t := text.value;
        var batch: seq<scalar>, allSingleWidth := [], true;
        for i := 0 to |t|
          invariant batch == t[..i] && AllNarrow(w, t[..i]) && allSingleWidth
        {
          if IsNarrow(w, t[i]) {
            batch := batch + [t[i]];
          } else {
            allSingleWidth := false;
            break;
          }
        }
        assert allSingleWidth ==> t[..|t|] == t;
        if allSingleWidth && batch != [] {
          return PredictBatch(batch);
        }
      }
      return BulkSuppressed;
    }
    a := ClassifyShort(w, bytes);
  }

  class PredictionOverlay {
    var confirmedEpoch: nat
    var predictionEpoch: nat
    var pending: seq<Prediction>
    var mode: Mode
    var srttTrigger: bool
    var flagging: bool
    var inPaste: bool
    var cursor: CursorPos
    var motionPending: bool
    var cols: u16
    var rows: u16
    var epochStartCol: u16
    var needsSync: bool

    function View(): Overlay
      reads this
    {
      Overlay(confirmedEpoch, predictionEpoch, pending, mode, srttTrigger, flagging, inPaste,
              cursor, motionPending, cols, rows, epochStartCol, needsSync)
    }

    constructor (mode: Mode, cols: u16, rows: u16)
      ensures View() == NewOverlay(mode, cols, rows)
    {
      confirmedEpoch, predictionEpoch, pending := 0, 0, [];
      this.mode, srttTrigger, flagging, inPaste := mode, false, false, false;
      cursor, motionPending := CursorPos(0, 0), false;
      this.cols, this.rows, epochStartCol, needsSync := cols, rows, 0, false;
    }

    method ResetAll()
      modifies this
      ensures View() == Reset(old(View()))
    {
      pending := [];
      predictionEpoch := predictionEpoch + 1;
      motionPending := false;
      needsSync := true;
    }

    method ResetToCursor(confirmed: CursorPos)
      modifies this
      ensures View() == ResetWithCursor(old(View()), confirmed)
    {
      ResetAll();
      cursor := confirmed;
    }

    method PredictChars(chars: seq<scalar>, lastApplied: u64)
      modifies this
      ensures View() == PushAll(old(View()), chars, lastApplied)
    {
      for i := 0 to |chars|
        invariant PushAll(View(), chars[i..], lastApplied) == PushAll(old(View()), chars, lastApplied)
      {
        if Overflows(View(), 1) {
          predictionEpoch := predictionEpoch + 1;
          return;
        }
        assert chars[i..][1..] == chars[i + 1..];
        var epochRequired := (lastApplied + 1) % 0x1_0000_0000_0000_0000;
        pending := pending + [Prediction(cursor.row, cursor.col, chars[i], 1, epochRequired, predictionEpoch)];
        cursor := CursorPos(cursor.row, (cursor.col + 1) % 0x1_0000);
        motionPending := false;
      }
    }

    method PredictOne(ch: scalar, width: u16, lastApplied: u64)
      modifies this
      ensures View() == TypeChar(old(View()), ch, width, lastApplied)
    {
      if inPaste {
        return;
      }
      if Overflows(View(), width) {
        predictionEpoch := predictionEpoch + 1;
        return;
      }
      var epochRequired := (lastApplied + 1) % 0x1_0000_0000_0000_0000;
      pending := pending + [Prediction(cursor.row, cursor.col, ch, width, epochRequired, predictionEpoch)];
      cursor := CursorPos(cursor.row, (cursor.col + width) % 0x1_0000);
      motionPending := false;
    }

    method EraseOne()
      modifies this
      ensures View() == Backspace(old(View()))
    {
      if cursor.col > epochStartCol {
        var vacated: u16 := cursor.col - 1;
        pending := WithoutCell(pending, cursor.row, vacated);
        cursor := CursorPos(cursor.row, vacated);
        motionPending := true;
      }
    }

    method MoveCaret(col: u16)
      modifies `cursor, `motionPending
      ensures View() == MoveTo(old(View()), col)
    {
      cursor := CursorPos(cursor.row, col);
      motionPending := true;
    }

    method Enter()
      modifies this
      ensures View() == EnterLine(old(View()))
    {
      pending := [];
      predictionEpoch := predictionEpoch + 1;
      needsSync := true;
      epochStartCol := 0;
      cursor := CursorPos(if cursor.row < SaturatingSub(rows, 1) then cursor.row + 1 else cursor.row, 0);
      motionPending := true;
    }

    method Act(action: Action, s: ScreenState)
      modifies this
      ensures View() == OnAction(old(View()), action, s)
    {
      match action
      case PredictChar(ch, width) => PredictOne(ch, width, s.lastAppliedEpoch);
      case PredictBatch(chars) =>
        if !inPaste {
          PredictChars(chars, s.lastAppliedEpoch);
        }
      case PredictBackspace => EraseOne();
      case PredictCursorLeft => MoveCaret(if cursor.col > epochStartCol then cursor.col - 1 else cursor.col);
      case PredictCursorRight => MoveCaret(if Min(cursor.col + 1, 0xFFFF) < cols then cursor.col + 1 else cursor.col);
      case PredictLineStart => MoveCaret(epochStartCol);
      case PredictLineEnd => MoveCaret(LineEnd(s, cursor.row, cols));
      case PredictEnter => Enter();
      case EpochReset => ResetToCursor(s.confirmedCursor);
      case BulkSuppressed =>
        if pending == [] {
          ResetAll();
        } else {
          predictionEpoch := predictionEpoch + 1;
        }
      case PasteStart =>
        inPaste := true;
        ResetAll();
      case PasteEnd => inPaste := false;
    }

    method OnInput(w: WidthTable, bytes: seq<byte>, s: ScreenState)
      modifies this
      ensures View() == OnAction(old(View()), ClassifyInput(w, bytes), s)
    {
      var action := Classify(w, bytes);
      Act(action, s);
    }

    method UpdateRttThresholds(rtt: nat)
      modifies this
      ensures View() == UpdateRtt(old(View()), rtt)
    {
      if rtt > 30 {
        srttTrigger := true;
      } else if srttTrigger && rtt <= 20 && pending == [] {
        srttTrigger := false;
      }
      if rtt > 80 {
        flagging := true;
      } else if rtt <= 50 {
        flagging := false;
      }
    }

    /** The first pass of `cull`: raise the confirmed epoch, and collect the keys and epochs to remove. */
    method Scan(s: ScreenState, epoch: nat) returns (keys: seq<Key>, killed: set<nat>, reset: bool)
      modifies `confirmedEpoch
      ensures var k := ResetIndex(old(View()), s, epoch, 0);
              && (reset <==> k < |pending|)
              && confirmedEpoch == Raise(old(confirmedEpoch), pending[..k], s, epoch)
      ensures !reset ==> killed == Killed(pending, s, epoch) && KeysAreDue(pending, keys, epoch)
    {
      keys, killed, reset := [], {}, false;
      ghost var o := View();
      for i := 0 to |pending|
        invariant confirmedEpoch == Raise(o.confirmedEpoch, pending[..i], s, epoch)
        invariant killed == Killed(pending[..i], s, epoch)
        invariant forall k :: k in keys ==> k.2 <= epoch
        invariant forall j :: 0 <= j < i && Due(pending[j], epoch) ==> KeyOf(pending[j]) in keys
        invariant ResetIndex(o, s, epoch, 0) == ResetIndex(o, s, epoch, i)
      {
        var p := pending[i];
        assert pending[..i + 1][..i] == pending[..i];
        KilledSnoc(pending, i, s, epoch);
        if Due(p, epoch) {
          if Mismatch(p, s) {
            if p.tentativeUntil > confirmedEpoch {
              killed := killed + {p.tentativeUntil};
              keys := keys + [KeyOf(p)];
            } else {
              reset := true;
              return;
            }
          } else {
            if p.ch != SPACE && p.tentativeUntil > confirmedEpoch {
              confirmedEpoch := p.tentativeUntil;
            }
            keys := keys + [KeyOf(p)];
          }
        }
      }
      assert pending[..|pending|] == pending;
    }

    /** Both passes; although keys collide, what remains is the plain filter of `Cull`. */
    method CullPredictions(s: ScreenState, epoch: nat, rtt: nat)
      modifies this
      ensures View() == Cull(old(View()), s, epoch, rtt)
    {
      UpdateRttThresholds(rtt);
      var keys, killed, reset := Scan(s, epoch);
      if reset {
        ResetAll();
      } else {
        RetainIsSurvivors(pending, killed, keys, epoch);
        pending := Retain(pending, killed, keys);
      }
    }

    method SyncCursorFromConfirmed(confirmed: CursorPos)
      modifies this
      ensures View() == SyncCursor(old(View()), confirmed)
    {
      if pending == [] && !motionPending {
        cursor := confirmed;
        if needsSync {
          epochStartCol := confirmed.col;
          needsSync := false;
        }
      }
    }
  }
}
