/** What each key does to the predicted line: the caret keys, Enter, bulk input and pastes. */
module KeyLaws {
  import opened Wire
  import opened Widths
  import opened Datagram
  import opened Paint
  import opened Screen
  import opened Predictor
  import opened PredictorLaws

  // ---------- which bytes are which key ----------

  /** `ESC [ x` or `ESC O x`. */
  predicate IsArrow(bytes: seq<byte>, x: byte) {
    bytes == [0x1B, 0x5B, x] || bytes == [0x1B, 0x4F, x]
  }

  /** Home, or control-A. */
  predicate IsHome(bytes: seq<byte>) {
    bytes == [0x01] || IsArrow(bytes, 0x48) || bytes == [0x1B, 0x5B, 0x31, 0x7E]
  }

  /** End, or control-E. */
  predicate IsEnd(bytes: seq<byte>) {
    bytes == [0x05] || IsArrow(bytes, 0x46) || bytes == [0x1B, 0x5B, 0x34, 0x7E]
  }

  predicate IsErase(bytes: seq<byte>) {
    bytes == [0x7F] || bytes == [0x08]
  }

  predicate IsEnter(bytes: seq<byte>) {
    bytes == [0x0D] || bytes == [0x0A]
  }

  /** `ESC [ 2 0 x ~`. */
  predicate IsPasteMarker(bytes: seq<byte>, x: byte) {
    bytes == [0x1B, 0x5B, 0x32, 0x30, x, 0x7E]
  }

  /** Every key that is not text is recognised by exactly its byte sequences. */
  lemma KeysAreRecognised(w: WidthTable, bytes: seq<byte>)
    ensures var a := ClassifyInput(w, bytes);
            && (a == PredictCursorLeft <==> IsArrow(bytes, 0x44)) && (a == PredictCursorRight <==> IsArrow(bytes, 0x43))
            && (a == PredictLineStart <==> IsHome(bytes)) && (a == PredictLineEnd <==> IsEnd(bytes))
            && (a == PredictBackspace <==> IsErase(bytes)) && (a == PredictEnter <==> IsEnter(bytes))
            && (a == PasteStart <==> IsPasteMarker(bytes, 0x30)) && (a == PasteEnd <==> IsPasteMarker(bytes, 0x31))
  {}

  /**
   Text of any widths. A single character is predicted with its width unless it has none. More than
   four bytes are a batch if every character is one column wide, and bulk otherwise. All else resets.
   */
  lemma TextIsClassified(w: WidthTable, t: seq<scalar>)
    requires t != [] && 0x20 <= t[0] && t[0] != 0x7F
    ensures ClassifyInput(w, Utf8Text(t)) ==
            if |Utf8Text(t)| > 4 then (if AllNarrow(w, t) then PredictBatch(t) else BulkSuppressed)
            else if |t| > 1 then EpochReset
            else if t[0] in w.narrow then PredictChar(t[0], 1)
            else if t[0] in w.double then PredictChar(t[0], 2)
            else EpochReset
  {
    DecodeTextInvertsUtf8Text(t);
    LeadByte(t[0]);
    assert Utf8Text(t)[0] == Utf8(t[0])[0];
    PrintableIsNoKey(w, Utf8Text(t));
  }

  /** Bytes that are not UTF-8, and other escape sequences and control characters, are never predicted. */
  lemma OtherBytesAreNotPredicted(w: WidthTable, bytes: seq<byte>)
    requires DecodeText(bytes) == None || (0 < |bytes| <= 4 && bytes[0] == 0x1B) || (|bytes| == 1 && bytes[0] < 0x20)
    requires !IsArrow(bytes, 0x43) && !IsArrow(bytes, 0x44) && !IsHome(bytes) && !IsEnd(bytes) && !IsErase(bytes) && !IsEnter(bytes)
    requires !IsPasteMarker(bytes, 0x30) && !IsPasteMarker(bytes, 0x31)
    ensures ClassifyInput(w, bytes) == if |bytes| > 4 then BulkSuppressed else EpochReset
  {}

  // ---------- the caret keys ----------

  function Press(o: Overlay, a: Action, n: nat, s: ScreenState): (r: Overlay) {
    if n == 0 then o else OnAction(Press(o, a, n - 1, s), a, s)
  }

  /** Right goes to the last column at most, and nothing but the caret changes. */
  lemma {:induction false} RightMoves(o: Overlay, n: nat, s: ScreenState)
    requires o.cursor.col < o.cols < 0xFFFF
    ensures Press(o, PredictCursorRight, n, s) ==
            o.(cursor := CursorPos(o.cursor.row, Min(o.cursor.col + n, o.cols - 1)), motionPending := o.motionPending || n > 0)
  {
    if n > 0 { RightMoves(o, n - 1, s); }
  }

  /** Left goes to the prompt at most. */
  lemma {:induction false} LeftMoves(o: Overlay, n: nat, s: ScreenState)
    requires o.epochStartCol <= o.cursor.col
    ensures Press(o, PredictCursorLeft, n, s) ==
            o.(cursor := CursorPos(o.cursor.row, if o.epochStartCol + n <= o.cursor.col then o.cursor.col - n else o.epochStartCol),
               motionPending := o.motionPending || n > 0)
  {
    if n > 0 { LeftMoves(o, n - 1, s); }
  }

  /** Inside the line, left undoes right and right undoes left. */
  lemma LeftUndoesRight(o: Overlay, n: nat, s: ScreenState)
    requires o.epochStartCol <= o.cursor.col < o.cols < 0xFFFF
    ensures o.cursor.col + n < o.cols ==>
            Press(Press(o, PredictCursorRight, n, s), PredictCursorLeft, n, s).cursor == o.cursor
    ensures o.epochStartCol + n <= o.cursor.col ==>
            Press(Press(o, PredictCursorLeft, n, s), PredictCursorRight, n, s).cursor == o.cursor
  {
    RightMoves(o, n, s);
    LeftMoves(o, n, s);
    LeftMoves(Press(o, PredictCursorRight, n, s), n, s);
    RightMoves(Press(o, PredictCursorLeft, n, s), n, s);
  }

  /** Home is as many lefts as it takes: at the prompt, whence left goes no further. */
  lemma HomeIsAllLefts(o: Overlay, n: nat, s: ScreenState)
    requires o.epochStartCol <= o.cursor.col <= o.epochStartCol + n && n > 0
    ensures OnAction(o, PredictLineStart, s) == Press(o, PredictCursorLeft, n, s)
  {
    LeftMoves(o, n, s);
  }

  /** Enter goes to the start of the next row, or of the last row; what was predicted goes, and a new epoch begins. */
  lemma EnterAdvances(w: WidthTable, o: Overlay, bytes: seq<byte>, s: ScreenState)
    requires IsEnter(bytes) && o.cursor.row < o.rows
    ensures var r := OnAction(o, ClassifyInput(w, bytes), s);
            && r.cursor == CursorPos(if o.cursor.row + 1 == o.rows then o.cursor.row else o.cursor.row + 1, 0)
            && r.pending == [] && r.predictionEpoch == o.predictionEpoch + 1 && r.confirmedEpoch == o.confirmedEpoch
  {
    KeysAreRecognised(w, bytes);
  }

  /** Bulk input hides what comes after it and keeps what is pending; a prompt is awaited only if nothing was. */
  lemma BulkBeginsEpoch(o: Overlay, s: ScreenState)
    ensures var r := OnAction(o, BulkSuppressed, s);
            && r.pending == o.pending && r.predictionEpoch == o.predictionEpoch + 1 && r.cursor == o.cursor
            && (r.needsSync <==> o.needsSync || o.pending == []) && (r.motionPending <==> o.motionPending && o.pending != [])
  {}

  /** An unpredicted key drops everything and puts the caret where the server's cursor is. */
  lemma ResetFollowsServer(o: Overlay, s: ScreenState)
    ensures var r := OnAction(o, EpochReset, s);
            r.pending == [] && r.cursor == s.confirmedCursor && r.predictionEpoch == o.predictionEpoch + 1 && r.needsSync && !r.motionPending
  {}

  // ---------- pastes ----------

  predicate EndsPaste(e: Event) {
    e.Input? && e.action.PasteEnd?
  }

  lemma CullKeepsPaste(o: Overlay, s: ScreenState, epoch: nat, rtt: nat)
    ensures Cull(o, s, epoch, rtt).inPaste == o.inPaste
  {}

  lemma PasteStep(o: Overlay, e: Event)
    requires o.inPaste && o.pending == [] && !EndsPaste(e)
    ensures Step(o, e).inPaste && Step(o, e).pending == []
  {
    if e.Confirm? {
      NoSurvivors(o.pending, Killed(o.pending, e.screen, e.epoch), e.epoch);
      CullKeepsPaste(o, e.screen, e.epoch, e.rtt);
    }
  }

  /** From the start of a paste to its end nothing is predicted, whatever happens in between. */
  lemma {:induction false} PasteIsNotPredicted(o: Overlay, s: ScreenState, es: seq<Event>)
    requires forall i :: 0 <= i < |es| ==> !EndsPaste(es[i])
    ensures var r := Run(OnAction(o, PasteStart, s), es); r.inPaste && r.pending == []
    decreases |es|
  {
    if es != [] {
      var last := |es| - 1;
      PasteIsNotPredicted(o, s, es[..last]);
      PasteStep(Run(OnAction(o, PasteStart, s), es[..last]), es[last]);
    }
  }

  /** After its end text is predicted again, at the caret and for the next epoch of the server. */
  lemma TextIsPredictedAfterPaste(o: Overlay, s: ScreenState, ch: scalar, width: u16)
    requires o.cursor.col + width <= o.cols < 0xFFFF && s.lastAppliedEpoch < 0xFFFF_FFFF_FFFF_FFFF
    ensures var r := OnAction(OnAction(o, PasteEnd, s), PredictChar(ch, width), s);
            && |r.pending| == |o.pending| + 1 && r.pending[..|o.pending|] == o.pending
            && r.pending[|o.pending|] ==
               Prediction(o.cursor.row, o.cursor.col, ch, width, s.lastAppliedEpoch + 1, o.predictionEpoch)
            && r.cursor == CursorPos(o.cursor.row, o.cursor.col + width)
  {}

  /** And a character that does not fit the row is not: it begins a new epoch. */
  lemma OverflowIsNotPredicted(o: Overlay, s: ScreenState, ch: scalar, width: u16)
    requires !o.inPaste && o.cursor.col + width > o.cols && o.cols < 0xFFFF
    ensures OnAction(o, PredictChar(ch, width), s) == o.(predictionEpoch := o.predictionEpoch + 1)
  {}
}
