/**
 The speculative-echo predictor (crates/nosh-client/src/predictor.rs), as a value:
 input classification, the input arms, `cull`, and the display gate. Epoch counters
 of the predictor itself are unbounded.
 */
module Predictor {
  import opened Wire
  import opened Widths
  import opened Datagram
  import opened Paint
  import opened Screen

  datatype Mode = Always | Adaptive | Never

  datatype Prediction = Prediction(row: u16, col: u16, ch: scalar, width: u16, epochRequired: u64, tentativeUntil: nat)

  datatype Overlay = Overlay(
    confirmedEpoch: nat, predictionEpoch: nat, pending: seq<Prediction>,
    mode: Mode, srttTrigger: bool, flagging: bool, inPaste: bool,
    cursor: CursorPos, motionPending: bool, cols: u16, rows: u16,
    epochStartCol: u16, needsSync: bool)

  function NewOverlay(mode: Mode, cols: u16, rows: u16): Overlay {
    Overlay(0, 0, [], mode, false, false, false, CursorPos(0, 0), false, cols, rows, 0, false)
  }

  // ---------- input classification ----------

  datatype Action =
    | PredictChar(ch: scalar, width: u16)
    | PredictBatch(chars: seq<scalar>)
    | PredictBackspace | PredictCursorLeft | PredictCursorRight | PredictLineStart | PredictLineEnd
    | PredictEnter | EpochReset | BulkSuppressed | PasteStart | PasteEnd

  const BULK_SUPPRESS_THRESHOLD: nat := 4

  function ClassifyPrintable(w: WidthTable, bytes: seq<byte>): Action {
    match DecodeText(bytes)
    case None => EpochReset
    case Some(t) =>
      if |t| != 1 then EpochReset
      else if IsNarrow(w, t[0]) then PredictChar(t[0], 1)
      else if IsWide(w, t[0]) then PredictChar(t[0], 2)
      else EpochReset
  }

  function ClassifyShort(w: WidthTable, bytes: seq<byte>): Action {
    if bytes == [0x7F] || bytes == [0x08] then PredictBackspace
    else if bytes == [0x01] then PredictLineStart
    else if bytes == [0x05] then PredictLineEnd
    else if bytes == [0x0D] || bytes == [0x0A] then PredictEnter
    else if bytes == [0x1B, 0x5B, 0x43] || bytes == [0x1B, 0x4F, 0x43] then PredictCursorRight
    else if bytes == [0x1B, 0x5B, 0x44] || bytes == [0x1B, 0x4F, 0x44] then PredictCursorLeft
    else if bytes == [0x1B, 0x5B, 0x48] || bytes == [0x1B, 0x5B, 0x31, 0x7E] || bytes == [0x1B, 0x4F, 0x48] then PredictLineStart
    else if bytes == [0x1B, 0x5B, 0x46] || bytes == [0x1B, 0x5B, 0x34, 0x7E] || bytes == [0x1B, 0x4F, 0x46] then PredictLineEnd
    else if bytes != [] && bytes[0] == 0x1B then EpochReset
    else if |bytes| == 1 && bytes[0] < 0x20 then EpochReset
    else ClassifyPrintable(w, bytes)
  }

  function ClassifyInput(w: WidthTable, bytes: seq<byte>): Action {
    if bytes == [0x1B, 0x5B, 0x32, 0x30, 0x30, 0x7E] then PasteStart
    else if bytes == [0x1B, 0x5B, 0x32, 0x30, 0x31, 0x7E] then PasteEnd
    else if |bytes| > BULK_SUPPRESS_THRESHOLD then
      match DecodeText(bytes)
      case None => BulkSuppressed
      case Some(t) => if AllNarrow(w, t) && t != [] then PredictBatch(t) else BulkSuppressed
    else ClassifyShort(w, bytes)
  }

  /**
   How a read of narrow printable text is classified: one character is predicted, more than
   four bytes are predicted as a batch, and anything between resets the prediction epoch.
   */
  lemma NarrowTextClassification(w: WidthTable, t: seq<scalar>)
    requires SaneWidths(w) && AllNarrow(w, t) && t != []
    ensures ClassifyInput(w, Utf8Text(t)) ==
            if |Utf8Text(t)| > BULK_SUPPRESS_THRESHOLD then PredictBatch(t)
            else if |t| == 1 then PredictChar(t[0], 1)
            else EpochReset
  {
    DecodeTextInvertsUtf8Text(t);
    var bytes := Utf8Text(t);
    assert IsNarrow(w, t[0]);
    LeadByte(t[0]);
    assert bytes[0] == Utf8(t[0])[0];
    PrintableIsNoKey(w, bytes);
  }

  lemma LeadByte(c: scalar)
    requires 0x20 <= c && c != 0x7F
    ensures Utf8(c)[0] >= 0x20 && Utf8(c)[0] != 0x7F
  {}

  lemma PrintableIsNoKey(w: WidthTable, bytes: seq<byte>)
    requires bytes != [] && bytes[0] >= 0x20 && bytes[0] != 0x7F
    ensures ClassifyShort(w, bytes) == ClassifyPrintable(w, bytes)
    ensures !ClassifyInput(w, bytes).PasteStart? && !ClassifyInput(w, bytes).PasteEnd?
  {}

  // ---------- the input arms ----------

  function BecomeTentative(o: Overlay): Overlay {
    o.(predictionEpoch := o.predictionEpoch + 1)
  }

  function Reset(o: Overlay): Overlay {
    BecomeTentative(o).(pending := [], motionPending := false, needsSync := true)
  }

  function ResetWithCursor(o: Overlay, confirmed: CursorPos): Overlay {
    Reset(o).(cursor := confirmed)
  }

  /** `col.saturating_add(width) > term_cols`. */
  predicate Overflows(o: Overlay, width: u16) {
    Min(o.cursor.col + width, 0xFFFF) > o.cols
  }

  function Push(o: Overlay, ch: scalar, width: u16, lastApplied: u64): Overlay {
    var p := Prediction(o.cursor.row, o.cursor.col, ch, width, (lastApplied + 1) % 0x1_0000_0000_0000_0000, o.predictionEpoch);
    o.(pending := o.pending + [p],
       cursor := CursorPos(o.cursor.row, (o.cursor.col + width) % 0x1_0000), motionPending := false)
  }

  /** Predict characters in turn; the first that does not fit ends the batch. */
  function PushAll(o: Overlay, chars: seq<scalar>, lastApplied: u64): Overlay
    decreases |chars|
  {
    if chars == [] then o
    else if Overflows(o, 1) then BecomeTentative(o)
    else PushAll(Push(o, chars[0], 1, lastApplied), chars[1..], lastApplied)
  }

  function WithoutCell(ps: seq<Prediction>, row: u16, col: u16): seq<Prediction> {
    if ps == [] then []
    else (if ps[0].row == row && ps[0].col == col then [] else [ps[0]]) + WithoutCell(ps[1..], row, col)
  }

  function ConfirmedChar(s: ScreenState, row: nat, col: nat): scalar {
    if InGrid(s.confirmed, row, col) then s.confirmed[row][col].ch else SPACE
  }

  /** One past the last non-blank column below `upTo`. */
  function LineEnd(s: ScreenState, row: nat, upTo: u16): (c: u16)
    ensures c <= upTo
  {
    if upTo == 0 then 0
    else if ConfirmedChar(s, row, upTo - 1) != SPACE then upTo
    else LineEnd(s, row, upTo - 1)
  }

  function MoveTo(o: Overlay, col: u16): Overlay {
    o.(cursor := CursorPos(o.cursor.row, col), motionPending := true)
  }

  function TypeChar(o: Overlay, ch: scalar, width: u16, lastApplied: u64): Overlay {
    if o.inPaste then o
    else if Overflows(o, width) then BecomeTentative(o)
    else Push(o, ch, width, lastApplied)
  }

  function Backspace(o: Overlay): Overlay {
    if o.cursor.col > o.epochStartCol then
      MoveTo(o, o.cursor.col - 1).(pending := WithoutCell(o.pending, o.cursor.row, o.cursor.col - 1))
    else o
  }

  function EnterLine(o: Overlay): Overlay {
    var row := if o.cursor.row < SaturatingSub(o.rows, 1) then o.cursor.row + 1 else o.cursor.row;
    BecomeTentative(o).(pending := [], needsSync := true, epochStartCol := 0,
                        cursor := CursorPos(row, 0), motionPending := true)
  }

  function OnAction(o: Overlay, a: Action, s: ScreenState): Overlay {
    match a
    case PredictChar(ch, width) => TypeChar(o, ch, width, s.lastAppliedEpoch)
    case PredictBatch(chars) =>
      if o.inPaste then o else PushAll(o, chars, s.lastAppliedEpoch)
    case PredictBackspace => Backspace(o)
    case PredictCursorLeft =>
      MoveTo(o, if o.cursor.col > o.epochStartCol then o.cursor.col - 1 else o.cursor.col)
    case PredictCursorRight =>
      MoveTo(o, if Min(o.cursor.col + 1, 0xFFFF) < o.cols then o.cursor.col + 1 else o.cursor.col)
    case PredictLineStart => MoveTo(o, o.epochStartCol)
    case PredictLineEnd => MoveTo(o, LineEnd(s, o.cursor.row, o.cols))
    case PredictEnter => EnterLine(o)
    case EpochReset => ResetWithCursor(o, s.confirmedCursor)
    case BulkSuppressed => if o.pending == [] then Reset(o) else BecomeTentative(o)
    case PasteStart => Reset(o.(inPaste := true))
    case PasteEnd => o.(inPaste := false)
  }

  function SyncCursor(o: Overlay, confirmed: CursorPos): Overlay {
    if o.pending == [] && !o.motionPending then
      var p := o.(cursor := confirmed);
      if o.needsSync then p.(epochStartCol := confirmed.col, needsSync := false) else p
    else o
  }

  function SetSize(o: Overlay, cols: u16, rows: u16): Overlay {
    o.(cols := cols, rows := rows)
  }

  // ---------- cull, as a filter ----------

  predicate Due(p: Prediction, epoch: nat) {
    p.epochRequired <= epoch
  }

  predicate Mismatch(p: Prediction, s: ScreenState) {
    ConfirmedChar(s, p.row, p.col) != p.ch
  }

  /** Due, and confirmed by a non-blank echo. */
  predicate Credited(p: Prediction, s: ScreenState, epoch: nat) {
    Due(p, epoch) && !Mismatch(p, s) && p.ch != SPACE
  }

  /** The confirmed epoch after the predictions `ps` have been examined. */
  function Raise(confirmed: nat, ps: seq<Prediction>, s: ScreenState, epoch: nat): (c: nat)
    ensures confirmed <= c
    decreases |ps|
  {
    if ps == [] then confirmed
    else
      var last := ps[|ps| - 1];
      var c := Raise(confirmed, ps[..|ps| - 1], s, epoch);
      if Credited(last, s, epoch) && last.tentativeUntil > c then last.tentativeUntil else c
  }

  /** Prediction `i` is due and wrong, and visible when its turn comes. */
  predicate ResetsAt(o: Overlay, s: ScreenState, epoch: nat, i: nat)
    requires i < |o.pending|
  {
    && Due(o.pending[i], epoch) && Mismatch(o.pending[i], s)
    && o.pending[i].tentativeUntil <= Raise(o.confirmedEpoch, o.pending[..i], s, epoch)
  }

  /** The first index from `i` on that resets, or the number of predictions. */
  function ResetIndex(o: Overlay, s: ScreenState, epoch: nat, i: nat): (k: nat)
    requires i <= |o.pending|
    ensures i <= k <= |o.pending|
    decreases |o.pending| - i
  {
    if i == |o.pending| || ResetsAt(o, s, epoch, i) then i else ResetIndex(o, s, epoch, i + 1)
  }

  /** `cull` resets exactly when some due prediction is wrong and visible at its turn. */
  lemma {:induction false} ResetIndexIsFirst(o: Overlay, s: ScreenState, epoch: nat, i: nat)
    requires i <= |o.pending|
    ensures var k := ResetIndex(o, s, epoch, i);
            && (k < |o.pending| ==> ResetsAt(o, s, epoch, k))
            && (forall j :: i <= j < k ==> !ResetsAt(o, s, epoch, j))
    decreases |o.pending| - i
  {
    if i < |o.pending| && !ResetsAt(o, s, epoch, i) {
      ResetIndexIsFirst(o, s, epoch, i + 1);
    }
  }

  /** The epochs of due, wrong predictions. */
  function Killed(ps: seq<Prediction>, s: ScreenState, epoch: nat): set<nat> {
    set i | 0 <= i < |ps| && Due(ps[i], epoch) && Mismatch(ps[i], s) :: ps[i].tentativeUntil
  }

  function Survivors(ps: seq<Prediction>, killed: set<nat>, epoch: nat): seq<Prediction> {
    if ps == [] then []
    else (if Due(ps[0], epoch) || ps[0].tentativeUntil in killed then [] else [ps[0]]) +
         Survivors(ps[1..], killed, epoch)
  }

  function UpdateRtt(o: Overlay, rtt: nat): Overlay {
    o.(srttTrigger := if rtt > 30 then true
                      else if o.srttTrigger && rtt <= 20 && o.pending == [] then false
                      else o.srttTrigger,
       flagging := if rtt > 80 then true else if rtt <= 50 then false else o.flagging)
  }

  /** Either a full reset, or the predictions that are neither due nor of a killed epoch, in order. */
  function CullFilter(o: Overlay, s: ScreenState, epoch: nat): Overlay {
    var k := ResetIndex(o, s, epoch, 0);
    var raised := o.(confirmedEpoch := Raise(o.confirmedEpoch, o.pending[..k], s, epoch));
    if k < |o.pending| then Reset(raised)
    else raised.(pending := Survivors(o.pending, Killed(o.pending, s, epoch), epoch))
  }

  function Cull(o: Overlay, s: ScreenState, epoch: nat, rtt: nat): Overlay {
    CullFilter(UpdateRtt(o, rtt), s, epoch)
  }

  // ---------- the display gate ----------

  predicate ShouldDisplay(o: Overlay) {
    o.mode == Always || (o.mode == Adaptive && o.srttTrigger)
  }

  predicate IsTentative(o: Overlay, p: Prediction) {
    p.tentativeUntil > o.confirmedEpoch
  }

  function FirstVisible(o: Overlay, ps: seq<Prediction>, row: nat, col: nat): (r: Option<Prediction>)
    ensures r.Some? ==> r.value in ps && r.value.row == row && r.value.col == col && !IsTentative(o, r.value)
  {
    if ps == [] then None
    else if ps[0].row == row && ps[0].col == col && !IsTentative(o, ps[0]) then Some(ps[0])
    else FirstVisible(o, ps[1..], row, col)
  }

  const UNDERLINE: byte := 0x04

  function CellAt(o: Overlay, row: nat, col: nat): Option<Cell> {
    if !ShouldDisplay(o) then None
    else
      match FirstVisible(o, o.pending, row, col)
      case None => None
      case Some(p) => Some(Cell(p.ch, if o.flagging then UNDERLINE else 0, None, None, false))
  }

  function AnyVisible(o: Overlay, ps: seq<Prediction>): bool {
    ps != [] && (!IsTentative(o, ps[0]) || AnyVisible(o, ps[1..]))
  }

  function PredictedCursor(o: Overlay): Option<CursorPos> {
    if ShouldDisplay(o) && (AnyVisible(o, o.pending) || o.motionPending) then Some(o.cursor) else None
  }
}
