/**
 The datagram wire format (crates/nosh-proto/src/datagram.rs): wire types,
 serialised sizes, decoders, and the distance sort that orders the runs of a
 diff by proximity to the cursor.
 */
module Datagram {
  import opened Wire
  import opened Postcard
  import opened StableSort

  const TAG_STATE_DIFF: byte := 0x01
  const TAG_CLIENT_EPOCH: byte := 0x02
  const MAX_RUNS: nat := 4096
  const MIN_CAP: nat := 8

  datatype CursorPos = CursorPos(row: u16, col: u16)

  datatype DiffRun = DiffRun(row: u16, startCol: u16, style: byte,
                             fg: Option<byte>, bg: Option<byte>, chars: seq<scalar>)

  datatype StateDiff = StateDiff(epoch: u64, cols: u16, rows: u16, cursor: CursorPos,
                                 altScreen: bool, runs: seq<DiffRun>)

  // ---------- encoding ----------

  function EncodeRun(run: DiffRun): (s: seq<byte>) {
    Varint(run.row) + (Varint(run.startCol) + ([run.style] +
    (EncodeOptionByte(run.fg) + (EncodeOptionByte(run.bg) + EncodeStr(run.chars)))))
  }

  function EncodeRuns(runs: seq<DiffRun>): (s: seq<byte>) {
    if runs == [] then [] else EncodeRun(runs[0]) + EncodeRuns(runs[1..])
  }

  /** Every field but the runs. */
  function EncodeFields(d: StateDiff): (s: seq<byte>) {
    Varint(d.epoch) + (Varint(d.cols) + (Varint(d.rows) + (Varint(d.cursor.row) + (Varint(d.cursor.col) +
    EncodeBool(d.altScreen)))))
  }

  function EncodeBody(d: StateDiff): (s: seq<byte>) {
    EncodeFields(d) + (Varint(|d.runs|) + EncodeRuns(d.runs))
  }

  // ---------- sizes, computed without building the bytes ----------

  function TextSize(t: seq<scalar>): (n: nat) {
    if t == [] then 0 else Utf8Len(t[0]) + TextSize(t[1..])
  }

  function OptionSize(o: Option<byte>): nat {
    if o.Some? then 2 else 1
  }

  /** Everything of a run but its text bytes; `text` is their number. */
  function RunOverhead(run: DiffRun, text: nat): nat {
    VarintSize(run.row) + VarintSize(run.startCol) + 1 +
    OptionSize(run.fg) + OptionSize(run.bg) + VarintSize(text)
  }

  function RunSize(run: DiffRun): nat {
    RunOverhead(run, TextSize(run.chars)) + TextSize(run.chars)
  }

  function RunsSize(runs: seq<DiffRun>): nat {
    if runs == [] then 0 else RunSize(runs[0]) + RunsSize(runs[1..])
  }

  function FieldsSize(d: StateDiff): nat {
    VarintSize(d.epoch) + VarintSize(d.cols) + VarintSize(d.rows) +
    VarintSize(d.cursor.row) + VarintSize(d.cursor.col) + 1
  }

  /** `postcard::experimental::serialized_size`. */
  function BodySize(d: StateDiff): nat {
    FieldsSize(d) + VarintSize(|d.runs|) + RunsSize(d.runs)
  }

  lemma {:induction false} TextSizeIsLength(t: seq<scalar>)
    ensures |Utf8Text(t)| == TextSize(t)
  {
    if t != [] { TextSizeIsLength(t[1..]); }
  }

  lemma RunSizeIsLength(run: DiffRun)
    ensures |EncodeRun(run)| == RunSize(run)
  {
    VarintLength(run.row);
    VarintLength(run.startCol);
    TextSizeIsLength(run.chars);
    VarintLength(|Utf8Text(run.chars)|);
  }

  lemma {:induction false} RunsSizeIsLength(runs: seq<DiffRun>)
    ensures |EncodeRuns(runs)| == RunsSize(runs)
  {
    if runs != [] {
      RunSizeIsLength(runs[0]);
      RunsSizeIsLength(runs[1..]);
    }
  }

  /** The computed size is the length of the encoding. */
  lemma BodySizeIsLength(d: StateDiff)
    ensures |EncodeBody(d)| == BodySize(d)
  {
    VarintLength(d.epoch);
    VarintLength(d.cols);
    VarintLength(d.rows);
    VarintLength(d.cursor.row);
    VarintLength(d.cursor.col);
    VarintLength(|d.runs|);
    RunsSizeIsLength(d.runs);
  }

  lemma {:induction false} RunsSizeAppend(runs: seq<DiffRun>, run: DiffRun)
    ensures RunsSize(runs + [run]) == RunsSize(runs) + RunSize(run)
  {
    if runs == [] {
      assert runs + [run] == [run];
    } else {
      RunsSizeAppend(runs[1..], run);
      assert (runs + [run])[1..] == runs[1..] + [run];
    }
  }

  /** A header (a diff without runs) takes 7 to 24 bytes. */
  lemma HeaderSizeRange(d: StateDiff)
    ensures 7 <= BodySize(d.(runs := [])) <= 24
  {
    VarintLimits();
    VarintSizeMonotone(d.epoch, 0xFFFF_FFFF_FFFF_FFFF);
    VarintSizeMonotone(d.cols, 0xFFFF);
    VarintSizeMonotone(d.rows, 0xFFFF);
    VarintSizeMonotone(d.cursor.row, 0xFFFF);
    VarintSizeMonotone(d.cursor.col, 0xFFFF);
    assert VarintSize(0xFFFF) == 3;
    assert VarintSize(0xFFFF_FFFF_FFFF_FFFF) == 3 + VarintSize(0x7FF_FFFF_FFFF);
    assert VarintSize(0x7FF_FFFF_FFFF) == 3 + VarintSize(0x3F_FFFF);
    assert VarintSize(0x3F_FFFF) == 4;
  }

  // ---------- decoding ----------

  function TakeRun(s: seq<byte>): (r: Parsed<DiffRun>) {
    var (row, s1) :- TakeU16(s);
    var (startCol, s2) :- TakeU16(s1);
    var (style, s3) :- TakeByte(s2);
    var (fg, s4) :- TakeOptionByte(s3);
    var (bg, s5) :- TakeOptionByte(s4);
    var (chars, s6) :- TakeStr(s5);
    Some((DiffRun(row, startCol, style, fg, bg, chars), s6))
  }

  function TakeRuns(s: seq<byte>, n: nat): (r: Parsed<seq<DiffRun>>)
    decreases n
  {
    if n == 0 then Some(([], s))
    else
      var (run, s1) :- TakeRun(s);
      var (runs, s2) :- TakeRuns(s1, n - 1);
      Some(([run] + runs, s2))
  }

  function TakeFields(s: seq<byte>): (r: Parsed<StateDiff>) {
    var (epoch, s1) :- TakeU64(s);
    var (cols, s2) :- TakeU16(s1);
    var (rows, s3) :- TakeU16(s2);
    var (row, s4) :- TakeU16(s3);
    var (col, s5) :- TakeU16(s4);
    var (alt, s6) :- TakeBool(s5);
    Some((StateDiff(epoch, cols, rows, CursorPos(row, col), alt, []), s6))
  }

  /** `postcard::from_bytes::<StateDiff>`: bytes after the last field are ignored. */
  function DecodeBody(s: seq<byte>): (r: Option<StateDiff>) {
    var (d, s1) :- TakeFields(s);
    var (n, s2) :- TakeU64(s1);
    var (runs, s3) :- TakeRuns(s2, n);
    Some(d.(runs := runs))
  }

  function DecodeDatagram(s: seq<byte>): (r: Option<StateDiff>) {
    if s == [] || s[0] != TAG_STATE_DIFF then None
    else
      var d :- DecodeBody(s[1..]);
      if |d.runs| > MAX_RUNS then None else Some(d)
  }

  function EncodeEpochAck(epoch: u64): (s: seq<byte>) {
    [TAG_CLIENT_EPOCH] + Varint(epoch)
  }

  function DecodeEpochAck(s: seq<byte>): (r: Option<u64>) {
    if s == [] || s[0] != TAG_CLIENT_EPOCH then None
    else
      var (epoch, rest) :- TakeU64(s[1..]);
      Some(epoch)
  }

  lemma EpochAckRoundTrip(epoch: u64)
    ensures DecodeEpochAck(EncodeEpochAck(epoch)) == Some(epoch)
  {
    U64RoundTrip(epoch, []);
    assert EncodeEpochAck(epoch)[1..] == Varint(epoch) + [];
  }

  /** No byte string is read both as a diff and as an acknowledgement. */
  lemma KindsAreDisjoint(s: seq<byte>)
    ensures DecodeDatagram(s).None? || DecodeEpochAck(s).None?
  {}

  lemma RunRoundTrip(run: DiffRun, rest: seq<byte>)
    requires TextSize(run.chars) < 0x1_0000_0000_0000_0000
    ensures TakeRun(EncodeRun(run) + rest) == Some((run, rest))
  {
    TextSizeIsLength(run.chars);
    var t5 := EncodeStr(run.chars) + rest;
    var t4 := EncodeOptionByte(run.bg) + t5;
    var t3 := EncodeOptionByte(run.fg) + t4;
    var t2 := [run.style] + t3;
    var t1 := Varint(run.startCol) + t2;
    assert EncodeRun(run) + rest == Varint(run.row) + t1;
    U16RoundTrip(run.row, t1);
    U16RoundTrip(run.startCol, t2);
    assert t2[1..] == t3;
    OptionByteRoundTrip(run.fg, t4);
    OptionByteRoundTrip(run.bg, t5);
    StrRoundTrip(run.chars, rest);
  }

  lemma {:induction false} RunsRoundTrip(runs: seq<DiffRun>, rest: seq<byte>)
    requires RunsSize(runs) < 0x1_0000_0000_0000_0000
    ensures TakeRuns(EncodeRuns(runs) + rest, |runs|) == Some((runs, rest))
  {
    if runs == [] {
      assert EncodeRuns(runs) + rest == rest;
    } else {
      var tail := EncodeRuns(runs[1..]) + rest;
      assert EncodeRuns(runs) + rest == EncodeRun(runs[0]) + tail;
      RunRoundTrip(runs[0], tail);
      RunsRoundTrip(runs[1..], rest);
      assert runs == [runs[0]] + runs[1..];
    }
  }

  lemma {:induction false} RunsSizeAtLeastSixEach(runs: seq<DiffRun>)
    ensures 6 * |runs| <= RunsSize(runs)
  {
    if runs != [] { RunsSizeAtLeastSixEach(runs[1..]); }
  }

  lemma FieldsRoundTrip(d: StateDiff, rest: seq<byte>)
    ensures TakeFields(EncodeFields(d) + rest) == Some((d.(runs := []), rest))
  {
    var t5 := EncodeBool(d.altScreen) + rest;
    var t4 := Varint(d.cursor.col) + t5;
    var t3 := Varint(d.cursor.row) + t4;
    var t2 := Varint(d.rows) + t3;
    var t1 := Varint(d.cols) + t2;
    assert EncodeFields(d) + rest == Varint(d.epoch) + t1;
    U64RoundTrip(d.epoch, t1);
    U16RoundTrip(d.cols, t2);
    U16RoundTrip(d.rows, t3);
    U16RoundTrip(d.cursor.row, t4);
    U16RoundTrip(d.cursor.col, t5);
    assert t5[1..] == rest;
  }

  lemma BodyRoundTrip(d: StateDiff, rest: seq<byte>)
    requires RunsSize(d.runs) < 0x1_0000_0000_0000_0000
    ensures DecodeBody(EncodeBody(d) + rest) == Some(d)
  {
    RunsSizeAtLeastSixEach(d.runs);
    var tail := EncodeRuns(d.runs) + rest;
    assert EncodeBody(d) + rest == EncodeFields(d) + (Varint(|d.runs|) + tail);
    FieldsRoundTrip(d, Varint(|d.runs|) + tail);
    U64RoundTrip(|d.runs|, tail);
    RunsRoundTrip(d.runs, rest);
  }

  /** A tagged body decodes to its diff exactly when the run-count guard lets it through. */
  lemma DatagramRoundTrip(d: StateDiff)
    requires RunsSize(d.runs) < 0x1_0000_0000_0000_0000
    ensures DecodeDatagram([TAG_STATE_DIFF] + EncodeBody(d)) ==
            if |d.runs| <= MAX_RUNS then Some(d) else None
  {
    BodyRoundTrip(d, []);
    assert ([TAG_STATE_DIFF] + EncodeBody(d))[1..] == EncodeBody(d) + [];
  }

  // ---------- the bytes on the wire ----------

  /** Small numbers take a byte each: tag, epoch, columns, rows, cursor row and column, screen flag, number of runs. */
  lemma SmallHeaderBytes(d: StateDiff)
    requires d.epoch < 128 && d.cols < 128 && d.rows < 128 && d.cursor.row < 128 && d.cursor.col < 128 && |d.runs| < 128
    ensures [TAG_STATE_DIFF] + EncodeBody(d) ==
            [0x01, d.epoch, d.cols, d.rows, d.cursor.row, d.cursor.col, if d.altScreen then 1 else 0, |d.runs|] + EncodeRuns(d.runs)
  {}

  lemma {:induction false} AsciiBytes(t: seq<scalar>)
    requires forall i :: 0 <= i < |t| ==> t[i] < 0x80
    ensures |Utf8Text(t)| == |t| && forall i :: 0 <= i < |t| ==> Utf8Text(t)[i] == t[i]
  {
    if t != [] { AsciiBytes(t[1..]); }
  }

  /** And a run: row, column, style, the two optional colours behind a 0 or 1, the length of the text, and the text. */
  lemma SmallRunBytes(run: DiffRun, fg: seq<byte>, bg: seq<byte>, text: seq<byte>)
    requires run.row < 128 && run.startCol < 128 && |run.chars| == |text| < 128
    requires forall i :: 0 <= i < |text| ==> run.chars[i] == text[i] < 0x80
    requires fg == (if run.fg.Some? then [1, run.fg.value] else [0]) && bg == if run.bg.Some? then [1, run.bg.value] else [0]
    ensures EncodeRun(run) == [run.row] + ([run.startCol] + ([run.style] + (fg + (bg + ([|text|] + text)))))
  {
    AsciiBytes(run.chars);
    assert Utf8Text(run.chars) == text;
  }

  // ---------- the distance sort ----------

  function Abs(n: int): nat {
    if n < 0 then -n else n
  }

  /** The sort key; the source computes it in `u32`, which `DistanceFitsU32` shows never wraps. */
  function Distance(d: StateDiff, run: DiffRun): (k: nat) {
    Abs(run.row as int - d.cursor.row as int) * d.cols + Abs(run.startCol as int - d.cursor.col as int)
  }

  lemma MulMonotone(a: nat, b: nat, m: nat, n: nat)
    requires a <= m && b <= n
    ensures a * b <= m * n
  {
    assert a * b <= m * b;
  }

  lemma DistanceFitsU32(d: StateDiff, run: DiffRun)
    ensures Distance(d, run) < 0x1_0000_0000
  {
    MulMonotone(Abs(run.row as int - d.cursor.row as int), d.cols, 0xFFFF, 0xFFFF);
  }

  /** `sort_by_key` on the distance. */
  function SortRuns(d: StateDiff, runs: seq<DiffRun>): (r: seq<DiffRun>) {
    SortByKey(run => Distance(d, run), runs)
  }
}
