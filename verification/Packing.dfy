/**
 `encode_datagram`: the greedy fill of one datagram under a strict byte cap,
 splitting runs at character boundaries and deferring what does not fit.
 */
module Packing {
  import opened Wire
  import opened Widths
  import opened Postcard
  import opened StableSort
  import opened Datagram
  import opened Paint

  const RUN_HEADER_OVERHEAD: nat := 12

  /** `CapTooSmall` is the error return; `BoundViolated` is the failing hard assert. */
  datatype Encoded = CapTooSmall | BoundViolated | Payload(bytes: seq<byte>, deferred: seq<DiffRun>)

  // ---------- splitting a text ----------

  /** How many leading characters fit into `max` bytes. */
  function FitChars(t: seq<scalar>, max: nat): (n: nat)
    ensures n <= |t|
    ensures TextSize(t[..n]) <= max
    ensures n < |t| ==> TextSize(t[..n + 1]) > max
  {
    if t == [] || Utf8Len(t[0]) > max then 0
    else
      var n := FitChars(t[1..], max - Utf8Len(t[0]));
      assert t[..n + 1][1..] == t[1..][..n];
      assert n + 1 < |t| ==> t[..n + 2][1..] == t[1..][..n + 1];
      n + 1
  }

  method FitCharsInBytes(t: seq<scalar>, max: nat) returns (n: nat)
    ensures n == FitChars(t, max)
  {
    var used := 0;
    n := 0;
    while n < |t|
      invariant n <= |t| && used <= max
      invariant n + FitChars(t[n..], max - used) == FitChars(t, max)
    {
      var size := Utf8Len(t[n]);
      if used + size > max {
        return;
      }
      assert t[n..][1..] == t[n + 1..];
      used := used + size;
      n := n + 1;
    }
  }

  lemma TextSizeSnoc(t: seq<scalar>, n: nat)
    requires n < |t|
    ensures TextSize(t[..n + 1]) == TextSize(t[..n]) + Utf8Len(t[n])
  {
    Utf8TextConcat(t[..n], [t[n]]);
    assert t[..n + 1] == t[..n] + [t[n]];
    assert Utf8Text([t[n]]) == Utf8(t[n]) + Utf8Text([]);
    TextSizeIsLength(t[..n]);
    TextSizeIsLength(t[..n + 1]);
  }

  function CharByteOffset(t: seq<scalar>, n: nat): nat {
    if n < |t| then TextSize(t[..n]) else TextSize(t)
  }

  /** Cutting the bytes at that offset never cuts inside a character. */
  lemma SplitIsAtCharBoundary(t: seq<scalar>, n: nat)
    requires n <= |t|
    ensures CharByteOffset(t, n) <= |Utf8Text(t)|
    ensures Utf8Text(t)[..CharByteOffset(t, n)] == Utf8Text(t[..n])
    ensures Utf8Text(t)[CharByteOffset(t, n)..] == Utf8Text(t[n..])
  {
    assert t == t[..n] + t[n..];
    Utf8TextConcat(t[..n], t[n..]);
    TextSizeIsLength(t[..n]);
    assert n == |t| ==> t[..n] == t;
  }

  function LeftPart(run: DiffRun, n: nat): DiffRun
    requires n <= |run.chars|
  {
    run.(chars := run.chars[..n])
  }

  /** `start_col.saturating_add(n as u16)`: the cast truncates, the addition saturates. */
  function RightPart(run: DiffRun, n: nat): DiffRun
    requires n <= |run.chars|
  {
    var col: nat := run.startCol + n % 0x1_0000;
    run.(startCol := if col < 0x1_0000 then col else 0xFFFF, chars := run.chars[n..])
  }

  // ---------- the fill loop, as a function ----------

  datatype Packed = Packed(kept: seq<DiffRun>, deferred: seq<DiffRun>)

  /** The size of the body that carries `kept`. */
  type BodySizer = seq<DiffRun> -> nat

  /** The number of leading characters to try when a whole run does not fit. */
  function PrefixChars(size: BodySizer, kept: seq<DiffRun>, run: DiffRun, bodyCap: nat): (n: nat)
    ensures n <= |run.chars|
  {
    FitChars(run.chars, SaturatingSub(bodyCap, size(kept) + RUN_HEADER_OVERHEAD))
  }

  function PackRun(size: BodySizer, p: Packed, run: DiffRun, bodyCap: nat): Packed {
    if size(p.kept + [run]) < bodyCap then Packed(p.kept + [run], p.deferred)
    else
      var n := PrefixChars(size, p.kept, run, bodyCap);
      if n > 0 && size(p.kept + [LeftPart(run, n)]) < bodyCap then
        Packed(p.kept + [LeftPart(run, n)],
               if n < |run.chars| then p.deferred + [RightPart(run, n)] else p.deferred)
      else Packed(p.kept, p.deferred + [run])
  }

  function Pack(size: BodySizer, runs: seq<DiffRun>, bodyCap: nat): Packed
    decreases |runs|
  {
    if runs == [] then Packed([], [])
    else
      var last := |runs| - 1;
      PackRun(size, Pack(size, runs[..last], bodyCap), runs[last], bodyCap)
  }

  function SizeOf(d: StateDiff): BodySizer {
    kept => BodySize(d.(runs := kept))
  }

  function PackSorted(d: StateDiff, cap: nat): Packed {
    Pack(SizeOf(d), SortRuns(d, d.runs), SaturatingSub(cap, 1))
  }

  function Encode(d: StateDiff, cap: nat): Encoded {
    if cap < MIN_CAP then CapTooSmall
    else
      var p := PackSorted(d, cap);
      var body := EncodeBody(d.(runs := p.kept));
      if |body| < cap - 1 then Payload([TAG_STATE_DIFF] + body, p.deferred) else BoundViolated
  }

  /** The fill loop: push a run, pop it again if the body is full, keep a prefix or defer. */
  method Fill(size: BodySizer, sorted: seq<DiffRun>, bodyCap: nat)
    returns (encoded: seq<DiffRun>, deferred: seq<DiffRun>)
    ensures Packed(encoded, deferred) == Pack(size, sorted, bodyCap)
  {
    encoded, deferred := [], [];
    for i := 0 to |sorted|
      invariant Packed(encoded, deferred) == Pack(size, sorted[..i], bodyCap)
    {
      var run := sorted[i];
      ghost var before := encoded;
      assert sorted[..i + 1][..i] == sorted[..i];
      encoded := encoded + [run];
      if size(encoded) >= bodyCap {
        encoded := encoded[..|encoded| - 1];
        assert encoded == before;
        var remaining := SaturatingSub(bodyCap, size(encoded) + RUN_HEADER_OVERHEAD);
        if remaining > 0 {
          var n := FitCharsInBytes(run.chars, remaining);
          if n > 0 {
            var left, right := LeftPart(run, n), RightPart(run, n);
            encoded := encoded + [left];
            if size(encoded) < bodyCap {
              if right.chars != [] {
                deferred := deferred + [right];
              }
            } else {
              encoded := encoded[..|encoded| - 1];
              assert encoded == before;
              deferred := deferred + [run];
            }
          } else {
            deferred := deferred + [run];
          }
        } else {
          deferred := deferred + [run];
        }
      }
    }
    assert sorted[..|sorted|] == sorted;
  }

  method EncodeDatagram(d: StateDiff, cap: nat) returns (r: Encoded)
    ensures r == Encode(d, cap)
  {
    if cap < MIN_CAP {
      return CapTooSmall;
    }
    var bodyCap := SaturatingSub(cap, 1);
    var encoded, deferred := Fill(SizeOf(d), SortRuns(d, d.runs), bodyCap);
    var body := EncodeBody(d.(runs := encoded));
    if |body| < bodyCap {
      r := Payload([TAG_STATE_DIFF] + body, deferred);
    } else {
      r := BoundViolated;
    }
  }

  lemma SortRunsMembers(d: StateDiff, runs: seq<DiffRun>)
    ensures |SortRuns(d, runs)| == |runs|
    ensures forall run :: run in SortRuns(d, runs) <==> run in runs
  {
    SortByKeyMembers(run => Distance(d, run), runs);
  }

  // ---------- the size bound ----------

  lemma {:induction false} PackKeepsBound(size: BodySizer, runs: seq<DiffRun>, bodyCap: nat)
    requires size([]) < bodyCap
    ensures size(Pack(size, runs, bodyCap).kept) < bodyCap
    decreases |runs|
  {
    if runs != [] {
      PackKeepsBound(size, runs[..|runs| - 1], bodyCap);
    }
  }

  /**
   The outcome for every diff and every cap: below `MIN_CAP` an error; otherwise a
   payload exactly when the bare header leaves room, and then strictly below the cap.
   */
  lemma OutcomeIsExact(d: StateDiff, cap: nat)
    ensures Encode(d, cap).CapTooSmall? <==> cap < MIN_CAP
    ensures Encode(d, cap).Payload? <==> BodySize(d.(runs := [])) + 1 < cap
    ensures Encode(d, cap).Payload? ==> |Encode(d, cap).bytes| < cap
  {
    HeaderSizeRange(d);
    if MIN_CAP <= cap {
      var kept := PackSorted(d, cap).kept;
      BodySizeIsLength(d.(runs := kept));
      if SizeOf(d)([]) < cap - 1 {
        PackKeepsBound(SizeOf(d), SortRuns(d, d.runs), cap - 1);
      } else {
        VarintSizeMonotone(0, |kept|);
      }
    }
  }

  lemma CapTwentySixSuffices(d: StateDiff, cap: nat)
    requires 26 <= cap
    ensures Encode(d, cap).Payload? && |Encode(d, cap).bytes| < cap
  {
    HeaderSizeRange(d);
    OutcomeIsExact(d, cap);
  }

  /** The documented bound, `cap >= MIN_CAP`, is false: at 8 the assert fails for every diff. */
  lemma MinCapIsTooSmall(d: StateDiff)
    ensures Encode(d, MIN_CAP) == BoundViolated
  {
    HeaderSizeRange(d);
    OutcomeIsExact(d, MIN_CAP);
  }

  // ---------- the round trip ----------

  /** A payload decodes to the header with exactly the kept runs, unless it holds over `MAX_RUNS` of them. */
  lemma PayloadDecodes(d: StateDiff, cap: nat)
    requires Encode(d, cap).Payload? && cap < 0x1_0000_0000_0000_0000
    ensures var kept := PackSorted(d, cap).kept;
            DecodeDatagram(Encode(d, cap).bytes) ==
            if |kept| <= MAX_RUNS then Some(d.(runs := kept)) else None
  {
    var kept := PackSorted(d, cap).kept;
    BodySizeIsLength(d.(runs := kept));
    DatagramRoundTrip(d.(runs := kept));
  }

  lemma ManyRunsAreLarge(d: StateDiff)
    requires MAX_RUNS < |d.runs|
    ensures 24590 <= BodySize(d)
  {
    RunsSizeAtLeastSixEach(d.runs);
    VarintSizeMonotone(128, |d.runs|);
  }

  /** Up to a cap of 24591 the run-count guard never rejects what was encoded. */
  lemma GuardNeverRejects(d: StateDiff, cap: nat)
    requires Encode(d, cap).Payload? && cap <= 24591
    ensures DecodeDatagram(Encode(d, cap).bytes) == Some(d.(runs := PackSorted(d, cap).kept))
  {
    PayloadDecodes(d, cap);
    var e := d.(runs := PackSorted(d, cap).kept);
    BodySizeIsLength(e);
    if MAX_RUNS < |e.runs| {
      ManyRunsAreLarge(e);
    }
  }

  // ---------- splitting and deferring keep the cells ----------

  /** The columns of the run are columns: a split cannot saturate. */
  predicate InRow(run: DiffRun) {
    run.startCol + |run.chars| <= 0x1_0000
  }

  lemma HasAppend(runs: seq<DiffRun>, run: DiffRun, r: int, c: int, x: Cell)
    ensures Has(runs + [run], r, c, x) <==> Has(runs, r, c, x) || RunHas(run, r, c, x)
  {
    assert forall q :: q in runs + [run] <==> q in runs || q == run;
  }

  lemma PackRunKeepsCells(size: BodySizer, p: Packed, run: DiffRun, bodyCap: nat, r: int, c: int, x: Cell)
    requires InRow(run)
    ensures var q := PackRun(size, p, run, bodyCap);
            Has(q.kept, r, c, x) || Has(q.deferred, r, c, x) <==>
            Has(p.kept, r, c, x) || Has(p.deferred, r, c, x) || RunHas(run, r, c, x)
  {
    var n := PrefixChars(size, p.kept, run, bodyCap);
    if size(p.kept + [run]) < bodyCap {
      HasAppend(p.kept, run, r, c, x);
    } else if n > 0 && size(p.kept + [LeftPart(run, n)]) < bodyCap {
      HasAppend(p.kept, LeftPart(run, n), r, c, x);
      HasAppend(p.deferred, RightPart(run, n), r, c, x);
    } else {
      HasAppend(p.deferred, run, r, c, x);
    }
  }

  /** Whatever the sizes, every cell of the runs ends up kept or deferred, and no other cell does. */
  lemma {:induction false} PackKeepsCells(size: BodySizer, runs: seq<DiffRun>, bodyCap: nat, r: int, c: int, x: Cell)
    requires forall run :: run in runs ==> InRow(run)
    ensures var p := Pack(size, runs, bodyCap);
            Has(runs, r, c, x) <==> Has(p.kept, r, c, x) || Has(p.deferred, r, c, x)
    decreases |runs|
  {
    if runs != [] {
      var last := |runs| - 1;
      PackKeepsCells(size, runs[..last], bodyCap, r, c, x);
      PackRunKeepsCells(size, Pack(size, runs[..last], bodyCap), runs[last], bodyCap, r, c, x);
      HasAppend(runs[..last], runs[last], r, c, x);
      assert runs == runs[..last] + [runs[last]];
    }
  }

  // ---------- sums over runs ----------

  function Sum(f: DiffRun -> nat, runs: seq<DiffRun>): nat {
    if runs == [] then 0 else f(runs[0]) + Sum(f, runs[1..])
  }

  lemma {:induction false} SumAppend(f: DiffRun -> nat, runs: seq<DiffRun>, run: DiffRun)
    ensures Sum(f, runs + [run]) == Sum(f, runs) + f(run)
  {
    if runs == [] {
      assert runs + [run] == [run];
    } else {
      SumAppend(f, runs[1..], run);
      assert (runs + [run])[1..] == runs[1..] + [run];
    }
  }

  lemma {:induction false} SumInsert(f: DiffRun -> nat, key: DiffRun -> nat, run: DiffRun, runs: seq<DiffRun>)
    ensures Sum(f, Insert(key, run, runs)) == f(run) + Sum(f, runs)
  {
    var r := Insert(key, run, runs);
    if runs == [] || key(run) <= key(runs[0]) {
      assert r[1..] == runs;
    } else {
      SumInsert(f, key, run, runs[1..]);
      assert r[1..] == Insert(key, run, runs[1..]);
    }
  }

  lemma {:induction false} SumSort(f: DiffRun -> nat, key: DiffRun -> nat, runs: seq<DiffRun>)
    ensures Sum(f, SortByKey(key, runs)) == Sum(f, runs)
  {
    if runs != [] {
      SumSort(f, key, runs[1..]);
      SumInsert(f, key, runs[0], SortByKey(key, runs[1..]));
    }
  }

  lemma SumSortRuns(f: DiffRun -> nat, d: StateDiff, runs: seq<DiffRun>)
    ensures Sum(f, SortRuns(d, runs)) == Sum(f, runs)
  {
    SumSort(f, run => Distance(d, run), runs);
  }

  // ---------- no cell is written twice ----------

  predicate RunCovers(run: DiffRun, r: int, c: int) {
    run.row == r && run.startCol <= c < run.startCol + |run.chars|
  }

  function CoverOf(r: int, c: int): DiffRun -> nat {
    run => if RunCovers(run, r, c) then 1 else 0
  }

  /** How many runs write the cell (`r`, `c`). */
  function Cover(runs: seq<DiffRun>, r: int, c: int): nat {
    Sum(CoverOf(r, c), runs)
  }

  ghost predicate NonOverlapping(runs: seq<DiffRun>) {
    forall r, c :: Cover(runs, r, c) <= 1
  }

  lemma {:induction false} CoverIffHas(runs: seq<DiffRun>, r: int, c: int)
    ensures Cover(runs, r, c) > 0 <==> exists x :: Has(runs, r, c, x)
  {
    if runs != [] {
      var run := runs[0];
      CoverIffHas(runs[1..], r, c);
      assert forall q :: q in runs <==> q == run || q in runs[1..];
      if RunCovers(run, r, c) {
        var x := Cell(run.chars[c - run.startCol], run.style, run.fg, run.bg, false);
        assert RunHas(run, r, c, x);
        assert Has(runs, r, c, x);
      } else {
        assert forall x :: Has(runs, r, c, x) <==> Has(runs[1..], r, c, x);
      }
    }
  }

  lemma PackRunConservesCover(size: BodySizer, p: Packed, run: DiffRun, bodyCap: nat, r: int, c: int)
    requires InRow(run)
    ensures var q := PackRun(size, p, run, bodyCap);
            Cover(q.kept, r, c) + Cover(q.deferred, r, c) ==
            Cover(p.kept, r, c) + Cover(p.deferred, r, c) + CoverOf(r, c)(run)
  {
    var n := PrefixChars(size, p.kept, run, bodyCap);
    SumAppend(CoverOf(r, c), p.kept, run);
    SumAppend(CoverOf(r, c), p.kept, LeftPart(run, n));
    SumAppend(CoverOf(r, c), p.deferred, run);
    SumAppend(CoverOf(r, c), p.deferred, RightPart(run, n));
  }

  /** Conservation: every write of a cell is either kept or deferred, once. */
  lemma {:induction false} PackConservesCover(size: BodySizer, runs: seq<DiffRun>, bodyCap: nat, r: int, c: int)
    requires forall run :: run in runs ==> InRow(run)
    ensures var p := Pack(size, runs, bodyCap);
            Cover(p.kept, r, c) + Cover(p.deferred, r, c) == Cover(runs, r, c)
    decreases |runs|
  {
    if runs != [] {
      var last := |runs| - 1;
      PackConservesCover(size, runs[..last], bodyCap, r, c);
      PackRunConservesCover(size, Pack(size, runs[..last], bodyCap), runs[last], bodyCap, r, c);
      SumAppend(CoverOf(r, c), runs[..last], runs[last]);
      assert runs == runs[..last] + [runs[last]];
    }
  }

  // ---------- what every part keeps ----------

  lemma {:induction false} PackKeepsNarrow(w: WidthTable, size: BodySizer, runs: seq<DiffRun>, bodyCap: nat)
    requires NoWide(w, runs)
    ensures NoWide(w, Pack(size, runs, bodyCap).kept) && NoWide(w, Pack(size, runs, bodyCap).deferred)
    decreases |runs|
  {
    if runs != [] {
      var last := |runs| - 1;
      PackKeepsNarrow(w, size, runs[..last], bodyCap);
      assert runs[last] in runs;
    }
  }
}
