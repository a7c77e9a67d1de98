/**
 When encoding makes progress: which runs shrink under a cap, when nothing is deferred, and why
 encoding again what was deferred comes to an end.
 */
module Progress {
  import opened Wire
  import opened Postcard
  import opened StableSort
  import opened Datagram
  import opened Paint
  import opened Packing

  // ---------- the measure ----------

  function WeightOf(run: DiffRun): nat {
    |run.chars| + 1
  }

  /** Drops at every encoding of the deferred runs. */
  function Weight(runs: seq<DiffRun>): nat {
    Sum(WeightOf, runs)
  }

  lemma WeightAppend(runs: seq<DiffRun>, run: DiffRun)
    ensures Weight(runs + [run]) == Weight(runs) + |run.chars| + 1
  {
    SumAppend(WeightOf, runs, run);
  }

  /** On an empty datagram the run is kept, at least in part. */
  predicate Shrinks(size: BodySizer, run: DiffRun, bodyCap: nat) {
    PackRun(size, Packed([], []), run, bodyCap).kept != []
  }

  lemma PackRunWeight(size: BodySizer, p: Packed, run: DiffRun, bodyCap: nat)
    ensures var q := PackRun(size, p, run, bodyCap);
            && Weight(q.deferred) <= Weight(p.deferred) + |run.chars| + 1
            && (Weight(q.deferred) < Weight(p.deferred) + |run.chars| + 1 <==> |q.kept| > |p.kept|)
  {
    WeightAppend(p.deferred, run);
    WeightAppend(p.deferred, RightPart(run, PrefixChars(size, p.kept, run, bodyCap)));
  }

  lemma PackRunKeepsFirst(size: BodySizer, p: Packed, run: DiffRun, bodyCap: nat)
    ensures PackRun(size, p, run, bodyCap).kept != [] <==> p.kept != [] || Shrinks(size, run, bodyCap)
    ensures |PackRun(size, p, run, bodyCap).kept| >= |p.kept|
  {}

  lemma {:induction false} PackWeight(size: BodySizer, runs: seq<DiffRun>, bodyCap: nat)
    ensures var p := Pack(size, runs, bodyCap);
            Weight(p.deferred) <= Weight(runs) && (Weight(p.deferred) < Weight(runs) <==> p.kept != [])
    decreases |runs|
  {
    if runs != [] {
      var last := |runs| - 1;
      var p := Pack(size, runs[..last], bodyCap);
      PackWeight(size, runs[..last], bodyCap);
      PackRunWeight(size, p, runs[last], bodyCap);
      PackRunKeepsFirst(size, p, runs[last], bodyCap);
      WeightAppend(runs[..last], runs[last]);
      assert runs == runs[..last] + [runs[last]];
    }
  }

  lemma {:induction false} PackKeepsSomeIff(size: BodySizer, runs: seq<DiffRun>, bodyCap: nat)
    ensures Pack(size, runs, bodyCap).kept != [] <==> exists run :: run in runs && Shrinks(size, run, bodyCap)
    decreases |runs|
  {
    if runs != [] {
      var last := |runs| - 1;
      PackKeepsSomeIff(size, runs[..last], bodyCap);
      PackRunKeepsFirst(size, Pack(size, runs[..last], bodyCap), runs[last], bodyCap);
      assert forall run :: run in runs <==> run in runs[..last] || run == runs[last];
    }
  }

  /**
   For every diff and every cap: encoding again what was deferred is strictly less work if and
   only if some run of the diff shrinks, that is, fits an empty datagram at least in part.
   */
  lemma ProgressIff(d: StateDiff, cap: nat, p: Packed)
    requires p == PackSorted(d, cap)
    ensures Weight(p.deferred) < Weight(d.runs)
            <==> exists run :: run in d.runs && Shrinks(SizeOf(d), run, SaturatingSub(cap, 1))
  {
    var sorted := SortRuns(d, d.runs);
    PackWeight(SizeOf(d), sorted, SaturatingSub(cap, 1));
    PackKeepsSomeIff(SizeOf(d), sorted, SaturatingSub(cap, 1));
    SortRunsMembers(d, d.runs);
    SumSortRuns(WeightOf, d, d.runs);
  }

  // ---------- which runs shrink ----------

  lemma SizeOfOne(d: StateDiff, run: DiffRun)
    ensures SizeOf(d)([run]) == SizeOf(d)([]) + RunSize(run)
  {
    assert RunsSize([run]) == RunSize(run) + RunsSize([]);
  }

  /** The text bytes of the prefix that is tried beside a header of `h` bytes. */
  function PrefixText(run: DiffRun, h: nat, cap: nat): nat {
    TextSize(run.chars[..FitChars(run.chars, SaturatingSub(SaturatingSub(cap, 1), h + RUN_HEADER_OVERHEAD))])
  }

  lemma {:induction false} TextSizePositive(t: seq<scalar>)
    ensures TextSize(t) >= |t|
  {
    if t != [] { TextSizePositive(t[1..]); }
  }

  /** Beside a header of `h` bytes all of the run fits, or a prefix of `text` bytes with its true overhead. */
  predicate PartFits(run: DiffRun, h: nat, text: nat, cap: nat) {
    h + RunSize(run) < cap - 1 || (text > 0 && h + RunOverhead(run, text) + text < cap - 1)
  }

  /** A run shrinks if and only if it or the prefix tried for it fits. */
  lemma ShrinksIff(d: StateDiff, run: DiffRun, cap: nat)
    requires cap > 0
    ensures Shrinks(SizeOf(d), run, cap - 1) <==> PartFits(run, BodySize(d.(runs := [])), PrefixText(run, BodySize(d.(runs := [])), cap), cap)
  {
    var n := PrefixChars(SizeOf(d), [], run, cap - 1);
    var left := LeftPart(run, n);
    assert [] + [run] == [run] && [] + [left] == [left];
    SizeOfOne(d, run);
    SizeOfOne(d, left);
    TextSizePositive(left.chars);
  }

  ghost predicate IsAscii(t: seq<scalar>) {
    forall i :: 0 <= i < |t| ==> t[i] < 0x80
  }

  lemma {:induction false} AsciiTextSize(t: seq<scalar>)
    requires IsAscii(t)
    ensures TextSize(t) == |t|
  {
    if t != [] { AsciiTextSize(t[1..]); }
  }

  lemma AsciiPrefix(t: seq<scalar>, max: nat)
    requires IsAscii(t)
    ensures FitChars(t, max) == if |t| < max then |t| else max
    ensures TextSize(t[..FitChars(t, max)]) == FitChars(t, max)
  {
    var n := FitChars(t, max);
    AsciiTextSize(t[..n]);
    if n < |t| { AsciiTextSize(t[..n + 1]); }
  }

  lemma OverheadMonotone(run: DiffRun, a: nat, b: nat)
    requires a <= b
    ensures RunOverhead(run, a) <= RunOverhead(run, b)
  {
    VarintSizeMonotone(a, b);
  }

  /**
   The constant 12 is not the worst overhead. An ASCII run that does not fit whole shrinks if and
   only if there is room beyond the constant and the true overhead of that much text is below it.
   */
  lemma AsciiShrinksIff(d: StateDiff, run: DiffRun, cap: nat)
    requires cap > 0 && IsAscii(run.chars) && BodySize(d.(runs := [])) + RunSize(run) >= cap - 1
    ensures var h := BodySize(d.(runs := []));
            Shrinks(SizeOf(d), run, cap - 1) <==>
            h + RUN_HEADER_OVERHEAD < cap - 1 && RunOverhead(run, cap - 1 - h - RUN_HEADER_OVERHEAD) < RUN_HEADER_OVERHEAD
  {
    ShrinksIff(d, run, cap);
    AsciiPartFitsIff(run, BodySize(d.(runs := [])), cap);
  }

  lemma AsciiPartFitsIff(run: DiffRun, h: nat, cap: nat)
    requires cap > 0 && IsAscii(run.chars) && h + RunSize(run) >= cap - 1
    ensures PartFits(run, h, PrefixText(run, h, cap), cap) <==>
            h + RUN_HEADER_OVERHEAD < cap - 1 && RunOverhead(run, cap - 1 - h - RUN_HEADER_OVERHEAD) < RUN_HEADER_OVERHEAD
  {
    var room := SaturatingSub(cap - 1, h + RUN_HEADER_OVERHEAD);
    AsciiPrefix(run.chars, room);
    AsciiTextSize(run.chars);
    if |run.chars| < room { OverheadMonotone(run, |run.chars|, room); }
  }

  /** For example: far from the origin and in both colours a run never shrinks, and is deferred as it is. */
  lemma FarRunNeverShrinks(d: StateDiff, run: DiffRun, cap: nat)
    requires cap > 0 && IsAscii(run.chars) && BodySize(d.(runs := [])) + RunSize(run) >= cap - 1
    requires 0x4000 <= run.row && 0x4000 <= run.startCol && run.fg.Some? && run.bg.Some?
    ensures !Shrinks(SizeOf(d), run, cap - 1)
  {
    AsciiShrinksIff(d, run, cap);
    VarintSizeMonotone(0x4000, run.row);
    VarintSizeMonotone(0x4000, run.startCol);
    assert VarintSize(0x4000) == 3;
  }

  // ---------- runs that keep shrinking ----------

  function Least(a: nat, b: nat): nat {
    if a < b then a else b
  }

  /** The overhead of any part of the run under the cap: its row, its last column, and its text. */
  function WorstOverhead(run: DiffRun, cap: nat): nat
    requires InRow(run)
  {
    var last: nat := if run.chars == [] then run.startCol else run.startCol + |run.chars| - 1;
    RunOverhead(run.(startCol := last), Least(cap, TextSize(run.chars)))
  }

  /** No part of the run has an overhead of 12 or more. */
  predicate Compact(run: DiffRun, cap: nat) {
    InRow(run) && WorstOverhead(run, cap) < RUN_HEADER_OVERHEAD
  }

  lemma PartOverhead(run: DiffRun, cap: nat, text: nat)
    requires InRow(run) && text <= cap && text <= TextSize(run.chars)
    ensures RunOverhead(run, text) <= WorstOverhead(run, cap)
  {
    var last := if run.chars == [] then run.startCol else run.startCol + |run.chars| - 1;
    VarintSizeMonotone(run.startCol, last);
    VarintSizeMonotone(text, Least(cap, TextSize(run.chars)));
  }

  lemma {:induction false} TextSizeParts(t: seq<scalar>, n: nat)
    requires n <= |t|
    ensures TextSize(t) == TextSize(t[..n]) + TextSize(t[n..])
  {
    if n > 0 {
      TextSizeParts(t[1..], n - 1);
      assert t[..n][1..] == t[1..][..n - 1] && t[1..][n - 1..] == t[n..];
    }
  }

  /** With room for one character beyond the constant, a compact run shrinks. */
  lemma CompactShrinks(d: StateDiff, run: DiffRun, cap: nat)
    requires Compact(run, cap) && BodySize(d.(runs := [])) + RUN_HEADER_OVERHEAD + 5 <= cap
    ensures Shrinks(SizeOf(d), run, cap - 1)
  {
    ShrinksIff(d, run, cap);
    CompactPartFits(run, BodySize(d.(runs := [])), cap);
  }

  lemma CompactPartFits(run: DiffRun, h: nat, cap: nat)
    requires Compact(run, cap) && h + RUN_HEADER_OVERHEAD + 5 <= cap
    ensures PartFits(run, h, PrefixText(run, h, cap), cap)
  {
    var n := FitChars(run.chars, cap - 1 - h - RUN_HEADER_OVERHEAD);
    TextSizeParts(run.chars, n);
    PartOverhead(run, cap, TextSize(run.chars[..n]));
    if run.chars != [] {
      TextSizeSnoc(run.chars, 0);
      TextSizePositive(run.chars[..n]);
    }
  }

  lemma RightPartIsCompact(run: DiffRun, cap: nat, n: nat)
    requires Compact(run, cap) && n < |run.chars|
    ensures Compact(RightPart(run, n), cap)
  {
    TextSizeParts(run.chars, n);
    VarintSizeMonotone(Least(cap, TextSize(run.chars[n..])), Least(cap, TextSize(run.chars)));
  }

  lemma {:induction false} PackKeepsCompact(size: BodySizer, runs: seq<DiffRun>, bodyCap: nat, cap: nat)
    requires forall run :: run in runs ==> Compact(run, cap)
    ensures forall run :: run in Pack(size, runs, bodyCap).deferred ==> Compact(run, cap)
    decreases |runs|
  {
    if runs != [] {
      var last := |runs| - 1;
      PackKeepsCompact(size, runs[..last], bodyCap, cap);
      PackRunKeepsCompact(size, Pack(size, runs[..last], bodyCap), runs[last], bodyCap, cap);
    }
  }

  lemma PackRunKeepsCompact(size: BodySizer, p: Packed, run: DiffRun, bodyCap: nat, cap: nat)
    requires Compact(run, cap) && forall q :: q in p.deferred ==> Compact(q, cap)
    ensures forall q :: q in PackRun(size, p, run, bodyCap).deferred ==> Compact(q, cap)
  {
    var n := PrefixChars(size, p.kept, run, bodyCap);
    if n < |run.chars| { RightPartIsCompact(run, cap, n); }
  }

  // ---------- when nothing is deferred ----------

  lemma PackRunDefersNothingIff(size: BodySizer, p: Packed, run: DiffRun, bodyCap: nat)
    ensures var q := PackRun(size, p, run, bodyCap);
            && (q.deferred == [] <==> p.deferred == [] && size(p.kept + [run]) < bodyCap)
            && (q.deferred == [] ==> q.kept == p.kept + [run])
  {
    assert LeftPart(run, |run.chars|) == run;
  }

  lemma {:induction false} KeepsAllIfNothingDeferred(size: BodySizer, runs: seq<DiffRun>, bodyCap: nat)
    requires Pack(size, runs, bodyCap).deferred == []
    ensures Pack(size, runs, bodyCap).kept == runs
    decreases |runs|
  {
    if runs != [] {
      var last := |runs| - 1;
      PackRunDefersNothingIff(size, Pack(size, runs[..last], bodyCap), runs[last], bodyCap);
      KeepsAllIfNothingDeferred(size, runs[..last], bodyCap);
      assert runs == runs[..last] + [runs[last]];
    }
  }

  lemma SizeGrows(d: StateDiff, runs: seq<DiffRun>, run: DiffRun)
    ensures SizeOf(d)(runs) <= SizeOf(d)(runs + [run])
  {
    RunsSizeAppend(runs, run);
    VarintSizeMonotone(|runs|, |runs| + 1);
  }

  lemma {:induction false} KeepsAllThatFits(d: StateDiff, size: BodySizer, runs: seq<DiffRun>, bodyCap: nat)
    requires size == SizeOf(d) && size(runs) < bodyCap
    ensures Pack(size, runs, bodyCap).deferred == []
    decreases |runs|
  {
    if runs != [] {
      var last := |runs| - 1;
      assert runs == runs[..last] + [runs[last]];
      SizeGrows(d, runs[..last], runs[last]);
      KeepsAllThatFits(d, size, runs[..last], bodyCap);
      KeepsAllIfNothingDeferred(size, runs[..last], bodyCap);
      PackRunDefersNothingIff(size, Pack(size, runs[..last], bodyCap), runs[last], bodyCap);
    }
  }

  lemma {:induction false} RunsSizeIsSum(runs: seq<DiffRun>)
    ensures RunsSize(runs) == Sum(RunSize, runs)
  {
    if runs != [] { RunsSizeIsSum(runs[1..]); }
  }

  lemma SortingKeepsSize(d: StateDiff)
    ensures SizeOf(d)(SortRuns(d, d.runs)) == BodySize(d)
  {
    SumSortRuns(RunSize, d, d.runs);
    RunsSizeIsSum(d.runs);
    RunsSizeIsSum(SortRuns(d, d.runs));
    SortRunsMembers(d, d.runs);
  }

  /** Whenever there is a payload, nothing is deferred if and only if the diff and its tag are below the cap. */
  lemma DefersNothingIff(d: StateDiff, cap: nat)
    requires Encode(d, cap).Payload?
    ensures Encode(d, cap).deferred == [] <==> BodySize(d) + 1 < cap
  {
    OutcomeIsExact(d, cap);
    SortedDefersNothingIff(d, cap, PackSorted(d, cap));
  }

  lemma SortedDefersNothingIff(d: StateDiff, cap: nat, p: Packed)
    requires BodySize(d.(runs := [])) + 1 < cap && p == PackSorted(d, cap)
    ensures p.deferred == [] <==> BodySize(d) + 1 < cap
  {
    SortingKeepsSize(d);
    RunsDeferNothingIff(d, SizeOf(d), SortRuns(d, d.runs), cap - 1);
  }

  lemma RunsDeferNothingIff(d: StateDiff, size: BodySizer, runs: seq<DiffRun>, bodyCap: nat)
    requires size == SizeOf(d) && size([]) < bodyCap
    ensures Pack(size, runs, bodyCap).deferred == [] <==> size(runs) < bodyCap
  {
    PackKeepsBound(size, runs, bodyCap);
    if Pack(size, runs, bodyCap).deferred == [] { KeepsAllIfNothingDeferred(size, runs, bodyCap); }
    if size(runs) < bodyCap { KeepsAllThatFits(d, size, runs, bodyCap); }
  }
}
