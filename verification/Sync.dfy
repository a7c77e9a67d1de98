/**
 State sync end to end: the server sends the diff of its grid against the acknowledged one as a
 burst of capped datagrams (`send_burst`), and the client decodes and applies what arrives.
 */
module Sync {
  import opened Wire
  import opened Widths
  import opened StableSort
  import opened Postcard
  import opened Datagram
  import opened Paint
  import opened Packing
  import opened Progress
  import opened Screen
  import opened DiffScan

  // ---------- the burst ----------

  /**
   The cap leaves room for a character beyond the constant overhead and is low enough for the
   decoder's run-count guard, and no part of a run outgrows that constant.
   */
  ghost predicate Deliverable(d: StateDiff, cap: nat) {
    && BodySize(d.(runs := [])) + RUN_HEADER_OVERHEAD + 5 <= cap <= 24591
    && forall run :: run in d.runs ==> Compact(run, cap)
  }

  lemma EncodeSucceeds(d: StateDiff, cap: nat)
    requires BodySize(d.(runs := [])) + 1 < cap
    ensures Encode(d, cap).Payload? && Encode(d, cap).deferred == PackSorted(d, cap).deferred
  {
    OutcomeIsExact(d, cap);
  }

  lemma SortedAreCompact(d: StateDiff, cap: nat)
    requires forall run :: run in d.runs ==> Compact(run, cap)
    ensures forall run :: run in SortRuns(d, d.runs) ==> Compact(run, cap)
  {
    SortRunsMembers(d, d.runs);
  }

  lemma DeferredIsCompact(d: StateDiff, cap: nat, p: Packed)
    requires Deliverable(d, cap) && p == PackSorted(d, cap)
    ensures forall run :: run in p.deferred ==> Compact(run, cap)
  {
    SortedAreCompact(d, cap);
    PackKeepsCompact(SizeOf(d), SortRuns(d, d.runs), cap - 1, cap);
  }

  lemma KeptIfShrinks(size: BodySizer, runs: seq<DiffRun>, bodyCap: nat, run: DiffRun, p: Packed)
    requires run in runs && Shrinks(size, run, bodyCap) && p == Pack(size, runs, bodyCap)
    ensures p.kept != []
  {
    PackKeepsSomeIff(size, runs, bodyCap);
  }

  lemma SortedKeepsIfShrinks(d: StateDiff, cap: nat, run: DiffRun, p: Packed)
    requires cap > 0 && run in d.runs && Shrinks(SizeOf(d), run, cap - 1) && p == PackSorted(d, cap)
    ensures p.kept != []
  {
    SortRunsMembers(d, d.runs);
    KeptIfShrinks(SizeOf(d), SortRuns(d, d.runs), cap - 1, run, p);
  }

  lemma SomeIsKept(d: StateDiff, cap: nat, p: Packed)
    requires Deliverable(d, cap) && d.runs != [] && p == PackSorted(d, cap)
    ensures p.kept != []
  {
    var run := d.runs[0];
    assert run in d.runs;
    CompactShrinks(d, run, cap);
    SortedKeepsIfShrinks(d, cap, run, p);
  }

  lemma DeferredWeighsLess(d: StateDiff, cap: nat, p: Packed)
    requires Deliverable(d, cap) && d.runs != [] && p == PackSorted(d, cap)
    ensures Weight(p.deferred) < Weight(d.runs)
  {
    SomeIsKept(d, cap, p);
    PackWeight(SizeOf(d), SortRuns(d, d.runs), cap - 1);
    SumSortRuns(WeightOf, d, d.runs);
  }

  lemma DeferredIsDeliverable(d: StateDiff, cap: nat)
    requires Deliverable(d, cap)
    ensures Deliverable(d.(runs := PackSorted(d, cap).deferred), cap)
    ensures PackSorted(d, cap).deferred != [] ==> Weight(PackSorted(d, cap).deferred) < Weight(d.runs)
  {
    DeferredIsCompact(d, cap, PackSorted(d, cap));
    if d.runs == [] {
      assert SortRuns(d, d.runs) == [];
    } else {
      DeferredWeighsLess(d, cap, PackSorted(d, cap));
    }
  }

  /** The payloads of one tick: encode, then encode what was deferred, until nothing is. */
  function Burst(d: StateDiff, cap: nat): (ps: seq<seq<byte>>)
    requires Deliverable(d, cap)
    decreases Weight(d.runs)
  {
    EncodeSucceeds(d, cap);
    DeferredIsDeliverable(d, cap);
    var e := Encode(d, cap);
    if e.deferred == [] then [e.bytes] else [e.bytes] + Burst(d.(runs := e.deferred), cap)
  }

  ghost predicate Carries(p: seq<byte>, r: int, c: int, x: Cell) {
    DecodeDatagram(p).Some? && Has(DecodeDatagram(p).value.runs, r, c, x)
  }

  lemma SortKeepsCells(d: StateDiff, r: int, c: int, x: Cell)
    ensures Has(SortRuns(d, d.runs), r, c, x) <==> Has(d.runs, r, c, x)
  {
    SortRunsMembers(d, d.runs);
  }

  lemma StepKeepsCells(d: StateDiff, cap: nat, p: Packed, r: int, c: int, x: Cell)
    requires Deliverable(d, cap) && p == PackSorted(d, cap)
    ensures Has(d.runs, r, c, x) <==> Has(p.kept, r, c, x) || Has(p.deferred, r, c, x)
  {
    SortedAreCompact(d, cap);
    SortKeepsCells(d, r, c, x);
    PackKeepsCells(SizeOf(d), SortRuns(d, d.runs), cap - 1, r, c, x);
  }

  /** Through sort, split and deferral, the payloads carry exactly the cells of the diff. */
  lemma {:induction false} BurstCarries(d: StateDiff, cap: nat, r: int, c: int, x: Cell)
    requires Deliverable(d, cap)
    ensures Has(d.runs, r, c, x) <==> exists p :: p in Burst(d, cap) && Carries(p, r, c, x)
    decreases Weight(d.runs)
  {
    EncodeSucceeds(d, cap);
    DeferredIsDeliverable(d, cap);
    GuardNeverRejects(d, cap);
    StepKeepsCells(d, cap, PackSorted(d, cap), r, c, x);
    var e := Encode(d, cap);
    var rest := d.(runs := e.deferred);
    assert Carries(e.bytes, r, c, x) <==> Has(PackSorted(d, cap).kept, r, c, x);
    if e.deferred == [] {
      assert forall p :: p in Burst(d, cap) <==> p == e.bytes;
    } else {
      BurstCarries(rest, cap, r, c, x);
      assert forall p :: p in Burst(d, cap) <==> p == e.bytes || p in Burst(rest, cap);
    }
  }

  lemma PartsAreNarrow(w: WidthTable, d: StateDiff, cap: nat)
    requires 1 <= cap && NoWide(w, d.runs)
    ensures NoWide(w, PackSorted(d, cap).kept) && NoWide(w, PackSorted(d, cap).deferred)
  {
    SortRunsMembers(d, d.runs);
    PackKeepsNarrow(w, SizeOf(d), SortRuns(d, d.runs), cap - 1);
  }

  ghost predicate IsPartOf(w: WidthTable, e: StateDiff, d: StateDiff) {
    SameHeader(e, d) && NoWide(w, e.runs)
  }

  /** Every payload is below the cap and decodes to a part of the diff. */
  lemma {:induction false} BurstDecodes(w: WidthTable, d: StateDiff, cap: nat, p: seq<byte>)
    requires Deliverable(d, cap) && NoWide(w, d.runs) && p in Burst(d, cap)
    ensures |p| < cap
    ensures DecodeDatagram(p).Some? && IsPartOf(w, DecodeDatagram(p).value, d)
    decreases Weight(d.runs)
  {
    EncodeSucceeds(d, cap);
    DeferredIsDeliverable(d, cap);
    PartsAreNarrow(w, d, cap);
    var e := Encode(d, cap);
    if p == e.bytes {
      OutcomeIsExact(d, cap);
      GuardNeverRejects(d, cap);
    } else {
      BurstDecodes(w, d.(runs := e.deferred), cap, p);
    }
  }

  lemma BurstStartsWithEncode(d: StateDiff, cap: nat)
    requires Deliverable(d, cap)
    ensures Encode(d, cap).Payload?
    ensures Burst(d, cap) != [] && Burst(d, cap)[0] == Encode(d, cap).bytes
  {
    EncodeSucceeds(d, cap);
    DeferredIsDeliverable(d, cap);
  }

  // ---------- the client: decode and apply what arrives ----------

  function ReceiveOne(w: WidthTable, s: ScreenState, p: seq<byte>): ScreenState {
    match DecodeDatagram(p)
    case None => s
    case Some(d) => ApplyDiff(w, s, d)
  }

  function Receive(w: WidthTable, s: ScreenState, ps: seq<seq<byte>>): (t: ScreenState)
    decreases |ps|
  {
    if ps == [] then s else ReceiveOne(w, Receive(w, s, ps[..|ps| - 1]), ps[|ps| - 1])
  }

  function Decoded(ps: seq<seq<byte>>): (ds: seq<StateDiff>)
    requires forall p :: p in ps ==> DecodeDatagram(p).Some?
  {
    seq(|ps|, i requires 0 <= i < |ps| => DecodeDatagram(ps[i]).value)
  }

  lemma {:induction false} ReceiveIsApplyAll(w: WidthTable, s: ScreenState, ps: seq<seq<byte>>)
    requires forall p :: p in ps ==> DecodeDatagram(p).Some?
    ensures Receive(w, s, ps) == ApplyAll(w, s, Decoded(ps))
    decreases |ps|
  {
    if ps != [] {
      var last := |ps| - 1;
      ReceiveIsApplyAll(w, s, ps[..last]);
      DecodedPrefix(ps, last);
    }
  }

  lemma DecodedPrefix(ps: seq<seq<byte>>, last: nat)
    requires last < |ps| && forall p :: p in ps ==> DecodeDatagram(p).Some?
    ensures Decoded(ps)[..last] == Decoded(ps[..last]) && DecodeDatagram(ps[last]) == Some(Decoded(ps)[last])
  {
    assert ps[last] in ps;
  }

  lemma {:induction false} AllRunsNarrow(w: WidthTable, ds: seq<StateDiff>)
    requires forall e :: e in ds ==> NoWide(w, e.runs)
    ensures NoWide(w, AllRuns(ds))
    decreases |ds|
  {
    if ds != [] {
      AllRunsNarrow(w, ds[..|ds| - 1]);
      assert ds[|ds| - 1] in ds;
    }
  }

  ghost predicate SameMembers<T(!new)>(a: seq<T>, b: seq<T>) {
    forall x :: x in a <==> x in b
  }

  lemma ArrivedAreParts(w: WidthTable, d: StateDiff, cap: nat, arrived: seq<seq<byte>>)
    requires Deliverable(d, cap) && NoWide(w, d.runs) && SameMembers(arrived, Burst(d, cap))
    ensures arrived != [] && forall p :: p in arrived ==> DecodeDatagram(p).Some?
    ensures forall e :: e in Decoded(arrived) ==> IsPartOf(w, e, d)
  {
    forall p | p in arrived
      ensures DecodeDatagram(p).Some? && IsPartOf(w, DecodeDatagram(p).value, d)
    {
      BurstDecodes(w, d, cap, p);
    }
    BurstStartsWithEncode(d, cap);
    assert Burst(d, cap)[0] in arrived;
  }

  /**
   Convergent delivery: if all payloads of a burst arrive, in any order and any number
   of times, the client's screen is the one a single uncapped diff would have produced.
   */
  lemma BurstDelivers(w: WidthTable, s: ScreenState, d: StateDiff, cap: nat, arrived: seq<seq<byte>>)
    requires Deliverable(d, cap) && NoWide(w, d.runs) && Consistent(d.runs)
    requires SameMembers(arrived, Burst(d, cap))
    ensures Receive(w, s, arrived) == ApplyDiff(w, s, d)
  {
    ArrivedAreParts(w, d, cap, arrived);
    var runs := AllRuns(Decoded(arrived));
    ReceiveIsApplyAll(w, s, arrived);
    ApplyAllIsOneApply(w, s, Decoded(arrived), d);
    AllRunsNarrow(w, Decoded(arrived));
    ArrivedHasSameCells(d, cap, arrived);
    SameCellsPaintTheSame(w, FitTo(s, d).confirmed, d.runs, runs);
  }

  lemma ArrivedHasSameCells(d: StateDiff, cap: nat, arrived: seq<seq<byte>>)
    requires Deliverable(d, cap) && SameMembers(arrived, Burst(d, cap))
    requires forall p :: p in arrived ==> DecodeDatagram(p).Some?
    ensures SameCells(d.runs, AllRuns(Decoded(arrived)))
  {
    forall r, c, x
      ensures Has(d.runs, r, c, x) <==> Has(AllRuns(Decoded(arrived)), r, c, x)
    {
      BurstCarries(d, cap, r, c, x);
      AllRunsHas(Decoded(arrived), r, c, x);
      ArrivedCarries(arrived, r, c, x);
    }
  }

  lemma ArrivedCarries(ps: seq<seq<byte>>, r: int, c: int, x: Cell)
    requires forall p :: p in ps ==> DecodeDatagram(p).Some?
    ensures (exists e :: e in Decoded(ps) && Has(e.runs, r, c, x)) <==> exists p :: p in ps && Carries(p, r, c, x)
  {
    if p :| p in ps && Carries(p, r, c, x) {
      var i :| 0 <= i < |ps| && ps[i] == p;
      assert Decoded(ps)[i] in Decoded(ps);
    }
    if e :| e in Decoded(ps) && Has(e.runs, r, c, x) {
      var i :| 0 <= i < |ps| && Decoded(ps)[i] == e;
      assert ps[i] in ps && Carries(ps[i], r, c, x);
    }
  }

  // ---------- end to end ----------

  ghost predicate NoWideGlyphs(w: WidthTable, g: Grid) {
    forall r, c :: InGrid(g, r, c) ==> !IsWide(w, g[r][c].ch)
  }

  /** A diff of `current` against the acknowledged grid `base`, for a client that will apply it. */
  ghost predicate DiffFor(w: WidthTable, s: ScreenState, d: StateDiff, current: Grid, base: Grid) {
    && Valid(s) && PlausibleSize(d) && !Stale(s, d)
    && Rectangular(current, d.cols, d.rows) && NoWideGlyphs(w, current)
    && Describes(d.runs, current, base)
  }

  lemma RunCellsAreChanged(d: StateDiff, current: Grid, baseline: Grid, run: DiffRun, k: nat)
    requires Describes(d.runs, current, baseline) && run in d.runs && k < |run.chars|
    ensures Changed(current, baseline, run.row, run.startCol + k)
    ensures current[run.row][run.startCol + k].ch == run.chars[k]
  {
    var x := Cell(run.chars[k], run.style, run.fg, run.bg, false);
    assert RunHas(run, run.row, run.startCol + k, x);
    assert Has(d.runs, run.row, run.startCol + k, x);
  }

  lemma {:induction false} TextSizeAtMost(t: seq<scalar>)
    ensures TextSize(t) <= 4 * |t|
  {
    if t != [] { TextSizeAtMost(t[1..]); }
  }

  /** Runs inside an accepted terminal size are compact under every cap. */
  lemma SmallIsCompact(run: DiffRun, cap: nat)
    requires run.row < 0x4000 && run.startCol + |run.chars| <= MAX_TERMINAL_COLS && run.chars != []
    ensures Compact(run, cap)
  {
    TextSizeAtMost(run.chars);
    VarintSizeMonotone(run.row, 0x3FFF);
    VarintSizeMonotone(run.startCol + |run.chars| - 1, 0x3FFF);
    VarintSizeMonotone(Least(cap, TextSize(run.chars)), 0x3FFF);
    assert VarintSize(0x3FFF) == 2;
  }

  lemma DiffForIsDeliverable(w: WidthTable, s: ScreenState, d: StateDiff, current: Grid, base: Grid, cap: nat)
    requires DiffFor(w, s, d, current, base) && BodySize(d.(runs := [])) + RUN_HEADER_OVERHEAD + 5 <= cap <= 24591
    ensures Deliverable(d, cap) && NoWide(w, d.runs) && Consistent(d.runs)
  {
    forall run | run in d.runs
      ensures Compact(run, cap)
      ensures forall ch :: ch in run.chars ==> !IsWide(w, ch)
    {
      RunCellsAreChanged(d, current, base, run, |run.chars| - 1);
      SmallIsCompact(run, cap);
      forall k | 0 <= k < |run.chars|
        ensures !IsWide(w, run.chars[k])
      {
        RunCellsAreChanged(d, current, base, run, k);
      }
    }
  }

  /** Painting cells of `current` over `g` gives `current` if and only if `g` has the others already. */
  lemma PaintingReproducesIff(w: WidthTable, g: Grid, current: Grid, runs: seq<DiffRun>, cols: nat, rows: nat)
    requires Rectangular(g, cols, rows) && Rectangular(current, cols, rows) && NoWide(w, runs)
    requires forall r, c, x :: Has(runs, r, c, x) ==> InGrid(current, r, c) && x == current[r][c]
    ensures PaintRuns(w, g, runs) == current <==>
            forall r, c :: InGrid(current, r, c) && !Has(runs, r, c, current[r][c]) ==> g[r][c] == current[r][c]
  {
    var p := PaintRuns(w, g, runs);
    forall r, c | InGrid(current, r, c)
      ensures p[r][c] == if Has(runs, r, c, current[r][c]) then current[r][c] else g[r][c]
    {
      PaintedCell(w, g, runs, r, c);
    }
    if forall r, c :: InGrid(current, r, c) && !Has(runs, r, c, current[r][c]) ==> g[r][c] == current[r][c] {
      forall r | 0 <= r < |g|
        ensures p[r] == current[r]
      {
        forall c | 0 <= c < |g[r]|
          ensures p[r][c] == current[r][c]
        {
          assert InGrid(current, r, c);
        }
      }
    }
  }

  /** The grid that a diff is painted on: the client's, in the size of the diff. */
  function Under(s: ScreenState, d: StateDiff): Grid {
    FitTo(s, d).confirmed
  }

  /** Wherever the server sees no change since `base`, `g` has the current cell. */
  ghost predicate AgreesWhereUnchanged(g: Grid, current: Grid, base: Grid) {
    forall r, c :: InGrid(current, r, c) && !Changed(current, base, r, c) ==> InGrid(g, r, c) && g[r][c] == current[r][c]
  }

  /**
   State sync: diff, sort, split, defer, encode, decode and apply compose, whatever the order and
   multiplicity in which the burst arrives. The server diffs against what was acknowledged and the
   client may have moved on, so the result is the server's grid if and only if the client already
   agrees wherever the server saw no change.
   */
  lemma BurstSynchronisesIff(w: WidthTable, s: ScreenState, d: StateDiff, current: Grid, base: Grid, cap: nat, arrived: seq<seq<byte>>)
    requires DiffFor(w, s, d, current, base) && Deliverable(d, cap)
    requires SameMembers(arrived, Burst(d, cap))
    ensures Receive(w, s, arrived).confirmed == current <==> AgreesWhereUnchanged(Under(s, d), current, base)
    ensures Receive(w, s, arrived).confirmedCursor == d.cursor
  {
    DiffForIsDeliverable(w, s, d, current, base, cap);
    BurstDelivers(w, s, d, cap, arrived);
    PaintingReproducesIff(w, Under(s, d), current, d.runs, d.cols, d.rows);
  }

  /** In particular a client that shows the acknowledged grid ends up with the current one. */
  lemma BurstSynchronises(w: WidthTable, s: ScreenState, d: StateDiff, current: Grid, cap: nat, arrived: seq<seq<byte>>)
    requires DiffFor(w, s, d, current, Under(s, d)) && Deliverable(d, cap)
    requires SameMembers(arrived, Burst(d, cap))
    ensures Receive(w, s, arrived).confirmed == current
  {
    BurstSynchronisesIff(w, s, d, current, Under(s, d), cap, arrived);
  }

  /**
   It can fail: a cell that was changed, shown by the client, and changed back before the
   acknowledgement arrived is in no run, and the client keeps the content in between.
   */
  lemma RevertedCellStays(w: WidthTable, s: ScreenState, d: StateDiff, current: Grid, base: Grid, cap: nat,
                          arrived: seq<seq<byte>>, r: int, c: int)
    requires DiffFor(w, s, d, current, base) && Deliverable(d, cap) && SameMembers(arrived, Burst(d, cap))
    requires InGrid(current, r, c) && InGrid(base, r, c) && base[r][c] == current[r][c]
    requires InGrid(Under(s, d), r, c) && Under(s, d)[r][c] != current[r][c]
    ensures var t := Receive(w, s, arrived); InGrid(t.confirmed, r, c) && t.confirmed[r][c] == Under(s, d)[r][c]
  {
    DiffForIsDeliverable(w, s, d, current, base, cap);
    BurstDelivers(w, s, d, cap, arrived);
    PaintedCell(w, Under(s, d), d.runs, r, c);
  }

  // ---------- the pump's gate ----------

  /** The datagram arm of `run_pump` applies only diffs of a strictly newer epoch. */
  function PumpOne(w: WidthTable, s: ScreenState, p: seq<byte>): ScreenState {
    match DecodeDatagram(p)
    case None => s
    case Some(d) => if d.epoch > s.lastAppliedEpoch then ApplyDiff(w, s, d) else s
  }

  function Pump(w: WidthTable, s: ScreenState, ps: seq<seq<byte>>): (t: ScreenState)
    decreases |ps|
  {
    if ps == [] then s else PumpOne(w, Pump(w, s, ps[..|ps| - 1]), ps[|ps| - 1])
  }

  /** After a diff of epoch `e` has been applied, the gate drops everything else of that epoch. */
  lemma {:induction false} GateDropsTheRest(w: WidthTable, s: ScreenState, ps: seq<seq<byte>>, d: StateDiff)
    requires forall p :: p in ps ==> DecodeDatagram(p).Some? && SameHeader(DecodeDatagram(p).value, d)
    requires d.epoch > s.lastAppliedEpoch && PlausibleSize(d)
    ensures ps != [] ==> Pump(w, s, ps) == ApplyDiff(w, s, DecodeDatagram(ps[0]).value)
    decreases |ps|
  {
    if ps != [] {
      var last := |ps| - 1;
      GateDropsTheRest(w, s, ps[..last], d);
      assert ps[last] in ps && ps[0] in ps;
    }
  }

  lemma PackSortedConservesCover(d: StateDiff, cap: nat, p: Packed, r: int, c: int)
    requires Deliverable(d, cap) && p == PackSorted(d, cap)
    ensures Cover(p.kept, r, c) + Cover(p.deferred, r, c) == Cover(d.runs, r, c)
  {
    var sorted := SortRuns(d, d.runs);
    SortedAreCompact(d, cap);
    PackConservesCover(SizeOf(d), sorted, cap - 1, r, c);
    SumSortRuns(CoverOf(r, c), d, d.runs);
  }

  lemma KeptAndDeferredAreDisjoint(d: StateDiff, cap: nat, r: int, c: int, x: Cell, y: Cell)
    requires Deliverable(d, cap) && NonOverlapping(d.runs)
    requires Has(PackSorted(d, cap).deferred, r, c, x)
    ensures !Has(PackSorted(d, cap).kept, r, c, y)
  {
    var p := PackSorted(d, cap);
    PackSortedConservesCover(d, cap, p, r, c);
    assert Cover(d.runs, r, c) <= 1;
    CoverIffHas(p.deferred, r, c);
    CoverIffHas(p.kept, r, c);
  }

  // ---------- no payload carries all of a split diff ----------

  lemma SortedAreNonempty(d: StateDiff)
    requires forall run :: run in d.runs ==> run.chars != []
    ensures forall run :: run in SortRuns(d, d.runs) ==> run.chars != []
  {
    SortRunsMembers(d, d.runs);
  }

  lemma {:induction false} PartsAreNonempty(size: BodySizer, runs: seq<DiffRun>, bodyCap: nat)
    requires forall run :: run in runs ==> run.chars != []
    ensures forall run :: run in Pack(size, runs, bodyCap).deferred ==> run.chars != []
    ensures forall run :: run in Pack(size, runs, bodyCap).kept ==> run.chars != []
    decreases |runs|
  {
    if runs != [] {
      PartsAreNonempty(size, runs[..|runs| - 1], bodyCap);
      assert runs[|runs| - 1].chars != [];
    }
  }

  /** Runs that do not overlap, none of them empty. */
  ghost predicate Proper(runs: seq<DiffRun>) {
    NonOverlapping(runs) && forall run :: run in runs ==> run.chars != []
  }

  lemma PartsAreProper(d: StateDiff, cap: nat, p: Packed)
    requires Deliverable(d, cap) && Proper(d.runs) && p == PackSorted(d, cap)
    ensures Proper(p.kept) && Proper(p.deferred)
  {
    SortedAreNonempty(d);
    PartsAreNonempty(SizeOf(d), SortRuns(d, d.runs), cap - 1);
    forall r, c
      ensures Cover(p.kept, r, c) <= 1 && Cover(p.deferred, r, c) <= 1
    {
      PartsCoverOnce(d, cap, p, r, c);
    }
  }

  lemma PartsCoverOnce(d: StateDiff, cap: nat, p: Packed, r: int, c: int)
    requires Deliverable(d, cap) && NonOverlapping(d.runs) && p == PackSorted(d, cap)
    ensures Cover(p.kept, r, c) + Cover(p.deferred, r, c) <= 1
  {
    PackSortedConservesCover(d, cap, p, r, c);
    assert Cover(d.runs, r, c) <= 1;
  }

  lemma BurstTail(d: StateDiff, cap: nat, p: Packed, i: nat)
    requires Deliverable(d, cap) && p == PackSorted(d, cap) && 0 < i < |Burst(d, cap)|
    ensures Deliverable(d.(runs := p.deferred), cap) && i - 1 < |Burst(d.(runs := p.deferred), cap)|
    ensures Burst(d, cap)[i] == Burst(d.(runs := p.deferred), cap)[i - 1]
    ensures Weight(p.deferred) < Weight(d.runs)
  {
    EncodeSucceeds(d, cap);
    DeferredIsDeliverable(d, cap);
  }

  lemma FirstCarries(d: StateDiff, cap: nat, p: Packed, r: int, c: int, y: Cell)
    requires Deliverable(d, cap) && p == PackSorted(d, cap)
    ensures Burst(d, cap) != [] && (Carries(Burst(d, cap)[0], r, c, y) <==> Has(p.kept, r, c, y))
  {
    BurstStartsWithEncode(d, cap);
    GuardNeverRejects(d, cap);
  }

  /** Every payload of a burst carries some cell. */
  lemma {:induction false} PayloadCarriesSome(d: StateDiff, cap: nat, i: nat) returns (r: int, c: int, x: Cell)
    requires Deliverable(d, cap) && Proper(d.runs) && d.runs != [] && i < |Burst(d, cap)|
    ensures Carries(Burst(d, cap)[i], r, c, x)
    decreases i
  {
    var p := PackSorted(d, cap);
    PartsAreProper(d, cap, p);
    if i == 0 {
      SomeIsKept(d, cap, p);
      var run := p.kept[0];
      r, c, x := run.row, run.startCol, Cell(run.chars[0], run.style, run.fg, run.bg, false);
      assert RunHas(run, r, c, x);
      FirstCarries(d, cap, p, r, c, x);
    } else {
      BurstTail(d, cap, p, i);
      TailHasRuns(d, cap, p, i);
      r, c, x := PayloadCarriesSome(d.(runs := p.deferred), cap, i - 1);
    }
  }

  lemma TailHasRuns(d: StateDiff, cap: nat, p: Packed, i: nat)
    requires Deliverable(d, cap) && p == PackSorted(d, cap) && 0 < i < |Burst(d, cap)|
    ensures p.deferred != []
  {
    EncodeSucceeds(d, cap);
  }

  /** And no cell is carried by two of them. */
  lemma {:induction false} CarriedOnce(d: StateDiff, cap: nat, i: nat, j: nat, r: int, c: int, x: Cell, y: Cell)
    requires Deliverable(d, cap) && Proper(d.runs) && i < j < |Burst(d, cap)|
    requires Carries(Burst(d, cap)[j], r, c, x)
    ensures !Carries(Burst(d, cap)[i], r, c, y)
    decreases i
  {
    var p := PackSorted(d, cap);
    var rest := d.(runs := p.deferred);
    BurstTail(d, cap, p, j);
    PartsAreProper(d, cap, p);
    if i == 0 {
      LaterIsDeferred(d, cap, p, j, r, c, x);
      FirstCarries(d, cap, p, r, c, y);
      KeptAndDeferredAreDisjoint(d, cap, r, c, x, y);
    } else {
      BurstTail(d, cap, p, i);
      CarriedOnce(rest, cap, i - 1, j - 1, r, c, x, y);
    }
  }

  lemma LaterIsDeferred(d: StateDiff, cap: nat, p: Packed, j: nat, r: int, c: int, x: Cell)
    requires Deliverable(d, cap) && p == PackSorted(d, cap) && 0 < j < |Burst(d, cap)| && Carries(Burst(d, cap)[j], r, c, x)
    ensures Has(p.deferred, r, c, x)
  {
    var rest := d.(runs := p.deferred);
    BurstTail(d, cap, p, j);
    assert Burst(rest, cap)[j - 1] in Burst(rest, cap);
    BurstCarries(rest, cap, r, c, x);
  }

  lemma SplitIff(d: StateDiff, cap: nat)
    requires Deliverable(d, cap)
    ensures |Burst(d, cap)| == 1 <==> BodySize(d) + 1 < cap
  {
    EncodeSucceeds(d, cap);
    DefersNothingIff(d, cap);
    DeferredIsDeliverable(d, cap);
    if Encode(d, cap).deferred != [] { BurstStartsWithEncode(d.(runs := Encode(d, cap).deferred), cap); }
  }

  /** A payload of a split diff leaves out some changed cell. */
  lemma PayloadMisses(d: StateDiff, current: Grid, base: Grid, cap: nat, p: seq<byte>) returns (r: int, c: int)
    requires Describes(d.runs, current, base) && Deliverable(d, cap) && p in Burst(d, cap) && |Burst(d, cap)| > 1
    ensures Changed(current, base, r, c) && forall y :: !Carries(p, r, c, y)
  {
    var i :| 0 <= i < |Burst(d, cap)| && Burst(d, cap)[i] == p;
    var j := if i == 0 then 1 else 0;
    RunsOfSplit(d, cap);
    var x;
    r, c, x := PayloadCarriesSome(d, cap, j);
    forall y
      ensures !Carries(p, r, c, y)
    {
      if Carries(p, r, c, y) {
        if i < j { CarriedOnce(d, cap, i, j, r, c, x, y); } else { CarriedOnce(d, cap, j, i, r, c, y, x); }
      }
    }
    assert Burst(d, cap)[j] in Burst(d, cap);
    BurstCarries(d, cap, r, c, x);
  }

  lemma RunsOfSplit(d: StateDiff, cap: nat)
    requires Deliverable(d, cap) && |Burst(d, cap)| > 1
    ensures d.runs != []
  {
    EncodeSucceeds(d, cap);
    assert SortRuns(d, []) == [];
  }

  lemma OnlyPayloadCompletes(w: WidthTable, s: ScreenState, d: StateDiff, current: Grid, cap: nat, p: seq<byte>)
    requires DiffFor(w, s, d, current, Under(s, d)) && Deliverable(d, cap) && Burst(d, cap) == [p]
    ensures ReceiveOne(w, s, p).confirmed == current
  {
    BurstSynchronises(w, s, d, current, cap, [p]);
    OneReceived(w, s, p);
  }

  lemma PartIsIncomplete(w: WidthTable, s: ScreenState, d: StateDiff, current: Grid, cap: nat, p: seq<byte>, e: StateDiff)
    requires DiffFor(w, s, d, current, Under(s, d)) && Deliverable(d, cap) && p in Burst(d, cap) && |Burst(d, cap)| > 1
    requires DecodeDatagram(p) == Some(e) && NoWide(w, e.runs)
    ensures PaintRuns(w, Under(s, d), e.runs) != current
  {
    var r, c := PayloadMisses(d, current, Under(s, d), cap, p);
    PaintedCell(w, Under(s, d), e.runs, r, c);
    assert !Carries(p, r, c, PaintRuns(w, Under(s, d), e.runs)[r][c]);
  }

  /** One payload, whichever it is, brings a client that shows the acknowledged grid to the current one iff it is the only one. */
  lemma PayloadCompletesIff(w: WidthTable, s: ScreenState, d: StateDiff, current: Grid, cap: nat, p: seq<byte>)
    requires DiffFor(w, s, d, current, Under(s, d)) && Deliverable(d, cap) && p in Burst(d, cap)
    ensures DecodeDatagram(p).Some? && SameHeader(DecodeDatagram(p).value, d)
    ensures ApplyDiff(w, s, DecodeDatagram(p).value).confirmed == current <==> |Burst(d, cap)| == 1
  {
    DiffForIsDeliverable(w, s, d, current, Under(s, d), cap);
    BurstDecodes(w, d, cap, p);
    if |Burst(d, cap)| == 1 {
      assert Burst(d, cap) == [p];
      OnlyPayloadCompletes(w, s, d, current, cap, p);
    } else {
      PartIsIncomplete(w, s, d, current, cap, p, DecodeDatagram(p).value);
    }
  }

  lemma OneReceived(w: WidthTable, c: ScreenState, p: seq<byte>)
    ensures Receive(w, c, [p]) == ReceiveOne(w, c, p)
  {
    assert [p][..0] == [];
    assert Receive(w, c, []) == c;
  }

  /**
   Through the gate only the datagram that comes first counts, whichever of the burst it is. A
   client that shows the acknowledged grid gets the current one if and only if the diff with its
   tag is below the cap, so that it is not split.
   */
  lemma {:induction false} GatedBurstCompletesIff(w: WidthTable, s: ScreenState, d: StateDiff, current: Grid, cap: nat, arrived: seq<seq<byte>>)
    requires DiffFor(w, s, d, current, Under(s, d)) && Deliverable(d, cap) && d.epoch > s.lastAppliedEpoch
    requires arrived != [] && forall p :: p in arrived ==> p in Burst(d, cap)
    ensures Pump(w, s, arrived).confirmed == current <==> BodySize(d) + 1 < cap
  {
    forall p | p in arrived
      ensures DecodeDatagram(p).Some? && SameHeader(DecodeDatagram(p).value, d)
    {
      PayloadCompletesIff(w, s, d, current, cap, p);
    }
    GateDropsTheRest(w, s, arrived, d);
    assert arrived[0] in arrived;
    PayloadCompletesIff(w, s, d, current, cap, arrived[0]);
    SplitIff(d, cap);
  }
}
