/**
 Runs left over from an earlier tick: `build_state_diff` puts them in front of the fresh runs, and
 `encode_datagram` then sorts all of them by their distance from the cursor.
 */
module Leftovers {
  import opened Wire
  import opened Widths
  import opened Postcard
  import opened StableSort
  import opened Datagram
  import opened Paint
  import opened Packing
  import opened Progress
  import opened Nearest
  import opened Screen
  import opened DiffScan
  import opened Sync

  function Covers(r: int, c: int): DiffRun -> bool {
    run => RunCovers(run, r, c)
  }

  /** The runs that write the cell, in order. */
  function Covering(runs: seq<DiffRun>, r: int, c: int): seq<DiffRun> {
    Select(Covers(r, c), runs)
  }

  /** What a run that covers column `c` writes there. */
  function Content(run: DiffRun, c: int): Cell
    requires run.startCol <= c < run.startCol + |run.chars|
  {
    Cell(run.chars[c - run.startCol], run.style, run.fg, run.bg, false)
  }

  lemma {:induction false} CoverIsCount(runs: seq<DiffRun>, r: int, c: int)
    ensures Cover(runs, r, c) == |Covering(runs, r, c)|
  {
    if runs != [] { CoverIsCount(runs[1..], r, c); }
  }

  lemma CoveringMembers(runs: seq<DiffRun>, r: int, c: int)
    ensures forall run :: run in Covering(runs, r, c) <==> run in runs && RunCovers(run, r, c)
  {
    SelectMembers(Covers(r, c), runs);
  }

  ghost predicate HoldsLast(x: Cell, have: Cell, covering: seq<DiffRun>, r: int, c: int) {
    if covering == [] then x == have
    else
      var last := covering[|covering| - 1];
      RunCovers(last, r, c) && x == Content(last, c)
  }

  lemma CoveringOfAppend(runs: seq<DiffRun>, run: DiffRun, r: int, c: int)
    ensures Covering(runs + [run], r, c) == Covering(runs, r, c) + if RunCovers(run, r, c) then [run] else []
  {
    SelectConcat(Covers(r, c), runs, [run]);
    assert [run][1..] == [];
  }

  lemma RunDecides(w: WidthTable, g: Grid, run: DiffRun, r: int, c: int)
    requires NoWide(w, [run]) && InGrid(g, r, c)
    ensures PaintRun(w, g, run)[r][c] == if RunCovers(run, r, c) then Content(run, c) else g[r][c]
  {
    assert run in [run];
  }

  /** The last run that writes a cell decides it. */
  lemma {:induction false} LastDecides(w: WidthTable, g: Grid, runs: seq<DiffRun>, r: int, c: int)
    requires NoWide(w, runs) && InGrid(g, r, c)
    ensures HoldsLast(PaintRuns(w, g, runs)[r][c], g[r][c], Covering(runs, r, c), r, c)
    decreases |runs|
  {
    if runs != [] {
      var last := |runs| - 1;
      var run := runs[last];
      LastDecides(w, g, runs[..last], r, c);
      assert runs == runs[..last] + [run];
      CoveringOfAppend(runs[..last], run, r, c);
      RunDecides(w, PaintRuns(w, g, runs[..last]), run, r, c);
    }
  }

  lemma SortCovering(d: StateDiff, runs: seq<DiffRun>, r: int, c: int)
    ensures Covering(SortRuns(d, runs), r, c) == SortRuns(d, Covering(runs, r, c))
  {
    SortSelect(run => Distance(d, run), Covers(r, c), runs);
  }

  lemma SortOne(d: StateDiff, q: DiffRun)
    ensures SortRuns(d, [q]) == [q]
  {
    var key := (run: DiffRun) => Distance(d, run);
    assert [q][1..] == [];
    assert SortByKey(key, [q]) == Insert(key, q, SortByKey(key, []));
  }

  lemma SortTwo(d: StateDiff, q: DiffRun, f: DiffRun)
    ensures SortRuns(d, [q, f]) == if Distance(d, q) <= Distance(d, f) then [q, f] else [f, q]
  {
    var key := (run: DiffRun) => Distance(d, run);
    assert [q, f][1..] == [f];
    SortOne(d, f);
    assert SortByKey(key, [q, f]) == Insert(key, q, [f]);
    assert [f][1..] == [] && Insert(key, q, []) == [q];
  }

  /** The leftover run shows the current content there, or a fresh run at least as far from the cursor covers it. */
  ghost predicate Harmless(d: StateDiff, q: DiffRun, news: seq<DiffRun>, current: Grid, r: int, c: int)
    requires RunCovers(q, r, c) && InGrid(current, r, c)
  {
    Content(q, c) == current[r][c] || exists f :: f in news && RunCovers(f, r, c) && Distance(d, q) <= Distance(d, f)
  }

  /**
   Every leftover that writes the cell is harmless there; and if none does and the server saw no
   change, the grid painted on has the current content already.
   */
  ghost predicate CellIsRight(d: StateDiff, left: seq<DiffRun>, news: seq<DiffRun>, g: Grid, current: Grid, base: Grid, r: int, c: int)
    requires InGrid(current, r, c) && InGrid(g, r, c)
  {
    && (forall q :: q in left && RunCovers(q, r, c) ==> Harmless(d, q, news, current, r, c))
    && ((forall q :: q in left ==> !RunCovers(q, r, c)) && !Changed(current, base, r, c) ==> g[r][c] == current[r][c])
  }

  /** The runs of a tick with leftovers, what each half is, and the grid that they are painted on. */
  ghost predicate Tick(w: WidthTable, d: StateDiff, left: seq<DiffRun>, news: seq<DiffRun>, g: Grid, current: Grid, base: Grid) {
    && d.runs == left + news && NoWide(w, d.runs) && NonOverlapping(left) && Describes(news, current, base)
    && Rectangular(g, d.cols, d.rows) && Rectangular(current, d.cols, d.rows)
  }

  /** A fresh run holds the current content of a changed cell. */
  lemma FreshIsCurrent(news: seq<DiffRun>, current: Grid, base: Grid, r: int, c: int, f: DiffRun)
    requires Describes(news, current, base) && f in news && RunCovers(f, r, c)
    ensures Changed(current, base, r, c) && Content(f, c) == current[r][c]
  {
    assert RunHas(f, r, c, Content(f, c));
    assert Has(news, r, c, Content(f, c));
  }

  lemma UncoveredIsUnchanged(news: seq<DiffRun>, current: Grid, base: Grid, r: int, c: int)
    requires Describes(news, current, base) && InGrid(current, r, c) && Covering(news, r, c) == []
    ensures !Changed(current, base, r, c)
  {
    CoverIsCount(news, r, c);
    CoverIffHas(news, r, c);
    assert !Has(news, r, c, current[r][c]);
  }

  lemma NoneCovers(runs: seq<DiffRun>, r: int, c: int)
    requires Covering(runs, r, c) == []
    ensures forall q :: q in runs ==> !RunCovers(q, r, c)
  {
    CoveringMembers(runs, r, c);
    assert forall q :: q !in Covering(runs, r, c);
  }

  /** A cell that no run covers, or only a leftover. */
  lemma CellWithoutNews(w: WidthTable, d: StateDiff, left: seq<DiffRun>, news: seq<DiffRun>, g: Grid, current: Grid, base: Grid,
                        r: int, c: int, a: seq<DiffRun>, x: Cell)
    requires Tick(w, d, left, news, g, current, base) && InGrid(current, r, c)
    requires a == Covering(left, r, c) && Covering(news, r, c) == [] && |a| <= 1
    requires HoldsLast(x, g[r][c], a, r, c)
    ensures x == current[r][c] <==> CellIsRight(d, left, news, g, current, base, r, c)
  {
    CoveringMembers(left, r, c);
    NoneCovers(news, r, c);
    UncoveredIsUnchanged(news, current, base, r, c);
    if a == [] { NoneCovers(left, r, c); } else { assert a[0] in a; }
  }

  /** A cell that a fresh run covers: its leftover must not come after it. */
  lemma CellWithNews(w: WidthTable, d: StateDiff, left: seq<DiffRun>, news: seq<DiffRun>, g: Grid, current: Grid, base: Grid,
                     r: int, c: int, q: DiffRun, f: DiffRun, x: Cell)
    requires Tick(w, d, left, news, g, current, base) && InGrid(current, r, c)
    requires Covering(left, r, c) == [q] && Covering(news, r, c) == [f]
    requires HoldsLast(x, g[r][c], if Distance(d, q) <= Distance(d, f) then [q, f] else [f, q], r, c)
    ensures x == current[r][c] <==> CellIsRight(d, left, news, g, current, base, r, c)
  {
    CoveringMembers(left, r, c);
    CoveringMembers(news, r, c);
    assert q in [q] && f in [f];
    FreshIsCurrent(news, current, base, r, c, f);
  }

  lemma CellOfNews(w: WidthTable, d: StateDiff, left: seq<DiffRun>, news: seq<DiffRun>, g: Grid, current: Grid, base: Grid,
                   r: int, c: int, f: DiffRun, x: Cell)
    requires Tick(w, d, left, news, g, current, base) && InGrid(current, r, c)
    requires Covering(left, r, c) == [] && Covering(news, r, c) == [f] && HoldsLast(x, g[r][c], [f], r, c)
    ensures x == current[r][c] && CellIsRight(d, left, news, g, current, base, r, c)
  {
    CoveringMembers(news, r, c);
    NoneCovers(left, r, c);
    assert f in [f];
    FreshIsCurrent(news, current, base, r, c, f);
  }

  lemma SortedCell(w: WidthTable, d: StateDiff, left: seq<DiffRun>, news: seq<DiffRun>, g: Grid, current: Grid, base: Grid,
                   r: int, c: int, a: seq<DiffRun>, b: seq<DiffRun>, x: Cell)
    requires Tick(w, d, left, news, g, current, base) && InGrid(current, r, c)
    requires a == Covering(left, r, c) && b == Covering(news, r, c) && |a| <= 1 && |b| <= 1
    requires HoldsLast(x, g[r][c], SortRuns(d, a + b), r, c)
    ensures x == current[r][c] <==> CellIsRight(d, left, news, g, current, base, r, c)
  {
    if b == [] {
      assert a + b == a;
      if a != [] { SortOne(d, a[0]); assert a == [a[0]]; }
      CellWithoutNews(w, d, left, news, g, current, base, r, c, a, x);
    } else if a == [] {
      assert b == [b[0]] && a + b == b;
      SortOne(d, b[0]);
      CellOfNews(w, d, left, news, g, current, base, r, c, b[0], x);
    } else {
      assert a == [a[0]] && b == [b[0]] && a + b == [a[0], b[0]];
      SortTwo(d, a[0], b[0]);
      CellWithNews(w, d, left, news, g, current, base, r, c, a[0], b[0], x);
    }
  }

  lemma LeftoverCell(w: WidthTable, d: StateDiff, left: seq<DiffRun>, news: seq<DiffRun>, g: Grid, current: Grid, base: Grid, r: int, c: int)
    requires Tick(w, d, left, news, g, current, base) && InGrid(current, r, c)
    requires NoWide(w, SortRuns(d, d.runs))
    ensures PaintRuns(w, g, SortRuns(d, d.runs))[r][c] == current[r][c] <==> CellIsRight(d, left, news, g, current, base, r, c)
  {
    LastDecides(w, g, SortRuns(d, d.runs), r, c);
    SortCovering(d, d.runs, r, c);
    SelectConcat(Covers(r, c), left, news);
    CoverIsCount(left, r, c);
    CoverIsCount(news, r, c);
    assert Cover(left, r, c) <= 1 && Cover(news, r, c) <= 1;
    SortedCell(w, d, left, news, g, current, base, r, c, Covering(left, r, c), Covering(news, r, c),
               PaintRuns(w, g, SortRuns(d, d.runs))[r][c]);
  }

  ghost predicate AllRight(d: StateDiff, left: seq<DiffRun>, news: seq<DiffRun>, g: Grid, current: Grid, base: Grid) {
    forall r, c :: InGrid(current, r, c) && InGrid(g, r, c) ==> CellIsRight(d, left, news, g, current, base, r, c)
  }

  /**
   A tick with leftovers, painted on any grid in the order of the sort, gives the current grid if
   and only if at every cell that a leftover writes it writes the current content or a fresh run at
   least as far from the cursor covers it, and the grid has the current content wherever no
   leftover writes and the server saw no change.
   */
  lemma LeftoversIff(w: WidthTable, d: StateDiff, left: seq<DiffRun>, news: seq<DiffRun>, g: Grid, current: Grid, base: Grid)
    requires Tick(w, d, left, news, g, current, base)
    ensures PaintRuns(w, g, SortRuns(d, d.runs)) == current <==> AllRight(d, left, news, g, current, base)
  {
    SortRunsMembers(d, d.runs);
    var p := PaintRuns(w, g, SortRuns(d, d.runs));
    forall r, c | InGrid(current, r, c) && InGrid(g, r, c)
      ensures p[r][c] == current[r][c] <==> CellIsRight(d, left, news, g, current, base, r, c)
    {
      LeftoverCell(w, d, left, news, g, current, base, r, c);
    }
    if AllRight(d, left, news, g, current, base) {
      forall r | 0 <= r < |p|
        ensures p[r] == current[r]
      {
        forall c | 0 <= c < |p[r]|
          ensures p[r][c] == current[r][c]
        {
          assert InGrid(current, r, c) && InGrid(g, r, c);
        }
      }
    }
  }

  /** It can fail on an overlap: a leftover farther from the cursor than the fresh run is painted last. */
  lemma StaleOverlapWins(w: WidthTable, d: StateDiff, left: seq<DiffRun>, news: seq<DiffRun>, g: Grid, current: Grid, base: Grid,
                         q: DiffRun, f: DiffRun, r: int, c: int)
    requires Tick(w, d, left, news, g, current, base) && q in left && f in news
    requires RunCovers(q, r, c) && RunCovers(f, r, c) && Distance(d, f) < Distance(d, q)
    requires InGrid(current, r, c) && Content(q, c) != current[r][c]
    ensures PaintRuns(w, g, SortRuns(d, d.runs)) != current
  {
    LeftoversIff(w, d, left, news, g, current, base);
    CoveringMembers(news, r, c);
    CoverIsCount(news, r, c);
    assert Cover(news, r, c) <= 1;
    assert !Harmless(d, q, news, current, r, c);
    assert !CellIsRight(d, left, news, g, current, base, r, c);
  }

  /** And without any overlap: a leftover of a cell that has gone back to the acknowledged content is painted again. */
  lemma RevertedLeftoverWins(w: WidthTable, d: StateDiff, left: seq<DiffRun>, news: seq<DiffRun>, g: Grid, current: Grid, base: Grid,
                             q: DiffRun, r: int, c: int)
    requires Tick(w, d, left, news, g, current, base) && q in left && RunCovers(q, r, c)
    requires InGrid(current, r, c) && !Changed(current, base, r, c) && Content(q, c) != current[r][c]
    ensures PaintRuns(w, g, SortRuns(d, d.runs)) != current
  {
    LeftoversIff(w, d, left, news, g, current, base);
    forall f | f in news
      ensures !RunCovers(f, r, c)
    {
      if RunCovers(f, r, c) { FreshIsCurrent(news, current, base, r, c, f); }
    }
    assert !Harmless(d, q, news, current, r, c);
    assert !CellIsRight(d, left, news, g, current, base, r, c);
  }

  /**
   In rows and columns: inside the width of the screen a leftover does no harm at a cell exactly if it
   writes the current content or some fresh run over the cell does not start nearer to the cursor.
   */
  lemma HarmlessIffNotFarther(d: StateDiff, q: DiffRun, news: seq<DiffRun>, current: Grid, r: int, c: int)
    requires InGrid(current, r, c) && RunCovers(q, r, c) && InWidth(d, [q] + news)
    ensures Harmless(d, q, news, current, r, c) <==>
            Content(q, c) == current[r][c] || exists f :: f in news && RunCovers(f, r, c) && !Nearer(d.cursor, f, q)
  {
    assert q in [q] + news;
    forall f | f in news
      ensures Distance(d, q) <= Distance(d, f) <==> !Nearer(d.cursor, f, q)
    {
      assert f in [q] + news;
      KeyIsLexicographic(d, f, q);
    }
  }

  // ---------- through the encoder and the gate ----------

  lemma WholeDiffIsSorted(d: StateDiff, cap: nat)
    requires BodySize(d) + 1 < cap <= 24591
    ensures Encode(d, cap).Payload? && DecodeDatagram(Encode(d, cap).bytes) == Some(d.(runs := SortRuns(d, d.runs)))
  {
    VarintSizeMonotone(0, |d.runs|);
    OutcomeIsExact(d, cap);
    SortedDefersNothingIff(d, cap, PackSorted(d, cap));
    KeepsAllIfNothingDeferred(SizeOf(d), SortRuns(d, d.runs), cap - 1);
    GuardNeverRejects(d, cap);
  }

  lemma PumpPaints(w: WidthTable, s: ScreenState, d: StateDiff, e: StateDiff, p: seq<byte>)
    requires DecodeDatagram(p) == Some(e) && SameHeader(e, d) && PlausibleSize(d) && d.epoch > s.lastAppliedEpoch
    ensures PumpOne(w, s, p).confirmed == PaintRuns(w, Under(s, d), e.runs)
  {}

  /**
   The same for the datagram of a tick that fits, on a client that may have moved on from the
   acknowledged grid: its screen becomes the current one under exactly that condition.
   */
  lemma LeftoverTickIff(w: WidthTable, s: ScreenState, d: StateDiff, left: seq<DiffRun>, news: seq<DiffRun>, current: Grid, base: Grid, cap: nat)
    requires Tick(w, d, left, news, Under(s, d), current, base) && BodySize(d) + 1 < cap <= 24591
    requires PlausibleSize(d) && d.epoch > s.lastAppliedEpoch
    ensures Encode(d, cap).Payload?
    ensures PumpOne(w, s, Encode(d, cap).bytes).confirmed == current <==> AllRight(d, left, news, Under(s, d), current, base)
  {
    var e := d.(runs := SortRuns(d, d.runs));
    WholeDiffIsSorted(d, cap);
    PumpPaints(w, s, d, e, Encode(d, cap).bytes);
    LeftoversIff(w, d, left, news, Under(s, d), current, base);
  }
}
