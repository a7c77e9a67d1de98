/**
 Which runs go first: `encode_datagram` sorts by distance from the cursor, so what the user is
 looking at is sent before anything else. Stated by rows and columns, not by the sort key.
 */
module Nearest {
  import opened Wire
  import opened Postcard
  import opened StableSort
  import opened Datagram
  import opened Paint
  import opened Packing
  import opened Progress

  function Between(a: nat, b: nat): nat {
    if a < b then b - a else a - b
  }

  /** `a` starts nearer to the cursor than `b`: by rows first, by columns in the same distance of rows. */
  predicate Nearer(cursor: CursorPos, a: DiffRun, b: DiffRun) {
    var rowsA, rowsB := Between(a.row, cursor.row), Between(b.row, cursor.row);
    rowsA < rowsB || (rowsA == rowsB && Between(a.startCol, cursor.col) < Between(b.startCol, cursor.col))
  }

  /** Equally far by rows and by columns. */
  predicate AsNear(cursor: CursorPos, a: DiffRun, b: DiffRun) {
    Between(a.row, cursor.row) == Between(b.row, cursor.row) && Between(a.startCol, cursor.col) == Between(b.startCol, cursor.col)
  }

  /** Cursor and runs start inside the width of the screen. */
  ghost predicate InWidth(d: StateDiff, runs: seq<DiffRun>) {
    d.cursor.col < d.cols && forall run :: run in runs ==> run.startCol < d.cols
  }

  lemma MulStep(a: nat, b: nat, n: nat)
    requires a < b
    ensures a * n + n <= b * n
  {
    assert (a + 1) * n <= b * n;
  }

  /** Inside the width the key is lexicographic. */
  lemma KeyIsLexicographic(d: StateDiff, a: DiffRun, b: DiffRun)
    requires d.cursor.col < d.cols && a.startCol < d.cols && b.startCol < d.cols
    ensures Distance(d, a) < Distance(d, b) <==> Nearer(d.cursor, a, b)
    ensures Distance(d, a) == Distance(d, b) <==> AsNear(d.cursor, a, b)
  {
    var p, q := Between(a.row, d.cursor.row), Between(b.row, d.cursor.row);
    if p < q { MulStep(p, q, d.cols); }
    if q < p { MulStep(q, p, d.cols); }
  }

  /** The runs as near as `run`, in order. */
  function Peers(cursor: CursorPos, run: DiffRun, runs: seq<DiffRun>): seq<DiffRun> {
    Select(q => AsNear(cursor, q, run), runs)
  }

  lemma {:induction false} WithKeyIsPeers(d: StateDiff, run: DiffRun, runs: seq<DiffRun>)
    requires InWidth(d, runs) && run.startCol < d.cols
    ensures WithKey(q => Distance(d, q), runs, Distance(d, run)) == Peers(d.cursor, run, runs)
  {
    if runs != [] {
      assert runs[0] in runs;
      KeyIsLexicographic(d, runs[0], run);
      WithKeyIsPeers(d, run, runs[1..]);
    }
  }

  /**
   The order of the runs: a permutation in which nothing comes before a nearer run, and runs that
   are equally near keep their given order.
   */
  lemma SortIsNearestFirst(d: StateDiff, runs: seq<DiffRun>)
    requires InWidth(d, runs)
    ensures multiset(SortRuns(d, runs)) == multiset(runs)
    ensures forall i, j :: 0 <= i < j < |runs| ==> |SortRuns(d, runs)| == |runs| && !Nearer(d.cursor, SortRuns(d, runs)[j], SortRuns(d, runs)[i])
    ensures forall run :: run in runs ==> Peers(d.cursor, run, SortRuns(d, runs)) == Peers(d.cursor, run, runs)
  {
    var key := (q: DiffRun) => Distance(d, q);
    var sorted := SortRuns(d, runs);
    SortByKeyIsStable(key, runs);
    SortRunsMembers(d, runs);
    forall i, j | 0 <= i < j < |runs|
      ensures !Nearer(d.cursor, sorted[j], sorted[i])
    {
      assert sorted[i] in sorted && sorted[j] in sorted;
      KeyIsLexicographic(d, sorted[j], sorted[i]);
      assert key(sorted[i]) <= key(sorted[j]);
    }
    forall run | run in runs
      ensures Peers(d.cursor, run, sorted) == Peers(d.cursor, run, runs)
    {
      WithKeyIsPeers(d, run, runs);
      WithKeyIsPeers(d, run, sorted);
    }
  }

  // ---------- what the datagram carries ----------

  predicate StartsAtCursor(cursor: CursorPos, run: DiffRun) {
    run.row == cursor.row && run.startCol == cursor.col
  }

  lemma ZeroAtCursor(d: StateDiff, run: DiffRun)
    requires d.cols > 0
    ensures Distance(d, run) == 0 <==> StartsAtCursor(d.cursor, run)
  {
    if run.row != d.cursor.row { MulStep(0, Between(run.row, d.cursor.row), d.cols); }
  }

  lemma {:induction false} LeastComesFirst(key: DiffRun -> nat, s: seq<DiffRun>, i: nat)
    requires i < |s| && key(s[i]) == 0 && forall j :: 0 <= j < i ==> key(s[j]) > 0
    ensures SortByKey(key, s) != [] && SortByKey(key, s)[0] == s[i]
  {
    if i > 0 { LeastComesFirst(key, s[1..], i - 1); }
  }

  lemma {:induction false} PackKeepsPrefix(size: BodySizer, runs: seq<DiffRun>, bodyCap: nat, n: nat)
    requires n <= |runs|
    ensures Pack(size, runs[..n], bodyCap).kept <= Pack(size, runs, bodyCap).kept
    decreases |runs|
  {
    if n == |runs| {
      assert runs[..n] == runs;
    } else {
      PackKeepsPrefix(size, runs[..|runs| - 1], bodyCap, n);
      assert runs[..|runs| - 1][..n] == runs[..n];
    }
  }

  /** The run under the cursor is sent whole if it fits at all, and comes first in the payload. */
  lemma CursorRunIsSent(d: StateDiff, cap: nat, i: nat)
    requires d.cols > 0 && i < |d.runs| && StartsAtCursor(d.cursor, d.runs[i])
    requires forall j :: 0 <= j < i ==> !StartsAtCursor(d.cursor, d.runs[j])
    requires BodySize(d.(runs := [d.runs[i]])) + 1 < cap <= 24591
    ensures Encode(d, cap).Payload?
    ensures var e := DecodeDatagram(Encode(d, cap).bytes);
            e.Some? && e.value == d.(runs := e.value.runs) && e.value.runs != [] && e.value.runs[0] == d.runs[i]
  {
    HeaderFits(d, d.runs[i], cap);
    GuardNeverRejects(d, cap);
    CursorRunIsKept(d, cap, i, PackSorted(d, cap));
  }

  lemma HeaderFits(d: StateDiff, run: DiffRun, cap: nat)
    requires BodySize(d.(runs := [run])) + 1 < cap
    ensures Encode(d, cap).Payload?
  {
    SizeOfOne(d, run);
    OutcomeIsExact(d, cap);
  }

  lemma CursorRunIsKept(d: StateDiff, cap: nat, i: nat, p: Packed)
    requires d.cols > 0 && i < |d.runs| && StartsAtCursor(d.cursor, d.runs[i])
    requires forall j :: 0 <= j < i ==> !StartsAtCursor(d.cursor, d.runs[j])
    requires BodySize(d.(runs := [d.runs[i]])) + 1 < cap && p == PackSorted(d, cap)
    ensures p.kept != [] && p.kept[0] == d.runs[i]
  {
    CursorRunSortsFirst(d, i);
    SizeOfRuns(d, [d.runs[i]]);
    PackKeepsFirst(SizeOf(d), SortRuns(d, d.runs), cap - 1, p);
  }

  lemma CursorRunSortsFirst(d: StateDiff, i: nat)
    requires d.cols > 0 && i < |d.runs| && StartsAtCursor(d.cursor, d.runs[i])
    requires forall j :: 0 <= j < i ==> !StartsAtCursor(d.cursor, d.runs[j])
    ensures SortRuns(d, d.runs) != [] && SortRuns(d, d.runs)[0] == d.runs[i]
  {
    forall j | 0 <= j <= i
      ensures Distance(d, d.runs[j]) == 0 <==> j == i
    {
      ZeroAtCursor(d, d.runs[j]);
    }
    LeastComesFirst(q => Distance(d, q), d.runs, i);
  }

  lemma {:induction false} PackKeepsFirst(size: BodySizer, runs: seq<DiffRun>, bodyCap: nat, p: Packed)
    requires runs != [] && size([runs[0]]) < bodyCap && p == Pack(size, runs, bodyCap)
    ensures p.kept != [] && p.kept[0] == runs[0]
    decreases |runs|
  {
    if |runs| == 1 {
      assert runs[..0] == [] && [] + [runs[0]] == [runs[0]];
    } else {
      PackKeepsFirst(size, runs[..|runs| - 1], bodyCap, Pack(size, runs[..|runs| - 1], bodyCap));
    }
  }

  // ---------- every run has its turn ----------

  predicate SameStart(a: DiffRun, b: DiffRun) {
    a.row == b.row && a.startCol == b.startCol
  }

  lemma {:induction false} KeptStartsWhereRunsDo(size: BodySizer, runs: seq<DiffRun>, bodyCap: nat)
    ensures forall q :: q in Pack(size, runs, bodyCap).kept ==> exists i :: 0 <= i < |runs| && SameStart(q, runs[i])
    decreases |runs|
  {
    if runs != [] {
      var last := |runs| - 1;
      var p := Pack(size, runs[..last], bodyCap);
      KeptStartsWhereRunsDo(size, runs[..last], bodyCap);
      forall q | q in Pack(size, runs, bodyCap).kept
        ensures exists i :: 0 <= i < |runs| && SameStart(q, runs[i])
      {
        if q in p.kept {
          var i :| 0 <= i < last && SameStart(q, runs[..last][i]);
          assert SameStart(q, runs[i]);
        } else {
          assert SameStart(q, runs[last]);
        }
      }
    }
  }

  lemma {:induction false} DeferredStay(size: BodySizer, runs: seq<DiffRun>, bodyCap: nat, n: nat, q: DiffRun)
    requires n <= |runs| && q in Pack(size, runs[..n], bodyCap).deferred
    ensures q in Pack(size, runs, bodyCap).deferred
    decreases |runs|
  {
    if n == |runs| {
      assert runs[..n] == runs;
    } else {
      assert runs[..|runs| - 1][..n] == runs[..n];
      DeferredStay(size, runs[..|runs| - 1], bodyCap, n, q);
    }
  }

  /** What becomes of a run once `near` has been kept: all of it is next, or a prefix is and the rest is deferred. */
  ghost predicate TakesItsTurn(near: seq<DiffRun>, run: DiffRun, fits: bool, kept: seq<DiffRun>, deferred: seq<DiffRun>) {
    if fits then near + [run] <= kept
    else near <= kept && exists n :: 0 <= n < |run.chars| + 1 && RestDeferred(near, run, n, kept, deferred)
  }

  predicate RestDeferred(near: seq<DiffRun>, run: DiffRun, n: nat, kept: seq<DiffRun>, deferred: seq<DiffRun>)
    requires n <= |run.chars|
  {
    RightPart(run, n) in deferred && (n > 0 ==> n < |run.chars| && near + [LeftPart(run, n)] <= kept)
  }

  lemma {:induction false} PackTurn(size: BodySizer, runs: seq<DiffRun>, bodyCap: nat, i: nat, near: seq<DiffRun>)
    requires i < |runs| && near == Pack(size, runs[..i], bodyCap).kept
    ensures var p := Pack(size, runs, bodyCap);
            TakesItsTurn(near, runs[i], size(near + [runs[i]]) < bodyCap, p.kept, p.deferred)
  {
    var run := runs[i];
    var p := Pack(size, runs[..i + 1], bodyCap);
    assert runs[..i + 1][..i] == runs[..i];
    PackKeepsPrefix(size, runs, bodyCap, i);
    PackKeepsPrefix(size, runs, bodyCap, i + 1);
    if !(size(near + [run]) < bodyCap) {
      var n := PrefixChars(size, near, run, bodyCap);
      assert LeftPart(run, |run.chars|) == run;
      var m := if n > 0 && size(near + [LeftPart(run, n)]) < bodyCap then n else 0;
      assert RightPart(run, 0) == run;
      DeferredStay(size, runs, bodyCap, i + 1, RightPart(run, m));
      var q := Pack(size, runs, bodyCap);
      assert RestDeferred(near, run, m, q.kept, q.deferred);
    }
  }

  /**
   Nearest first, for every run of every diff: beside some of the runs in the payload, none of them
   farther from the cursor, it is sent whole if it fits under the cap; otherwise a prefix or nothing
   of it is sent next and the rest is deferred.
   */
  lemma RunsTakeTurns(d: StateDiff, cap: nat, run: DiffRun, x: Encoded, e: StateDiff) returns (near: seq<DiffRun>)
    requires InWidth(d, d.runs) && run in d.runs && cap < 0x1_0000_0000_0000_0000
    requires x == Encode(d, cap) && x.Payload? && DecodeDatagram(x.bytes) == Some(e)
    ensures forall q :: q in near ==> !Nearer(d.cursor, run, q)
    ensures TakesItsTurn(near, run, BodySize(d.(runs := near + [run])) < cap - 1, e.runs, x.deferred)
  {
    EncodedParts(d, cap, x, e);
    near := DiffTurn(d, cap, run, Packed(e.runs, x.deferred));
  }

  lemma DiffTurn(d: StateDiff, cap: nat, run: DiffRun, p: Packed) returns (near: seq<DiffRun>)
    requires InWidth(d, d.runs) && run in d.runs && cap > 0 && p == PackSorted(d, cap)
    ensures forall q :: q in near ==> !Nearer(d.cursor, run, q)
    ensures TakesItsTurn(near, run, BodySize(d.(runs := near + [run])) < cap - 1, p.kept, p.deferred)
  {
    near := SortedTurn(d, SortRuns(d, d.runs), SizeOf(d), cap - 1, run, p);
    SizeOfRuns(d, near + [run]);
  }

  lemma SizeOfRuns(d: StateDiff, runs: seq<DiffRun>)
    ensures SizeOf(d)(runs) == BodySize(d.(runs := runs))
  {}

  lemma EncodedParts(d: StateDiff, cap: nat, x: Encoded, e: StateDiff)
    requires cap < 0x1_0000_0000_0000_0000
    requires x == Encode(d, cap) && x.Payload? && DecodeDatagram(x.bytes) == Some(e)
    ensures cap > 0 && PackSorted(d, cap) == Packed(e.runs, x.deferred)
  {
    PayloadDecodes(d, cap);
  }

  lemma SortedTurn(d: StateDiff, sorted: seq<DiffRun>, size: BodySizer, bodyCap: nat, run: DiffRun, p: Packed)
    returns (near: seq<DiffRun>)
    requires InWidth(d, d.runs) && run in d.runs && sorted == SortRuns(d, d.runs) && p == Pack(size, sorted, bodyCap)
    ensures forall q :: q in near ==> !Nearer(d.cursor, run, q)
    ensures TakesItsTurn(near, run, size(near + [run]) < bodyCap, p.kept, p.deferred)
  {
    SortRunsMembers(d, d.runs);
    SortIsNearestFirst(d, d.runs);
    var i :| 0 <= i < |sorted| && sorted[i] == run;
    near := Pack(size, sorted[..i], bodyCap).kept;
    KeptStartsWhereRunsDo(size, sorted[..i], bodyCap);
    forall q | q in near
      ensures !Nearer(d.cursor, run, q)
    {
      var j :| 0 <= j < i && SameStart(q, sorted[..i][j]);
      assert !Nearer(d.cursor, sorted[i], sorted[j]);
    }
    PackTurn(size, sorted, bodyCap, i, near);
  }
}
