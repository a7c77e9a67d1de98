/**
 Keystroke filters of the client (crates/nosh-client/src/main.rs): the accumulator that takes the
 two paging-key sequences out of standard input, and the `~` escape machine behind it.
 */
module Stdin {
  import opened Wire

  function Concat(chunks: seq<seq<byte>>): (s: seq<byte>) {
    if chunks == [] then [] else chunks[0] + Concat(chunks[1..])
  }

  // ---------- paging keys ----------

  const PAGE_UP: seq<byte> := [0x1B, 0x5B, 0x35, 0x3B, 0x32, 0x7E]
  const PAGE_DOWN: seq<byte> := [0x1B, 0x5B, 0x36, 0x3B, 0x32, 0x7E]

  predicate StartsWith(s: seq<byte>, key: seq<byte>) {
    key <= s
  }

  /** A non-empty proper prefix of one of the sequences. */
  predicate IsPagingPrefix(s: seq<byte>) {
    0 < |s| < 6 && (s <= PAGE_UP || s <= PAGE_DOWN)
  }

  datatype Scan = Scan(forward: seq<byte>, held: seq<byte>, up: bool, down: bool)

  /** The outcome of scanning one stretch and then, with what it held, the next. */
  function Then(x: Scan, y: Scan): Scan {
    Scan(x.forward + y.forward, y.held, x.up || y.up, x.down || y.down)
  }

  /** How many bytes the scanner takes off the front; none when they may become a sequence. */
  function Taken(s: seq<byte>): (n: nat)
    requires s != []
    ensures n <= |s|
  {
    if StartsWith(s, PAGE_UP) || StartsWith(s, PAGE_DOWN) then 6
    else if IsPagingPrefix(s) then 0
    else 1
  }

  /** What taking them yields. */
  function Yield(s: seq<byte>): (r: Scan)
    requires s != []
    ensures r.held == []
  {
    if StartsWith(s, PAGE_UP) then Scan([], [], true, false)
    else if StartsWith(s, PAGE_DOWN) then Scan([], [], false, true)
    else Scan([s[0]], [], false, false)
  }

  function ScanAll(s: seq<byte>): (r: Scan)
    decreases |s|
  {
    if s == [] || Taken(s) == 0 then Scan([], s, false, false)
    else Then(Yield(s), ScanAll(s[Taken(s)..]))
  }

  lemma ThenAssociates(x: Scan, y: Scan, z: Scan)
    ensures Then(Then(x, y), z) == Then(x, Then(y, z))
  {
    ConcatAssociates(x.forward, y.forward, z.forward);
  }

  class CsiAccumulator {
    var pending: seq<byte>

    constructor ()
      ensures pending == []
    {
      pending := [];
    }

    method Process(input: seq<byte>) returns (forward: seq<byte>, up: bool, down: bool)
      modifies this
      ensures Scan(forward, pending, up, down) == ScanAll(old(pending) + input)
    {
      pending := pending + input;
      var i;
      forward, i, up, down := ScanPending(pending);
      pending := pending[i..];
    }
  }

  /** The loop of the accumulator, up to the index of the first byte to hold back. */
  method ScanPending(pending: seq<byte>) returns (forward: seq<byte>, i: nat, up: bool, down: bool)
    ensures i <= |pending| && Scan(forward, pending[i..], up, down) == ScanAll(pending)
  {
    forward, up, down, i := [], false, false, 0;
    assert pending[0..] == pending;
    while i < |pending|
      invariant i <= |pending|
      invariant ScanAll(pending) == Then(Scan(forward, [], up, down), ScanAll(pending[i..]))
    {
      var remaining := pending[i..];
      ghost var before := Scan(forward, [], up, down);
      if Taken(remaining) == 0 {
        Stop(before, remaining);
        return;
      }
      ghost var next, after := Then(before, Yield(remaining)), i + Taken(remaining);
      assert ScanAll(pending) == Then(next, ScanAll(pending[after..])) by {
        Advance(before, pending, i);
      }
      if StartsWith(remaining, PAGE_UP) {
        up := true;
        i := i + 6;
      } else if StartsWith(remaining, PAGE_DOWN) {
        down := true;
        i := i + 6;
      } else {
        forward := forward + [pending[i]];
        i := i + 1;
      }
      assert i == after && Scan(forward, [], up, down) == next;
    }
  }

  lemma Stop(before: Scan, s: seq<byte>)
    requires s == [] || Taken(s) == 0
    ensures Then(before, ScanAll(s)) == before.(held := s)
  {
    assert before.forward + [] == before.forward;
  }

  lemma Advance(before: Scan, s: seq<byte>, i: nat)
    requires i < |s| && Taken(s[i..]) != 0
    ensures Then(before, ScanAll(s[i..])) == Then(Then(before, Yield(s[i..])), ScanAll(s[i + Taken(s[i..])..]))
  {
    var n := Taken(s[i..]);
    ScanStep(s, i);
    ThenAssociates(before, Yield(s[i..]), ScanAll(s[i + n..]));
  }

  /** Scanning in two parts is scanning the held bytes with the second part. */
  lemma {:induction false} ScanSplit(a: seq<byte>, b: seq<byte>)
    ensures ScanAll(a + b) == Then(ScanAll(a), ScanAll(ScanAll(a).held + b))
    decreases |a|
  {
    if a == [] {
      assert a + b == b;
    } else if Taken(a) != 0 {
      TakenStays(a, b);
      var rest := a[Taken(a)..];
      assert (a + b)[Taken(a)..] == rest + b;
      ScanSplit(rest, b);
      ThenAssociates(Yield(a), ScanAll(rest), ScanAll(ScanAll(a).held + b));
    }
  }

  lemma TakenStays(a: seq<byte>, b: seq<byte>)
    requires a != [] && Taken(a) != 0
    ensures Taken(a + b) == Taken(a) && Yield(a + b) == Yield(a)
  {
    if |a| >= 6 {
      assert a[..6] == (a + b)[..6];
    } else {
      assert a <= a + b;
    }
  }

  /** One accumulator fed chunk after chunk, starting from `held`. */
  function ScanChunks(held: seq<byte>, chunks: seq<seq<byte>>): (r: Scan)
    decreases |chunks|
  {
    if chunks == [] then Scan([], held, false, false)
    else
      var x := ScanAll(held + chunks[0]);
      Then(x, ScanChunks(x.held, chunks[1..]))
  }

  /** After a call at most five bytes are held, and they are the start of a sequence. */
  lemma {:induction false} HeldIsProperPrefix(s: seq<byte>)
    ensures ScanAll(s).held == [] || IsPagingPrefix(ScanAll(s).held)
    decreases |s|
  {
    if s != [] && Taken(s) != 0 {
      HeldIsProperPrefix(s[Taken(s)..]);
    }
  }

  lemma HeldIsHeld(s: seq<byte>)
    ensures ScanAll(ScanAll(s).held) == Scan([], ScanAll(s).held, false, false)
  {
    HeldIsProperPrefix(s);
  }

  lemma ConcatStep(held: seq<byte>, chunks: seq<seq<byte>>)
    requires chunks != []
    ensures held + Concat(chunks) == held + chunks[0] + Concat(chunks[1..])
  {}

  lemma {:induction false} ChunksFromHeld(held: seq<byte>, chunks: seq<seq<byte>>)
    requires ScanAll(held) == Scan([], held, false, false)
    ensures ScanChunks(held, chunks) == ScanAll(held + Concat(chunks))
    decreases |chunks|
  {
    if chunks == [] {
      assert held + Concat(chunks) == held;
    } else {
      var first, rest := held + chunks[0], Concat(chunks[1..]);
      HeldIsHeld(first);
      ChunksFromHeld(ScanAll(first).held, chunks[1..]);
      ScanSplit(first, rest);
      ConcatStep(held, chunks);
    }
  }

  // ---------- which bytes come through ----------

  predicate KeyAt(s: seq<byte>, key: seq<byte>, j: int) {
    0 <= j && j + 6 <= |s| && s[j..j + 6] == key
  }

  predicate Occurs(s: seq<byte>, j: int) {
    KeyAt(s, PAGE_UP, j) || KeyAt(s, PAGE_DOWN, j)
  }

  ghost predicate Covered(s: seq<byte>, i: int) {
    exists j :: j <= i < j + 6 && Occurs(s, j)
  }

  /** The bytes from `i` on that lie in no occurrence of a paging sequence. */
  ghost function Uncovered(s: seq<byte>, i: nat): (r: seq<byte>)
    requires i <= |s|
    decreases |s| - i
  {
    if i == |s| then [] else (if Covered(s, i) then [] else [s[i]]) + Uncovered(s, i + 1)
  }

  lemma OccurrencesDoNotOverlap(s: seq<byte>, j: int, k: int)
    requires Occurs(s, j) && Occurs(s, k) && j < k
    ensures j + 6 <= k
  {
    assert s[k] == s[k..k + 6][0] == 0x1B;
    var key := s[j..j + 6];
    assert s[j + 1] == key[1] && s[j + 2] == key[2] && s[j + 3] == key[3] && s[j + 4] == key[4] && s[j + 5] == key[5];
  }

  /** No occurrence that starts before `i` reaches past it. */
  ghost predicate Boundary(s: seq<byte>, i: int) {
    forall j :: j < i && Occurs(s, j) ==> j + 6 <= i
  }

  lemma SkipOccurrence(s: seq<byte>, i: nat)
    requires Occurs(s, i)
    ensures Uncovered(s, i) == Uncovered(s, i + 6) && Boundary(s, i + 6)
  {
    assert forall k :: i <= k < i + 6 ==> Covered(s, k);
    assert Uncovered(s, i) == Uncovered(s, i + 1) == Uncovered(s, i + 2) == Uncovered(s, i + 3);
    assert Uncovered(s, i + 3) == Uncovered(s, i + 4) == Uncovered(s, i + 5) == Uncovered(s, i + 6);
    forall j | j < i + 6 && Occurs(s, j)
      ensures j + 6 <= i + 6
    {
      if i < j { OccurrencesDoNotOverlap(s, i, j); }
    }
  }

  lemma {:induction false} TailIsUncovered(s: seq<byte>, i: nat)
    requires i <= |s| && forall k :: i <= k < |s| ==> !Covered(s, k)
    ensures Uncovered(s, i) == s[i..]
    decreases |s| - i
  {
    if i < |s| {
      TailIsUncovered(s, i + 1);
      assert s[i..] == [s[i]] + s[i + 1..];
    }
  }

  ghost predicate SeenFrom(s: seq<byte>, key: seq<byte>, i: int) {
    exists j :: i <= j && KeyAt(s, key, j)
  }

  lemma OccursIffTakesSix(s: seq<byte>, i: nat)
    requires i < |s|
    ensures StartsWith(s[i..], PAGE_UP) == KeyAt(s, PAGE_UP, i)
    ensures StartsWith(s[i..], PAGE_DOWN) == KeyAt(s, PAGE_DOWN, i)
  {
    if i + 6 <= |s| {
      assert s[i..][..6] == s[i..i + 6];
    }
  }

  lemma UncoveredStep(s: seq<byte>, i: nat)
    requires i < |s| && Boundary(s, i) && Taken(s[i..]) != 0
    ensures var n := Taken(s[i..]);
            Uncovered(s, i) == Yield(s[i..]).forward + Uncovered(s, i + n) && Boundary(s, i + n)
  {
    OccursIffTakesSix(s, i);
    if Occurs(s, i) {
      SkipOccurrence(s, i);
    } else {
      assert !Covered(s, i);
    }
  }

  lemma ScanStep(s: seq<byte>, i: nat)
    requires i < |s| && Taken(s[i..]) != 0
    ensures ScanAll(s[i..]) == Then(Yield(s[i..]), ScanAll(s[i + Taken(s[i..])..]))
  {
    var n := Taken(s[i..]);
    assert s[i..][n..] == s[i + n..];
  }

  /** The bytes kept, from any point that is not inside an occurrence. */
  lemma {:induction false} ScanKeeps(s: seq<byte>, i: nat)
    requires i <= |s| && Boundary(s, i)
    ensures ScanAll(s[i..]).forward + ScanAll(s[i..]).held == Uncovered(s, i)
    decreases |s| - i
  {
    if i < |s| {
      OccursIffTakesSix(s, i);
      var n := Taken(s[i..]);
      if n == 0 {
        TailIsUncovered(s, i);
      } else {
        UncoveredStep(s, i);
        ScanKeeps(s, i + n);
        ScanStep(s, i);
        var rest := ScanAll(s[i + n..]);
        ConcatAssociates(Yield(s[i..]).forward, rest.forward, rest.held);
      }
    }
  }

  /** The flags, from any such point. */
  lemma {:induction false} ScanFlags(s: seq<byte>, i: nat)
    requires i <= |s|
    ensures ScanAll(s[i..]).up <==> SeenFrom(s, PAGE_UP, i)
    ensures ScanAll(s[i..]).down <==> SeenFrom(s, PAGE_DOWN, i)
    decreases |s| - i
  {
    if i < |s| {
      OccursIffTakesSix(s, i);
      var n := Taken(s[i..]);
      if n != 0 {
        if n == 6 {
          NoneInside(s, i);
        }
        ScanFlags(s, i + n);
        ScanStep(s, i);
        SeenStep(s, PAGE_UP, i, n);
        SeenStep(s, PAGE_DOWN, i, n);
      }
    }
  }

  lemma NoneInside(s: seq<byte>, i: nat)
    requires Occurs(s, i)
    ensures forall j :: i < j < i + 6 ==> !Occurs(s, j)
  {
    forall j | i < j && Occurs(s, j)
      ensures j >= i + 6
    {
      OccurrencesDoNotOverlap(s, i, j);
    }
  }

  lemma SeenStep(s: seq<byte>, key: seq<byte>, i: nat, n: nat)
    requires key == PAGE_UP || key == PAGE_DOWN
    requires 0 < n && forall j :: i < j < i + n ==> !Occurs(s, j)
    ensures SeenFrom(s, key, i) <==> KeyAt(s, key, i) || SeenFrom(s, key, i + n)
  {
    if SeenFrom(s, key, i) {
      var j :| i <= j && KeyAt(s, key, j);
      assert Occurs(s, j);
    }
  }

  /**
   However standard input is cut into reads: the bytes forwarded, followed by those still held, are
   the input without the occurrences of the two sequences, and the flags tell which occurred.
   */
  lemma PagingFilterIsChunkIndependent(chunks: seq<seq<byte>>)
    ensures var s := Concat(chunks);
            var r := ScanChunks([], chunks);
            && r.forward + r.held == Uncovered(s, 0) && |r.held| <= 5
            && (r.up <==> SeenFrom(s, PAGE_UP, 0)) && (r.down <==> SeenFrom(s, PAGE_DOWN, 0))
  {
    var s := Concat(chunks);
    ChunksFromHeld([], chunks);
    assert [] + s == s && s[0..] == s;
    HeldIsProperPrefix(s);
    ScanKeeps(s, 0);
    ScanFlags(s, 0);
  }

  // ---------- the escape machine ----------

  const TILDE: byte := 0x7E
  const DOT: byte := 0x2E

  predicate IsNewline(b: byte) {
    b == 0x0A || b == 0x0D
  }

  datatype EscapeState = LineStart | SeenTilde | MidLine

  function AfterByte(b: byte): EscapeState {
    if IsNewline(b) then LineStart else MidLine
  }

  datatype Processed = Processed(state: EscapeState, forward: seq<byte>, quit: bool)

  function ProcessByte(state: EscapeState, b: byte): Processed {
    match state
    case LineStart => if b == TILDE then Processed(SeenTilde, [], false) else Processed(AfterByte(b), [b], false)
    case SeenTilde =>
      if b == DOT then Processed(SeenTilde, [], true)
      else if b == TILDE then Processed(MidLine, [TILDE], false)
      else Processed(AfterByte(b), [TILDE, b], false)
    case MidLine => Processed(AfterByte(b), [b], false)
  }

  /** `quit` ends the processing; what follows is ignored. */
  function Process(state: EscapeState, s: seq<byte>): (r: Processed)
    decreases |s|
  {
    if s == [] then Processed(state, [], false)
    else
      var p := ProcessByte(state, s[0]);
      if p.quit then p
      else
        var r := Process(p.state, s[1..]);
        r.(forward := p.forward + r.forward)
  }

  class EscapeMachine {
    var state: EscapeState

    constructor ()
      ensures state == LineStart
    {
      state := LineStart;
    }

    method ProcessInput(input: seq<byte>) returns (out: seq<byte>, quit: bool)
      modifies this
      ensures Processed(state, out, quit) == Process(old(state), input)
    {
      out, quit := [], false;
      ghost var whole := Process(state, input);
      for i := 0 to |input|
        invariant !quit
        invariant var rest := Process(state, input[i..]); whole == rest.(forward := out + rest.forward)
      {
        var b := input[i];
        ghost var p, sent := ProcessByte(state, b), out;
        ProcessNext(state, input, i, out);
        match state {
          case LineStart =>
            if b == TILDE {
              state := SeenTilde;
            } else {
              out := out + [b];
              state := AfterByte(b);
            }
          case SeenTilde =>
            if b == DOT {
              quit := true;
              return;
            } else if b == TILDE {
              out := out + [TILDE];
              state := MidLine;
            } else {
              out := out + [TILDE] + [b];
              state := AfterByte(b);
            }
          case MidLine =>
            out := out + [b];
            state := AfterByte(b);
        }
        assert state == p.state && out == sent + p.forward;
      }
      assert input[|input|..] == [];
    }
  }

  lemma ProcessNext(state: EscapeState, input: seq<byte>, i: nat, out: seq<byte>)
    requires i < |input|
    ensures var p := ProcessByte(state, input[i]);
            var here, rest := Process(state, input[i..]), Process(p.state, input[i + 1..]);
            if p.quit then here == p
            else here.(forward := out + here.forward) == rest.(forward := (out + p.forward) + rest.forward)
  {
    assert input[i..][1..] == input[i + 1..];
  }

  lemma {:induction false} ProcessSplit(state: EscapeState, a: seq<byte>, b: seq<byte>)
    ensures var x := Process(state, a);
            var y := Process(x.state, b);
            Process(state, a + b) == if x.quit then x else y.(forward := x.forward + y.forward)
    decreases |a|
  {
    if a == [] {
      assert a + b == b;
    } else {
      assert (a + b)[1..] == a[1..] + b;
      ProcessSplit(ProcessByte(state, a[0]).state, a[1..], b);
    }
  }

  /** The pump: the output of a read is sent unless that read quits, which discards it. */
  function Sent(state: EscapeState, chunks: seq<seq<byte>>): (r: (seq<byte>, bool))
    decreases |chunks|
  {
    if chunks == [] then ([], false)
    else
      var x := Process(state, chunks[0]);
      if x.quit then ([], true)
      else
        var (out, quit) := Sent(x.state, chunks[1..]);
        (x.forward + out, quit)
  }

  /**
   Whether the client quits does not depend on how input is cut into reads. What it sends does not
   either, unless it quits: then it is a prefix of the machine's output.
   */
  lemma {:induction false} QuitIsChunkIndependent(state: EscapeState, chunks: seq<seq<byte>>)
    ensures var r := Process(state, Concat(chunks));
            && Sent(state, chunks).1 == r.quit
            && Sent(state, chunks).0 <= r.forward
            && (!r.quit ==> Sent(state, chunks).0 == r.forward)
    decreases |chunks|
  {
    if chunks != [] {
      var x := Process(state, chunks[0]);
      ProcessSplit(state, chunks[0], Concat(chunks[1..]));
      QuitIsChunkIndependent(x.state, chunks[1..]);
    }
  }

  /** However the input is cut into reads, what is sent is the machine's output. */
  ghost predicate SentIsFixed(state: EscapeState, s: seq<byte>) {
    forall chunks :: Concat(chunks) == s ==> Sent(state, chunks).0 == Process(state, s).forward
  }

  lemma OneRead(state: EscapeState, s: seq<byte>)
    ensures Concat([s]) == s
    ensures Sent(state, [s]) == if Process(state, s).quit then ([], true) else (Process(state, s).forward, false)
  {
    assert [s][1..] == [] && s + [] == s;
    var x := Process(state, s);
    assert Sent(x.state, [s][1..]) == ([], false);
    assert x.forward + [] == x.forward;
  }

  /**
   The read that quits is discarded whole, so what is sent is independent of the reads if and only
   if the client does not quit or the machine has forwarded nothing by then.
   */
  lemma SentIsFixedIff(state: EscapeState, s: seq<byte>)
    ensures SentIsFixed(state, s) <==> !Process(state, s).quit || Process(state, s).forward == []
  {
    OneRead(state, s);
    if !Process(state, s).quit || Process(state, s).forward == [] {
      forall chunks | Concat(chunks) == s
        ensures Sent(state, chunks).0 == Process(state, s).forward
      {
        QuitIsChunkIndependent(state, chunks);
      }
    }
  }

  // ---------- what the machine accepts and forwards ----------

  predicate AtLineStart(s: seq<byte>, i: int)
    requires 0 <= i <= |s|
  {
    i == 0 || IsNewline(s[i - 1])
  }

  /** `~.` at a line start. */
  predicate QuitAt(s: seq<byte>, i: int) {
    0 <= i && i + 1 < |s| && AtLineStart(s, i) && s[i] == TILDE && s[i + 1] == DOT
  }

  function StateAt(s: seq<byte>, i: nat): EscapeState
    requires i <= |s|
  {
    if AtLineStart(s, i) then LineStart
    else if s[i - 1] == TILDE && AtLineStart(s, i - 1) then SeenTilde
    else MidLine
  }

  lemma {:induction false} PrefixState(s: seq<byte>, n: nat)
    requires n <= |s|
    ensures var r := Process(LineStart, s[..n]);
            && (r.quit <==> exists i :: i + 1 < n && QuitAt(s, i))
            && (!r.quit ==> r.state == StateAt(s, n))
    decreases n
  {
    if n > 0 {
      var m := n - 1;
      PrefixState(s, m);
      assert s[..n] == s[..m] + [s[m]];
      ProcessSplit(LineStart, s[..m], [s[m]]);
      var x := Process(LineStart, s[..m]);
      assert [s[m]][1..] == [];
      assert Process(x.state, [s[m]]).state == ProcessByte(x.state, s[m]).state;
      assert Process(x.state, [s[m]]).quit == ProcessByte(x.state, s[m]).quit;
      if !x.quit {
        assert ProcessByte(x.state, s[m]).quit <==> QuitAt(s, m - 1);
        assert (exists i :: i + 1 < n && QuitAt(s, i)) <==> QuitAt(s, m - 1);
      }
    }
  }

  /** The client quits exactly when `~.` occurs at a line start of what was typed. */
  lemma QuitsIffTildeDot(s: seq<byte>)
    ensures Process(LineStart, s).quit <==> exists i :: QuitAt(s, i)
  {
    PrefixState(s, |s|);
    assert s[..|s|] == s;
    if i :| QuitAt(s, i) {
      assert i + 1 < |s|;
    }
  }

  /** The text meant: at a line start a doubled tilde stands for one, and a final tilde is still pending. */
  function Meant(s: seq<byte>, atStart: bool): (r: seq<byte>)
    decreases |s|
  {
    if s == [] then []
    else if atStart && s[0] == TILDE then
      if |s| == 1 then []
      else if s[1] == TILDE then [TILDE] + Meant(s[2..], false)
      else [TILDE, s[1]] + Meant(s[2..], IsNewline(s[1]))
    else [s[0]] + Meant(s[1..], IsNewline(s[0]))
  }

  lemma {:induction false} ForwardsWhatIsMeant(s: seq<byte>, atStart: bool)
    requires !Process(if atStart then LineStart else MidLine, s).quit
    ensures Process(if atStart then LineStart else MidLine, s).forward == Meant(s, atStart)
    decreases |s|
  {
    if s != [] {
      if atStart && s[0] == TILDE {
        assert Process(LineStart, s).forward == [] + Process(SeenTilde, s[1..]).forward;
        if |s| > 1 {
          assert s[1..][1..] == s[2..];
          ForwardsWhatIsMeant(s[2..], s[1] != TILDE && IsNewline(s[1]));
        }
      } else {
        ForwardsWhatIsMeant(s[1..], IsNewline(s[0]));
      }
    }
  }

  /** Double every tilde at a line start. */
  function EscapeText(s: seq<byte>, atStart: bool): (r: seq<byte>)
    decreases |s|
  {
    if s == [] then []
    else (if atStart && s[0] == TILDE then [TILDE, TILDE] else [s[0]]) + EscapeText(s[1..], IsNewline(s[0]))
  }

  lemma HeadPasses(b: byte, atStart: bool)
    ensures var head := if atStart && b == TILDE then [TILDE, TILDE] else [b];
            Process(if atStart then LineStart else MidLine, head) == Processed(AfterByte(b), [b], false)
  {
    assert [TILDE, TILDE][1..] == [TILDE];
    assert Process(SeenTilde, [TILDE]) == Processed(MidLine, [TILDE], false);
  }

  /** Escaped text comes through unchanged, never quits, and leaves nothing pending. */
  lemma {:induction false} EscapeIsRightInverse(s: seq<byte>, atStart: bool)
    ensures var r := Process(if atStart then LineStart else MidLine, EscapeText(s, atStart));
            r.forward == s && !r.quit && r.state != SeenTilde
    decreases |s|
  {
    if s != [] {
      var head := if atStart && s[0] == TILDE then [TILDE, TILDE] else [s[0]];
      HeadPasses(s[0], atStart);
      ProcessSplit(if atStart then LineStart else MidLine, head, EscapeText(s[1..], IsNewline(s[0])));
      EscapeIsRightInverse(s[1..], IsNewline(s[0]));
    }
  }
}
