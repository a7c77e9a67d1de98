/**
 Credit flow control of the scrollback channel: the server's sender task and the client's
 drain task, with pages and grants in flight between them.
 */
module Credit {
  import opened Wire

  const INITIAL_CREDIT: nat := 262144
  const CREDIT_REPLENISH_CHUNK: nat := 131072
  const U64_MAX: nat := 0xFFFF_FFFF_FFFF_FFFF

  // ---------- the two tasks ----------

  /** `remaining_credit.saturating_add(n)`. */
  function AddCredit(remaining: nat, n: nat): nat {
    if remaining + n <= U64_MAX then remaining + n else U64_MAX
  }

  /** The counter after a frame of `size` bytes is drained, and the grant sent if the chunk is full. */
  function DrainFrame(drained: nat, size: nat): (r: (nat, Option<nat>))
    ensures r.0 + (if r.1.Some? then r.1.value else 0) == drained + size
    ensures r.0 < CREDIT_REPLENISH_CHUNK
  {
    if drained + size >= CREDIT_REPLENISH_CHUNK then (0, Some(drained + size)) else (drained + size, None)
  }

  class SenderTask {
    var remaining: nat

    constructor ()
      ensures remaining == INITIAL_CREDIT
    {
      remaining := INITIAL_CREDIT;
    }

    method OnCredit(n: nat)
      modifies this
      ensures remaining == AddCredit(old(remaining), n)
    {
      remaining := if remaining + n <= U64_MAX then remaining + n else U64_MAX;
    }

    /** Write an encoded page once the window admits it. */
    method TrySend(size: nat) returns (sent: bool)
      modifies this
      ensures sent <==> size <= old(remaining)
      ensures remaining == if sent then old(remaining) - size else old(remaining)
    {
      sent := !(remaining < size);
      if sent {
        remaining := SaturatingSub(remaining, size);
      }
    }
  }

  class DrainTask {
    var drained: nat

    constructor ()
      ensures drained == 0
    {
      drained := 0;
    }

    method OnFrame(size: nat) returns (grant: Option<nat>)
      modifies this
      ensures (drained, grant) == DrainFrame(old(drained), size)
    {
      drained := drained + size;
      grant := None;
      if drained >= CREDIT_REPLENISH_CHUNK {
        grant := Some(drained);
        drained := 0;
      }
    }
  }

  // ---------- the channel ----------

  /** `waiting` is the encoded page the sender holds; `pages` and `grants` are in flight. */
  datatype Channel =
    Channel(isOpen: bool, remaining: nat, waiting: Option<nat>, pages: seq<nat>, drained: nat, grants: seq<nat>)

  /** `TimeOut` is the end of the 30 seconds that the sender waits for credit, `Close` the end of channel or session. */
  datatype Event = Request(size: nat) | Send | Drain | Grant | TimeOut | Close

  const OPENED: Channel := Channel(true, INITIAL_CREDIT, None, [], 0, [])

  function Step(s: Channel, e: Event): Channel {
    match e
    case Request(size) =>
      if s.isOpen && s.waiting.None? && s.remaining > 0 then s.(waiting := Some(size)) else s
    case Send =>
      if s.waiting.Some? && s.waiting.value <= s.remaining then
        s.(waiting := None, remaining := SaturatingSub(s.remaining, s.waiting.value), pages := s.pages + [s.waiting.value])
      else s
    case Drain =>
      if s.pages == [] then s
      else
        var (drained, grant) := DrainFrame(s.drained, s.pages[0]);
        s.(pages := s.pages[1..], drained := drained, grants := if grant.Some? then s.grants + [grant.value] else s.grants)
    case Grant =>
      if s.grants == [] then s
      else s.(remaining := AddCredit(s.remaining, s.grants[0]), grants := s.grants[1..])
    case TimeOut =>
      if s.waiting.Some? && s.remaining < s.waiting.value then s.(isOpen := false, waiting := None) else s
    case Close => s.(isOpen := false, waiting := None)
  }

  predicate Ends(e: Event) {
    e == TimeOut || e == Close
  }

  function Run(s: Channel, es: seq<Event>): (t: Channel)
    decreases |es|
  {
    if es == [] then s else Step(Run(s, es[..|es| - 1]), es[|es| - 1])
  }

  function Sum(ns: seq<nat>): nat {
    if ns == [] then 0 else ns[0] + Sum(ns[1..])
  }

  lemma {:induction false} SumSnoc(ns: seq<nat>, n: nat)
    ensures Sum(ns + [n]) == Sum(ns) + n
  {
    if ns == [] {
      assert ns + [n] == [n];
    } else {
      SumSnoc(ns[1..], n);
      assert (ns + [n])[1..] == ns[1..] + [n];
    }
  }

  // ---------- conservation ----------

  ghost predicate Conserved(s: Channel) {
    && s.remaining + Sum(s.pages) + s.drained + Sum(s.grants) == INITIAL_CREDIT
    && s.drained < CREDIT_REPLENISH_CHUNK
  }

  lemma StepConserves(s: Channel, e: Event)
    requires Conserved(s)
    ensures Conserved(Step(s, e))
  {
    match e
    case Send =>
      if s.waiting.Some? { SumSnoc(s.pages, s.waiting.value); }
    case Drain =>
      if s.pages != [] { SumSnoc(s.grants, s.drained + s.pages[0]); }
    case _ =>
  }

  /**
   Along every run credit, bytes in flight, drained bytes and grants in flight add up to the window.
   Hence unconsumed bytes never exceed it, and the saturating addition never saturates.
   */
  lemma {:induction false} RunConserves(es: seq<Event>)
    ensures Conserved(Run(OPENED, es))
    ensures Sum(Run(OPENED, es).pages) <= INITIAL_CREDIT
    ensures var s := Run(OPENED, es); s.grants != [] ==> AddCredit(s.remaining, s.grants[0]) == s.remaining + s.grants[0]
    decreases |es|
  {
    if es != [] {
      RunConserves(es[..|es| - 1]);
      StepConserves(Run(OPENED, es[..|es| - 1]), es[|es| - 1]);
    }
  }

  // ---------- no stall ----------

  /** Nothing in flight: only a new request or a send could change anything. */
  predicate Quiescent(s: Channel) {
    s.pages == [] && s.grants == []
  }

  /** The sender waits for credit that nobody will grant any more. */
  predicate Stuck(s: Channel) {
    Quiescent(s) && s.waiting.Some? && s.remaining < s.waiting.value
  }

  const LARGEST_SAFE_PAGE: nat := INITIAL_CREDIT - CREDIT_REPLENISH_CHUNK + 1

  ghost predicate CanStall(size: nat) {
    exists es :: Stuck(Run(OPENED, es)) && Run(OPENED, es).waiting == Some(size)
  }

  lemma QuiescentHasCredit(es: seq<Event>)
    requires Quiescent(Run(OPENED, es))
    ensures Run(OPENED, es).remaining >= LARGEST_SAFE_PAGE
  {
    RunConserves(es);
  }

  lemma Run4(a: Event, b: Event, c: Event, d: Event)
    ensures Run(OPENED, [a, b, c, d]) == Step(Step(Step(Step(OPENED, a), b), c), d)
  {
    assert [a, b, c, d][..3] == [a, b, c] && [a, b, c][..2] == [a, b] && [a, b][..1] == [a] && [a][..0] == [];
    assert Run(OPENED, [a]) == Step(OPENED, a);
    assert Run(OPENED, [a, b]) == Step(Run(OPENED, [a]), b);
    assert Run(OPENED, [a, b, c]) == Step(Run(OPENED, [a, b]), c);
  }

  /** Such a wait ends only with the timeout or a close, either of which ends the channel: the page is never sent. */
  lemma {:induction false} OnlyClosingEndsStall(s: Channel, es: seq<Event>)
    requires Stuck(s)
    ensures Run(s, es) == if exists i :: 0 <= i < |es| && Ends(es[i]) then s.(isOpen := false, waiting := None) else s
    decreases |es|
  {
    if es != [] {
      var last := |es| - 1;
      OnlyClosingEndsStall(s, es[..last]);
      assert (exists i :: 0 <= i < |es| && Ends(es[i])) <==>
             (exists i :: 0 <= i < last && Ends(es[..last][i])) || Ends(es[last]);
    }
  }

  /** A page of `size` bytes can come to such a wait if and only if it is larger than 131073 bytes. */
  lemma StallsIffPageTooLarge(size: nat)
    ensures LARGEST_SAFE_PAGE == 131073
    ensures CanStall(size) <==> size > LARGEST_SAFE_PAGE
  {
    if size > LARGEST_SAFE_PAGE {
      var es := [Request(CREDIT_REPLENISH_CHUNK - 1), Send, Drain, Request(size)];
      Run4(es[0], es[1], es[2], es[3]);
      assert Stuck(Run(OPENED, es));
    } else {
      forall es | Stuck(Run(OPENED, es)) && Run(OPENED, es).waiting == Some(size)
        ensures false
      {
        QuiescentHasCredit(es);
      }
    }
  }

  /** Draining and granting end: a run of such steps that each change something is this short. */
  function Pending(s: Channel): nat {
    2 * |s.pages| + |s.grants|
  }

  lemma InternalStepsDecrease(s: Channel, e: Event)
    requires (e == Drain && s.pages != []) || (e == Grant && s.grants != [])
    ensures Pending(Step(s, e)) < Pending(s)
    ensures Step(s, e).waiting == s.waiting
  {}

  /** Let everything in flight arrive. */
  function Settle(s: Channel): (t: Channel)
    decreases Pending(s)
  {
    if s.pages != [] then InternalStepsDecrease(s, Drain); Settle(Step(s, Drain))
    else if s.grants != [] then InternalStepsDecrease(s, Grant); Settle(Step(s, Grant))
    else s
  }

  lemma {:induction false} SettleIsQuiescent(s: Channel)
    requires Conserved(s)
    ensures Quiescent(Settle(s)) && Conserved(Settle(s)) && Settle(s).waiting == s.waiting
    decreases Pending(s)
  {
    if s.pages != [] {
      StepConserves(s, Drain);
      InternalStepsDecrease(s, Drain);
      SettleIsQuiescent(Step(s, Drain));
    } else if s.grants != [] {
      StepConserves(s, Grant);
      InternalStepsDecrease(s, Grant);
      SettleIsQuiescent(Step(s, Grant));
    }
  }

  /** From every reachable state, once everything in flight has arrived, a safe page is sent. */
  lemma SafePageIsEventuallySent(es: seq<Event>, size: nat)
    requires Run(OPENED, es).waiting == Some(size) && size <= LARGEST_SAFE_PAGE
    ensures Step(Settle(Run(OPENED, es)), Send).pages == [size]
  {
    RunConserves(es);
    SettleIsQuiescent(Run(OPENED, es));
  }
}
