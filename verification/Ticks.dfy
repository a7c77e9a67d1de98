/**
 Ticks, loss and epoch acknowledgements: the server diffs against the snapshot of the last
 acknowledged epoch, datagrams and acknowledgements are lost, repeated and reordered at will, and
 the client applies what passes its gate. The terminal keeps its size, and bursts run to their end.
 */
module Ticks {
  import opened Wire
  import opened Widths
  import opened Datagram
  import opened Paint
  import opened Packing
  import opened Progress
  import opened Screen
  import opened DiffScan
  import opened Sync

  /** `base` is the acknowledged snapshot and `sent` the grid of the last tick. */
  datatype Server = Server(grid: Grid, epoch: nat, ackedEpoch: nat, base: Grid, sent: Grid, snapshots: map<nat, Grid>)

  /** Whatever is in `wire` or `acks` may arrive at any time, any number of times, or never. */
  datatype System = System(server: Server, client: ScreenState, wire: set<seq<byte>>, acks: set<nat>)

  /**
   `Evict` stands for the bounded snapshot store, which drops old entries but not the newest.
   `LoseAck` takes an acknowledgement off the way for good.
   */
  datatype Event =
    | Output(grid: Grid)
    | Tick(diff: StateDiff)
    | Deliver(payload: seq<byte>)
    | TakeAck(epoch: nat)
    | LoseAck(epoch: nat)
    | Evict(epoch: nat)

  function Opened(cols: u16, rows: u16, grid: Grid): System {
    System(Server(grid, 0, 0, [], [], map[]), NewScreen(cols, rows), {}, {})
  }

  function NextEpoch(v: Server): nat {
    if v.grid != v.sent then v.epoch + 1 else v.epoch
  }

  /** The server has nothing to send: the grid is the acknowledged one and no tick is unacknowledged. */
  predicate CaughtUp(v: Server) {
    v.grid == v.base && v.ackedEpoch >= v.epoch
  }

  ghost predicate IsTick(s: System, d: StateDiff, cap: nat) {
    && !CaughtUp(s.server) && d.epoch == NextEpoch(s.server)
    && d.cols == s.client.cols && d.rows == s.client.rows
    && Describes(d.runs, s.server.grid, s.server.base) && Deliverable(d, cap)
  }

  ghost predicate IsScreen(w: WidthTable, s: System, g: Grid) {
    Rectangular(g, s.client.cols, s.client.rows) && NoWideGlyphs(w, g)
  }

  ghost function SendTick(s: System, d: StateDiff, cap: nat): System
    requires Deliverable(d, cap)
  {
    var v := s.server;
    s.(server := v.(epoch := d.epoch, sent := v.grid, snapshots := v.snapshots[d.epoch := v.grid]),
       wire := s.wire + set p | p in Burst(d, cap))
  }

  /** The acknowledgement of an epoch that is not newer is ignored; one whose snapshot is gone keeps the base. */
  function Acked(v: Server, a: nat): Server {
    if a <= v.ackedEpoch then v
    else if a in v.snapshots then
      v.(ackedEpoch := a, base := v.snapshots[a], snapshots := map e | e in v.snapshots && e > a :: v.snapshots[e])
    else v.(ackedEpoch := a)
  }

  ghost function Step(w: WidthTable, cap: nat, s: System, e: Event): System {
    match e
    case Output(g) => if IsScreen(w, s, g) then s.(server := s.server.(grid := g)) else s
    case Tick(d) => if IsTick(s, d, cap) then SendTick(s, d, cap) else s
    case Deliver(p) =>
      if p !in s.wire then s
      else
        var c := PumpOne(w, s.client, p);
        s.(client := c, acks := if c == s.client then s.acks else s.acks + {c.lastAppliedEpoch})
    case TakeAck(a) => if a in s.acks then s.(server := Acked(s.server, a)) else s
    case LoseAck(a) => s.(acks := s.acks - {a})
    case Evict(e) => if e == s.server.epoch then s else s.(server := s.server.(snapshots := s.server.snapshots - {e}))
  }

  ghost function Run(w: WidthTable, cap: nat, s: System, es: seq<Event>): (t: System)
    decreases |es|
  {
    if es == [] then s else Step(w, cap, Run(w, cap, s, es[..|es| - 1]), es[|es| - 1])
  }

  // ---------- epochs stay in order ----------

  ghost predicate NotNewer(p: seq<byte>, epoch: nat, cols: nat, rows: nat) {
    DecodeDatagram(p).Some? ==>
      var d := DecodeDatagram(p).value; d.epoch <= epoch && d.cols == cols && d.rows == rows
  }

  /** What is acknowledged has been applied, and what has been applied or is under way has been sent. */
  ghost predicate InOrder(w: WidthTable, s: System) {
    && Valid(s.client) && 0 < s.client.cols <= MAX_TERMINAL_COLS && 0 < s.client.rows <= MAX_TERMINAL_ROWS
    && IsScreen(w, s, s.server.grid)
    && (forall a :: a in s.acks ==> a <= s.client.lastAppliedEpoch)
    && s.server.ackedEpoch <= s.client.lastAppliedEpoch <= s.server.epoch
    && forall p :: p in s.wire ==> NotNewer(p, s.server.epoch, s.client.cols, s.client.rows)
  }

  lemma TickIsNarrow(w: WidthTable, s: System, d: StateDiff, cap: nat)
    requires InOrder(w, s) && IsTick(s, d, cap)
    ensures NoWide(w, d.runs)
  {
    forall run | run in d.runs
      ensures forall ch :: ch in run.chars ==> !IsWide(w, ch)
    {
      forall k | 0 <= k < |run.chars|
        ensures !IsWide(w, run.chars[k])
      {
        RunCellsAreChanged(d, s.server.grid, s.server.base, run, k);
      }
    }
  }

  lemma SendTickKeepsOrder(w: WidthTable, cap: nat, s: System, d: StateDiff)
    requires InOrder(w, s) && IsTick(s, d, cap)
    ensures InOrder(w, SendTick(s, d, cap))
  {
    TickIsNarrow(w, s, d, cap);
    forall p | p in Burst(d, cap)
      ensures NotNewer(p, d.epoch, d.cols, d.rows)
    {
      BurstDecodes(w, d, cap, p);
    }
  }

  lemma StepKeepsOrder(w: WidthTable, cap: nat, s: System, e: Event)
    requires InOrder(w, s)
    ensures InOrder(w, Step(w, cap, s, e))
  {
    match e
    case Tick(d) => if IsTick(s, d, cap) { SendTickKeepsOrder(w, cap, s, d); }
    case Deliver(p) => DeliverKeepsOrder(w, cap, s, p);
    case _ =>
  }

  lemma DeliverKeepsOrder(w: WidthTable, cap: nat, s: System, p: seq<byte>)
    requires InOrder(w, s)
    ensures InOrder(w, Step(w, cap, s, Deliver(p)))
  {}

  lemma {:induction false} RunKeepsOrder(w: WidthTable, cap: nat, s: System, es: seq<Event>)
    requires InOrder(w, s)
    ensures InOrder(w, Run(w, cap, s, es))
    decreases |es|
  {
    if es != [] {
      RunKeepsOrder(w, cap, s, es[..|es| - 1]);
      StepKeepsOrder(w, cap, Run(w, cap, s, es[..|es| - 1]), es[|es| - 1]);
    }
  }

  lemma OpenedInOrder(w: WidthTable, cols: u16, rows: u16, grid: Grid)
    requires 0 < cols <= MAX_TERMINAL_COLS && 0 < rows <= MAX_TERMINAL_ROWS
    requires Rectangular(grid, cols, rows) && NoWideGlyphs(w, grid)
    ensures InOrder(w, Opened(cols, rows, grid))
  {}

  // ---------- a server that is caught up sends nothing ----------

  predicate IsOutput(e: Event) {
    e.Output?
  }

  lemma CaughtUpStep(w: WidthTable, cap: nat, s: System, e: Event)
    requires InOrder(w, s) && CaughtUp(s.server) && !IsOutput(e)
    ensures var t := Step(w, cap, s, e);
            && CaughtUp(t.server) && t.client == s.client && t.server == s.server.(snapshots := t.server.snapshots)
  {
    if e.Deliver? && e.payload in s.wire {
      assert NotNewer(e.payload, s.server.epoch, s.client.cols, s.client.rows);
    }
  }

  /**
   A client that shows something else while the server is caught up is never corrected: until the
   terminal changes, no tick, datagram or acknowledgement alters what it shows.
   */
  lemma {:induction false} CaughtUpIsFinal(w: WidthTable, cap: nat, s: System, es: seq<Event>)
    requires InOrder(w, s) && CaughtUp(s.server) && forall i :: 0 <= i < |es| ==> !IsOutput(es[i])
    ensures var t := Run(w, cap, s, es);
            && CaughtUp(t.server) && t.client == s.client && t.server == s.server.(snapshots := t.server.snapshots)
    decreases |es|
  {
    if es != [] {
      var last := |es| - 1;
      CaughtUpIsFinal(w, cap, s, es[..last]);
      RunKeepsOrder(w, cap, s, es[..last]);
      CaughtUpStep(w, cap, Run(w, cap, s, es[..last]), es[last]);
    }
  }

  // ---------- one tick ----------

  /** Everything sent has been acknowledged, and the client shows it. */
  ghost predicate Settled(w: WidthTable, s: System) {
    && InOrder(w, s) && s.server.ackedEpoch == s.server.epoch
    && s.client.confirmed == s.server.base == s.server.sent
  }

  /** A tick, one of its datagrams, and the acknowledgement. */
  ghost function OneTick(w: WidthTable, cap: nat, s: System, d: StateDiff, p: seq<byte>): System {
    Step(w, cap, Step(w, cap, Step(w, cap, s, Tick(d)), Deliver(p)), TakeAck(d.epoch))
  }

  lemma SettledPayload(w: WidthTable, cap: nat, s: System, d: StateDiff, p: seq<byte>)
    requires Settled(w, s) && IsTick(s, d, cap) && s.server.grid != s.server.sent && p in Burst(d, cap)
    ensures PumpOne(w, s.client, p).confirmed == s.server.grid <==> BodySize(d) + 1 < cap
    ensures PumpOne(w, s.client, p).lastAppliedEpoch == d.epoch > s.client.lastAppliedEpoch
  {
    TickIsNarrow(w, s, d, cap);
    assert Under(s.client, d) == s.client.confirmed;
    assert DiffFor(w, s.client, d, s.server.grid, Under(s.client, d));
    PayloadCompletesIff(w, s.client, d, s.server.grid, cap, p);
    SplitIff(d, cap);
  }

  /**
   One tick from a settled state, of which any one datagram arrives first and is acknowledged, so
   that the server is caught up. The client shows the new grid if and only if the diff fitted into
   one datagram; otherwise it never does, whatever else arrives, until the terminal changes again.
   */
  lemma {:induction false} SplitTickIsNeverRepaired(w: WidthTable, cap: nat, s: System, d: StateDiff, p: seq<byte>, es: seq<Event>)
    requires Settled(w, s) && IsTick(s, d, cap) && s.server.grid != s.server.sent && p in Burst(d, cap)
    requires forall i :: 0 <= i < |es| ==> !IsOutput(es[i])
    ensures var t := Run(w, cap, OneTick(w, cap, s, d, p), es);
            && CaughtUp(t.server) && t.server.grid == s.server.grid
            && (t.client.confirmed == s.server.grid <==> BodySize(d) + 1 < cap)
  {
    SettledPayload(w, cap, s, d, p);
    var a := Step(w, cap, s, Tick(d));
    var b := Step(w, cap, a, Deliver(p));
    var c := Step(w, cap, b, TakeAck(d.epoch));
    StepKeepsOrder(w, cap, s, Tick(d));
    StepKeepsOrder(w, cap, a, Deliver(p));
    StepKeepsOrder(w, cap, b, TakeAck(d.epoch));
    assert b.client == PumpOne(w, s.client, p) && d.epoch in b.acks;
    assert CaughtUp(c.server);
    CaughtUpIsFinal(w, cap, c, es);
  }

  // ---------- a lost acknowledgement ----------

  /** The last tick has been applied, and its acknowledgement neither taken nor under way. */
  ghost predicate AckLost(s: System) {
    && s.server.grid == s.server.sent
    && s.client.lastAppliedEpoch == s.server.epoch > s.server.ackedEpoch && s.server.epoch !in s.acks
  }

  /** Losing the one acknowledgement of a tick that has been applied leads there. */
  lemma LosingAckLeadsThere(w: WidthTable, cap: nat, s: System)
    requires InOrder(w, s) && s.server.grid == s.server.sent && s.client.lastAppliedEpoch == s.server.epoch > s.server.ackedEpoch
    ensures AckLost(Step(w, cap, s, LoseAck(s.server.epoch)))
  {}

  lemma AckLostStep(w: WidthTable, cap: nat, s: System, e: Event)
    requires InOrder(w, s) && AckLost(s) && !IsOutput(e)
    ensures var t := Step(w, cap, s, e);
            AckLost(t) && t.client == s.client && t.server.epoch == s.server.epoch && t.server.grid == s.server.grid
  {
    if e.Deliver? && e.payload in s.wire {
      assert NotNewer(e.payload, s.server.epoch, s.client.cols, s.client.rows);
    }
  }

  /**
   The client acknowledges only what passes its gate, so a lost acknowledgement is never repeated:
   until the terminal changes the server is never caught up, and every further tick has the same
   epoch and is dropped by the client.
   */
  lemma {:induction false} LostAckIsNeverRepeated(w: WidthTable, cap: nat, s: System, es: seq<Event>)
    requires InOrder(w, s) && AckLost(s) && forall i :: 0 <= i < |es| ==> !IsOutput(es[i])
    ensures var t := Run(w, cap, s, es);
            && AckLost(t) && !CaughtUp(t.server) && NextEpoch(t.server) == s.server.epoch && t.client == s.client
            && t.server.epoch == s.server.epoch && t.server.grid == s.server.grid
    decreases |es|
  {
    if es != [] {
      var last := |es| - 1;
      LostAckIsNeverRepeated(w, cap, s, es[..last]);
      RunKeepsOrder(w, cap, s, es[..last]);
      AckLostStep(w, cap, Run(w, cap, s, es[..last]), es[last]);
    }
  }

  // ---------- lock step ----------

  /** The client has every cell that the server takes for acknowledged. */
  ghost predicate HasBase(g: Grid, base: Grid) {
    forall r, c :: InGrid(base, r, c) && InGrid(g, r, c) ==> g[r][c] == base[r][c]
  }

  ghost predicate Repaints(w: WidthTable, c: ScreenState, p: seq<byte>, epoch: nat, g: Grid) {
    DecodeDatagram(p).Some? && DecodeDatagram(p).value.epoch == epoch ==>
      PumpOne(w, c, p).confirmed == g && PumpOne(w, c, p).lastAppliedEpoch == epoch
  }

  /** Nothing is unacknowledged. After the first tick the acknowledged grid is what the client shows. */
  ghost predicate Idle(s: System) {
    var v := s.server;
    && v.ackedEpoch == v.epoch == s.client.lastAppliedEpoch && HasBase(s.client.confirmed, v.base)
    && if v.epoch == 0 then v.sent == [] else s.client.confirmed == v.base == v.sent
  }

  /** One tick is unacknowledged: the client shows its grid, or any datagram of it will make it do so. */
  ghost predicate Awaiting(w: WidthTable, s: System) {
    var v := s.server;
    && v.epoch == v.ackedEpoch + 1 && v.grid == v.sent && v.epoch in v.snapshots && v.snapshots[v.epoch] == v.sent
    && (s.client.lastAppliedEpoch == v.epoch ==> s.client.confirmed == v.sent)
    && (s.client.lastAppliedEpoch == v.ackedEpoch ==>
          HasBase(s.client.confirmed, v.base) && forall p :: p in s.wire ==> Repaints(w, s.client, p, v.epoch, v.sent))
  }

  ghost predicate LockStep(w: WidthTable, s: System) {
    InOrder(w, s) && (Idle(s) || Awaiting(w, s))
  }

  /** The terminal changes only while nothing is unacknowledged, and every tick fits into one datagram. */
  ghost predicate Calm(cap: nat, s: System, e: Event) {
    match e
    case Output(_) => s.server.ackedEpoch == s.server.epoch
    case Tick(d) => BodySize(d) + 1 < cap
    case _ => true
  }

  ghost predicate CalmRun(w: WidthTable, cap: nat, s: System, es: seq<Event>)
    decreases |es|
  {
    es != [] ==> CalmRun(w, cap, s, es[..|es| - 1]) && Calm(cap, Run(w, cap, s, es[..|es| - 1]), es[|es| - 1])
  }

  /** The datagram of a tick that fits repaints a client that has the base. */
  lemma TickRepaints(w: WidthTable, cap: nat, s: System, d: StateDiff, p: seq<byte>)
    requires InOrder(w, s) && IsTick(s, d, cap) && BodySize(d) + 1 < cap && p in Burst(d, cap)
    requires HasBase(s.client.confirmed, s.server.base) && d.epoch > s.client.lastAppliedEpoch
    ensures Repaints(w, s.client, p, d.epoch, s.server.grid)
  {
    var g := s.server.grid;
    EncodeSucceeds(d, cap);
    DefersNothingIff(d, cap);
    assert Burst(d, cap) == [p];
    assert DiffFor(w, s.client, d, g, s.server.base) && Under(s.client, d) == s.client.confirmed;
    BurstSynchronisesIff(w, s.client, d, g, s.server.base, cap, [p]);
    OneReceived(w, s.client, p);
    TickIsNarrow(w, s, d, cap);
    BurstDecodes(w, d, cap, p);
  }

  lemma TickKeepsLockStep(w: WidthTable, cap: nat, s: System, d: StateDiff)
    requires LockStep(w, s) && IsTick(s, d, cap) && BodySize(d) + 1 < cap
    ensures Awaiting(w, SendTick(s, d, cap))
  {
    var t := SendTick(s, d, cap);
    if s.client.lastAppliedEpoch == s.server.ackedEpoch {
      forall p | p in t.wire
        ensures Repaints(w, s.client, p, d.epoch, s.server.grid)
      {
        if p in Burst(d, cap) {
          TickRepaints(w, cap, s, d, p);
        } else {
          assert NotNewer(p, s.server.epoch, s.client.cols, s.client.rows);
        }
      }
    }
  }

  lemma DeliverKeepsLockStep(w: WidthTable, cap: nat, s: System, p: seq<byte>)
    requires LockStep(w, s) && p in s.wire
    ensures var t := Step(w, cap, s, Deliver(p)); Idle(t) || Awaiting(w, t)
  {
    assert NotNewer(p, s.server.epoch, s.client.cols, s.client.rows);
  }

  lemma StepKeepsLockStep(w: WidthTable, cap: nat, s: System, e: Event)
    requires LockStep(w, s) && Calm(cap, s, e)
    ensures LockStep(w, Step(w, cap, s, e))
  {
    StepKeepsOrder(w, cap, s, e);
    match e
    case Tick(d) => if IsTick(s, d, cap) { TickKeepsLockStep(w, cap, s, d); }
    case Deliver(p) => if p in s.wire { DeliverKeepsLockStep(w, cap, s, p); }
    case _ =>
  }

  lemma {:induction false} RunKeepsLockStep(w: WidthTable, cap: nat, s: System, es: seq<Event>)
    requires LockStep(w, s) && CalmRun(w, cap, s, es)
    ensures LockStep(w, Run(w, cap, s, es))
    decreases |es|
  {
    if es != [] {
      RunKeepsLockStep(w, cap, s, es[..|es| - 1]);
      StepKeepsLockStep(w, cap, Run(w, cap, s, es[..|es| - 1]), es[|es| - 1]);
    }
  }

  /**
   Over every calm run of a session, whatever is lost, repeated or reordered: the client shows the
   acknowledged grid or the last one sent, and once a tick is acknowledged the two are the same.
   */
  lemma CalmRunsStaySynchronised(w: WidthTable, cap: nat, cols: u16, rows: u16, grid: Grid, es: seq<Event>)
    requires 0 < cols <= MAX_TERMINAL_COLS && 0 < rows <= MAX_TERMINAL_ROWS
    requires Rectangular(grid, cols, rows) && NoWideGlyphs(w, grid)
    requires CalmRun(w, cap, Opened(cols, rows, grid), es)
    ensures var s := Run(w, cap, Opened(cols, rows, grid), es);
            && (s.client.lastAppliedEpoch == s.server.epoch > 0 ==> s.client.confirmed == s.server.sent)
            && (s.server.ackedEpoch == s.server.epoch > 0 ==> s.client.confirmed == s.server.base)
            && (s.client.lastAppliedEpoch < s.server.epoch ==> HasBase(s.client.confirmed, s.server.base))
  {
    OpenedInOrder(w, cols, rows, grid);
    RunKeepsLockStep(w, cap, Opened(cols, rows, grid), es);
  }

  // ---------- what the server takes for acknowledged ----------

  /** Some tick of the run was for this epoch and showed this grid. */
  ghost predicate WasSent(w: WidthTable, cap: nat, s: System, es: seq<Event>, epoch: nat, g: Grid)
    decreases |es|
  {
    es != [] &&
    (var last := |es| - 1;
     var t := Run(w, cap, s, es[..last]);
     || WasSent(w, cap, s, es[..last], epoch, g)
     || (es[last].Tick? && IsTick(t, es[last].diff, cap) && es[last].diff.epoch == epoch && t.server.grid == g))
  }

  /** Snapshots are grids as they were sent, and so is the base from the first acknowledgement on. */
  ghost predicate Remembers(w: WidthTable, cap: nat, s: System, es: seq<Event>) {
    var v := Run(w, cap, s, es).server;
    && (forall e :: e in v.snapshots ==> WasSent(w, cap, s, es, e, v.snapshots[e]))
    && (v.base == s.server.base || exists e :: 0 <= e <= v.ackedEpoch && WasSent(w, cap, s, es, e, v.base))
  }

  lemma RemembersStep(w: WidthTable, cap: nat, s: System, es: seq<Event>)
    requires es != [] && Remembers(w, cap, s, es[..|es| - 1])
    ensures Remembers(w, cap, s, es)
  {
    var last := |es| - 1;
    var v, u := Run(w, cap, s, es[..last]).server, Run(w, cap, s, es).server;
    forall e | e in u.snapshots
      ensures WasSent(w, cap, s, es, e, u.snapshots[e])
    {
      assert u.snapshots[e] == v.grid || (e in v.snapshots && u.snapshots[e] == v.snapshots[e]);
    }
    if u.base != s.server.base {
      if u.base == v.base {
        var e :| 0 <= e <= v.ackedEpoch && WasSent(w, cap, s, es[..last], e, v.base);
        assert e <= u.ackedEpoch && WasSent(w, cap, s, es, e, u.base);
      } else {
        var a := es[last].epoch;
        assert a in v.snapshots && WasSent(w, cap, s, es[..last], a, u.base);
        assert a <= u.ackedEpoch && WasSent(w, cap, s, es, a, u.base);
      }
    }
  }

  lemma {:induction false} RunRemembers(w: WidthTable, cap: nat, s: System, es: seq<Event>)
    requires s.server.snapshots == map[]
    ensures Remembers(w, cap, s, es)
    decreases |es|
  {
    if es != [] {
      RunRemembers(w, cap, s, es[..|es| - 1]);
      RemembersStep(w, cap, s, es);
    }
  }

  /**
   Whatever output comes between a tick and its acknowledgement: in every reachable state in which the
   server holds the client for caught up, the current grid was sent, in an epoch that the client has applied.
   */
  lemma CaughtUpWasSent(w: WidthTable, cap: nat, cols: u16, rows: u16, grid: Grid, es: seq<Event>) returns (epoch: nat)
    requires InOrder(w, Opened(cols, rows, grid)) && CaughtUp(Run(w, cap, Opened(cols, rows, grid), es).server)
    ensures var t := Run(w, cap, Opened(cols, rows, grid), es);
            epoch <= t.server.ackedEpoch <= t.client.lastAppliedEpoch && WasSent(w, cap, Opened(cols, rows, grid), es, epoch, t.server.grid)
  {
    var s := Opened(cols, rows, grid);
    RunRemembers(w, cap, s, es);
    RunKeepsOrder(w, cap, s, es);
    var v := Run(w, cap, s, es).server;
    assert v.grid != [];
    epoch :| 0 <= epoch <= v.ackedEpoch && WasSent(w, cap, s, es, epoch, v.base);
  }

  /** An acknowledgement counts once it is the newest, and the base becomes the grid sent in its epoch if that is remembered. */
  lemma AckTakesSnapshot(w: WidthTable, cap: nat, cols: u16, rows: u16, grid: Grid, es: seq<Event>, a: nat)
    requires var s := Run(w, cap, Opened(cols, rows, grid), es); a in s.acks && a > s.server.ackedEpoch
    ensures var s := Run(w, cap, Opened(cols, rows, grid), es);
            var v := Step(w, cap, s, TakeAck(a)).server;
            && v.ackedEpoch == a && v.grid == s.server.grid
            && (a in s.server.snapshots ==> WasSent(w, cap, Opened(cols, rows, grid), es, a, v.base))
            && (a !in s.server.snapshots ==> v.base == s.server.base)
  {
    RunRemembers(w, cap, Opened(cols, rows, grid), es);
  }
}
