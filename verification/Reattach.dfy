/**
 Cold reattach: the server's output buffer, the reliable stream, the client's applied-count and
 its acknowledgements, over any interleaving of output, delivery, acks, drops and reattaches.
 The client does not count frames that it skips while it waits for its channel to open.
 */
module Reattach {
  import opened Wire
  import opened OutputBuffer

  /** `wire` and `acks` are in flight; `skipped` counts the frames read without being counted. */
  datatype Link = Down | Up(wire: seq<Chunk>, acks: seq<nat>, opening: bool, skipped: nat)

  /**
   `produced` is all output so far and `read` the frames the client has read, in order. `delivered`
   are the numbers of those, `high` is one past the largest, and `reported` are the numbers inside a
   truncation notice.
   */
  datatype System = System(buffer: Buffer, count: nat, link: Link, delivered: set<nat>, high: nat, reported: set<nat>,
                           produced: seq<seq<byte>>, read: seq<Chunk>)

  datatype Event =
    | Produce(chunk: seq<byte>)
    | Read
    | ChannelOpened
    | SendAck
    | TakeAck
    | Drop
    | Reconnect

  function Fresh(maxBytes: nat): System {
    System(Buffer(0, [], maxBytes, 0, false), 0, Up([], [], true, 0), {}, 0, {}, [], [])
  }

  /** A frame with this number is in flight. */
  ghost predicate OnWire(link: Link, n: nat)
    requires link.Up?
  {
    exists i :: 0 <= i < |link.wire| && link.wire[i].0 == n
  }

  predicate Between(lo: nat, n: nat, hi: nat) {
    lo <= n < hi
  }

  /** The numbers from `lo` up to but not including `hi`. */
  function Range(lo: nat, hi: nat): set<nat> {
    set n: nat | 0 <= n < hi && Between(lo, n, hi)
  }

  function ReadFrame(s: System): System
    requires s.link.Up? && s.link.wire != []
  {
    var rest := s.link.(wire := s.link.wire[1..]);
    var n := s.link.wire[0].0;
    var t := s.(delivered := s.delivered + {n}, high := if n < s.high then s.high else n + 1,
                read := s.read + [s.link.wire[0]]);
    if s.link.opening then t.(link := rest.(skipped := rest.skipped + 1))
    else t.(count := s.count + 1, link := rest)
  }

  function ReattachOk(s: System): System {
    var r := ReplayFrom(s.buffer, s.count);
    s.(count := r.from, link := Up(r.chunks, [], true, 0),
       reported := s.reported + if r.truncated then Range(s.count, r.from) else {})
  }

  function Step(s: System, e: Event): System {
    match e
    case Produce(chunk) =>
      s.(buffer := PushChunk(s.buffer, chunk), produced := s.produced + [chunk],
         link := if s.link.Up? then s.link.(wire := s.link.wire + [(s.buffer.nextSeq, chunk)]) else s.link)
    case Read => if s.link.Up? && s.link.wire != [] then ReadFrame(s) else s
    case ChannelOpened => if s.link.Up? then s.(link := s.link.(opening := false)) else s
    case SendAck => if s.link.Up? && !s.link.opening then s.(link := s.link.(acks := s.link.acks + [s.count])) else s
    case TakeAck =>
      if s.link.Up? && s.link.acks != [] then
        s.(buffer := TrimAcked(s.buffer, s.link.acks[0]), link := s.link.(acks := s.link.acks[1..]))
      else s
    case Drop => s.(link := Down)
    case Reconnect => if s.link.Down? then ReattachOk(s) else s
  }

  function Run(s: System, es: seq<Event>): (t: System)
    decreases |es|
  {
    if es == [] then s else Step(Run(s, es[..|es| - 1]), es[|es| - 1])
  }

  // ---------- the invariant ----------

  /** The number of the next frame the client will read. */
  function NextOnStream(s: System): int
    requires s.link.Up?
  {
    s.buffer.nextSeq - |s.link.wire|
  }

  ghost predicate Accounted(s: System, upTo: int) {
    forall n: nat :: n < upTo ==> n in s.delivered || n in s.reported
  }

  ghost predicate StreamOk(s: System)
    requires s.link.Up?
  {
    && |s.link.wire| <= s.buffer.nextSeq
    && (forall i :: 0 <= i < |s.link.wire| ==> s.link.wire[i].0 == NextOnStream(s) + i)
    && s.count + s.link.skipped == NextOnStream(s)
    && Accounted(s, NextOnStream(s))
    && (forall n: nat :: s.count <= n < NextOnStream(s) ==> n in s.delivered)
    && (forall i :: 0 <= i < |s.link.acks| ==> s.link.acks[i] <= s.count)
  }

  ghost predicate BufferOk(s: System) {
    && Gapless(s.buffer)
    && s.count <= s.buffer.nextSeq
    && (s.buffer.ring == [] ==> s.count == s.buffer.nextSeq)
    && (forall n :: n in s.reported ==> n < Front(s.buffer))
    && (!s.buffer.truncated ==> Front(s.buffer) <= s.count && s.reported == {})
  }

  /** From the applied-count on, exactly the chunks below the high-water mark have been delivered. */
  ghost predicate HighOk(s: System) {
    && s.high <= s.buffer.nextSeq
    && (forall n :: n in s.delivered ==> n < s.high)
    && (s.high > 0 ==> s.high - 1 in s.delivered)
    && (forall n: nat :: s.count <= n < s.high ==> n in s.delivered)
  }

  /** Whatever is retained, in flight or read under a number is the chunk produced under it. */
  ghost predicate Genuine(s: System) {
    && s.buffer.nextSeq == |s.produced|
    && Holds(s.buffer.ring, s.produced) && Holds(s.read, s.produced)
    && (s.link.Up? ==> Holds(s.link.wire, s.produced))
  }

  ghost predicate Inv(s: System) {
    BufferOk(s) && Accounted(s, s.count) && HighOk(s) && (s.link.Up? ==> StreamOk(s))
  }

  lemma ProduceKeepsInv(s: System, chunk: seq<byte>)
    requires Inv(s)
    ensures Inv(Step(s, Produce(chunk)))
  {
    PushKeepsGapless(s.buffer, chunk);
  }

  lemma TakeAckKeepsInv(s: System)
    requires Inv(s)
    ensures Inv(Step(s, TakeAck))
  {
    if s.link.Up? && s.link.acks != [] {
      TrimKeepsGapless(s.buffer, s.link.acks[0]);
    }
  }

  lemma ReconnectKeepsInv(s: System)
    requires Inv(s)
    ensures Inv(Step(s, Reconnect))
  {
    if s.link.Down? {
      FromIsSuffix(s.buffer, s.count);
      var t := ReattachOk(s);
      assert Accounted(t, NextOnStream(t));
    }
  }

  lemma ReadKeepsInv(s: System)
    requires Inv(s)
    ensures Inv(Step(s, Read))
  {
    if s.link.Up? && s.link.wire != [] {
      assert NextOnStream(ReadFrame(s)) == s.link.wire[0].0 + 1;
    }
  }

  lemma StepKeepsInv(s: System, e: Event)
    requires Inv(s)
    ensures Inv(Step(s, e))
  {
    match e
    case Produce(chunk) => ProduceKeepsInv(s, chunk);
    case Read => ReadKeepsInv(s);
    case TakeAck => TakeAckKeepsInv(s);
    case Reconnect => ReconnectKeepsInv(s);
    case _ =>
  }

  lemma {:induction false} RunKeepsInv(maxBytes: nat, es: seq<Event>)
    ensures Inv(Run(Fresh(maxBytes), es))
    decreases |es|
  {
    if es != [] {
      RunKeepsInv(maxBytes, es[..|es| - 1]);
      StepKeepsInv(Run(Fresh(maxBytes), es[..|es| - 1]), es[|es| - 1]);
    }
  }

  // ---------- what the client is promised ----------

  /**
   In every reachable state with the link up: the applied-count lags the stream by exactly the
   frames skipped while the channel opened, and every chunk before the next one on the stream was
   delivered or lies in a reported gap. If the buffer never overflowed, all were delivered.
   */
  lemma NothingIsLost(maxBytes: nat, es: seq<Event>, n: nat)
    requires Run(Fresh(maxBytes), es).link.Up?
    ensures var s := Run(Fresh(maxBytes), es);
            && s.count + s.link.skipped == NextOnStream(s)
            && (n < NextOnStream(s) ==> n in s.delivered || n in s.reported)
            && (n < NextOnStream(s) && !s.buffer.truncated ==> n in s.delivered)
  {
    RunKeepsInv(maxBytes, es);
  }

  lemma {:induction false} DroppedByTrim(ring: seq<Chunk>, acked: nat, c: Chunk)
    requires c in ring && c !in DropBelow(ring, acked)
    ensures c.0 < acked
  {
    if ring[0].0 < acked && c != ring[0] {
      DroppedByTrim(ring[1..], acked, c);
    }
  }

  /** No acknowledgement ever discards a chunk the client has not read. */
  lemma AcksTrimOnlyDelivered(maxBytes: nat, es: seq<Event>, c: Chunk)
    requires var s := Run(Fresh(maxBytes), es); c in s.buffer.ring && c !in Step(s, TakeAck).buffer.ring
    ensures c.0 in Run(Fresh(maxBytes), es).delivered
  {
    var s := Run(Fresh(maxBytes), es);
    RunKeepsInv(maxBytes, es);
    DroppedByTrim(s.buffer.ring, s.link.acks[0], c);
    assert s.link.acks[0] <= s.count;
  }

  /** A reattach replays exactly the retained chunks from the first one the client still needs, without a gap. */
  lemma ReattachReplaysTheRest(maxBytes: nat, es: seq<Event>, i: nat)
    requires Run(Fresh(maxBytes), es).link.Down?
    ensures var s := Run(Fresh(maxBytes), es);
            var t := Step(s, Reconnect);
            && t.count == (if Front(s.buffer) <= s.count then s.count else Front(s.buffer))
            && |t.link.wire| == s.buffer.nextSeq - t.count
            && (i < |t.link.wire| ==> t.link.wire[i].0 == t.count + i)
            && t.reported == s.reported + Range(s.count, t.count)
  {
    var s := Run(Fresh(maxBytes), es);
    RunKeepsInv(maxBytes, es);
    FromIsSuffix(s.buffer, s.count);
    assert Range(s.count, s.count) == {};
  }

  // ---------- exactly once? ----------

  /**
   When a chunk is read again. In every reachable state the next read is a repetition if and only
   if its chunk is below the high-water mark.
   */
  lemma ReadRepeatsIff(maxBytes: nat, es: seq<Event>)
    requires var s := Run(Fresh(maxBytes), es); s.link.Up? && s.link.wire != []
    ensures var s := Run(Fresh(maxBytes), es); s.link.wire[0].0 in s.delivered <==> s.link.wire[0].0 < s.high
  {
    RunKeepsInv(maxBytes, es);
  }

  /**
   What a reattach repeats. In every reachable state losing the link and reattaching puts a
   delivered chunk on the wire again if and only if it is still retained and lies between the
   applied-count and the high-water mark.
   */
  lemma ReattachRepeatsIff(maxBytes: nat, es: seq<Event>, n: nat)
    ensures var s := Run(Fresh(maxBytes), es);
            var t := Step(Step(s, Drop), Reconnect);
            t.link.Up? && (OnWire(t.link, n) && n in s.delivered <==> Front(s.buffer) <= n && s.count <= n < s.high)
  {
    var s := Run(Fresh(maxBytes), es);
    RunKeepsInv(maxBytes, es);
    var t := Step(Step(s, Drop), Reconnect);
    FromIsSuffix(s.buffer, s.count);
    OnWireIff(s, t, n);
  }

  lemma OnWireIff(s: System, t: System, n: nat)
    requires Inv(s) && t == ReattachOk(s.(link := Down))
    ensures OnWire(t.link, n) <==> t.count <= n < s.buffer.nextSeq
    ensures t.count == if Front(s.buffer) <= s.count then s.count else Front(s.buffer)
  {
    FromIsSuffix(s.buffer, s.count);
    if t.count <= n < s.buffer.nextSeq {
      assert t.link.wire[n - t.count].0 == n;
    }
  }

  /** Until the first reattach the mark is the applied-count and the frames skipped since. */
  lemma {:induction false} FirstLinkHigh(maxBytes: nat, es: seq<Event>)
    requires forall i :: 0 <= i < |es| ==> es[i] != Drop
    ensures var s := Run(Fresh(maxBytes), es); s.link.Up? && s.high == s.count + s.link.skipped
    decreases |es|
  {
    if es != [] {
      FirstLinkHigh(maxBytes, es[..|es| - 1]);
      RunKeepsInv(maxBytes, es[..|es| - 1]);
    }
  }

  /** So on a first link every skipped frame that is still retained comes again after a reattach. */
  lemma {:induction false} SkippedFrameIsReplayed(maxBytes: nat, es: seq<Event>, n: nat)
    requires forall i :: 0 <= i < |es| ==> es[i] != Drop
    requires var s := Run(Fresh(maxBytes), es); s.link.Up? && Front(s.buffer) <= n && s.count <= n < s.count + s.link.skipped
    ensures var s := Run(Fresh(maxBytes), es);
            var t := Step(Step(s, Drop), Reconnect);
            n in s.delivered && t.link.Up? && OnWire(t.link, n)
  {
    FirstLinkHigh(maxBytes, es);
    ReattachRepeatsIff(maxBytes, es, n);
  }

  /** The client reads nothing while its channel opens. */
  ghost predicate NeverSkips(s: System, es: seq<Event>)
    decreases |es|
  {
    es != [] ==>
      && NeverSkips(s, es[..|es| - 1])
      && var t := Run(s, es[..|es| - 1]);
         es[|es| - 1] == Read && t.link.Up? && t.link.wire != [] ==> !t.link.opening
  }

  lemma {:induction false} NoSkipNoLead(maxBytes: nat, es: seq<Event>)
    requires NeverSkips(Fresh(maxBytes), es)
    ensures var s := Run(Fresh(maxBytes), es); s.high <= s.count && (s.link.Up? ==> s.link.skipped == 0)
    decreases |es|
  {
    if es != [] {
      NoSkipNoLead(maxBytes, es[..|es| - 1]);
      RunKeepsInv(maxBytes, es[..|es| - 1]);
      RunKeepsInv(maxBytes, es);
    }
  }

  /** Delivery is exactly once over every run in which no frame is skipped: what is read next is new. */
  lemma NoSkipNoRepeat(maxBytes: nat, es: seq<Event>)
    requires NeverSkips(Fresh(maxBytes), es)
    requires var s := Run(Fresh(maxBytes), es); s.link.Up? && s.link.wire != []
    ensures var s := Run(Fresh(maxBytes), es); s.link.wire[0].0 !in s.delivered
  {
    NoSkipNoLead(maxBytes, es);
    RunKeepsInv(maxBytes, es);
  }

  // ---------- the bytes ----------

  lemma GenuineStep(s: System, e: Event)
    requires Genuine(s)
    ensures Genuine(Step(s, e))
  {
    match e
    case Produce(chunk) =>
      PushHolds(s.buffer, chunk, s.produced);
      var k := PushKeepsLongest(s.buffer, chunk);
    case TakeAck =>
      if s.link.Up? && s.link.acks != [] { TrimHolds(s.buffer.ring, s.link.acks[0], s.produced); }
    case Reconnect =>
      FromHolds(s.buffer.ring, s.count, s.produced);
    case _ =>
  }

  /** In every reachable state each frame retained, in flight or read carries the chunk produced under its number. */
  lemma {:induction false} FramesCarryOutput(maxBytes: nat, es: seq<Event>)
    ensures Genuine(Run(Fresh(maxBytes), es))
    decreases |es|
  {
    if es != [] {
      FramesCarryOutput(maxBytes, es[..|es| - 1]);
      GenuineStep(Run(Fresh(maxBytes), es[..|es| - 1]), es[|es| - 1]);
    }
  }

  /** Over a run that skips no frame the numbers read rise; without an overflow none is left out. */
  lemma {:induction false} NumbersRead(maxBytes: nat, es: seq<Event>)
    requires NeverSkips(Fresh(maxBytes), es)
    ensures var s := Run(Fresh(maxBytes), es);
            && (forall i :: 0 <= i < |s.read| ==> s.read[i].0 < s.high)
            && (forall i, j :: 0 <= i < j < |s.read| ==> s.read[i].0 < s.read[j].0)
            && (!s.buffer.truncated ==> s.count == |s.read| && forall i :: 0 <= i < |s.read| ==> s.read[i].0 == i)
    decreases |es|
  {
    if es != [] {
      var t := Run(Fresh(maxBytes), es[..|es| - 1]);
      NumbersRead(maxBytes, es[..|es| - 1]);
      RunKeepsInv(maxBytes, es[..|es| - 1]);
      NoSkipNoLead(maxBytes, es[..|es| - 1]);
      if es[|es| - 1].Produce? { PushKeepsGapless(t.buffer, es[|es| - 1].chunk); }
    }
  }

  /** The chunks of output among the events. */
  function Outputs(es: seq<Event>): (chunks: seq<seq<byte>>)
    decreases |es|
  {
    if es == [] then []
    else Outputs(es[..|es| - 1]) + if es[|es| - 1].Produce? then [es[|es| - 1].chunk] else []
  }

  lemma {:induction false} ProducedIsOutput(maxBytes: nat, es: seq<Event>)
    ensures Run(Fresh(maxBytes), es).produced == Outputs(es)
    decreases |es|
  {
    if es != [] { ProducedIsOutput(maxBytes, es[..|es| - 1]); }
  }

  function Flatten(chunks: seq<seq<byte>>): (s: seq<byte>)
    decreases |chunks|
  {
    if chunks == [] then [] else Flatten(chunks[..|chunks| - 1]) + chunks[|chunks| - 1]
  }

  lemma {:induction false} BytesOfPrefix(chunks: seq<Chunk>, produced: seq<seq<byte>>)
    requires Holds(chunks, produced) && forall i :: 0 <= i < |chunks| ==> chunks[i].0 == i
    ensures |chunks| <= |produced| && Bytes(chunks) == Flatten(produced[..|chunks|])
    decreases |chunks|
  {
    if chunks != [] {
      var last := |chunks| - 1;
      BytesOfPrefix(chunks[..last], produced);
      BytesSnoc(chunks[..last], chunks[last]);
      assert chunks == chunks[..last] + [chunks[last]];
      assert produced[..|chunks|][..last] == produced[..last];
    }
  }

  lemma {:induction false} FlattenGrows(chunks: seq<seq<byte>>, n: nat)
    requires n <= |chunks|
    ensures Flatten(chunks[..n]) <= Flatten(chunks)
    decreases |chunks|
  {
    if n == |chunks| {
      assert chunks[..n] == chunks;
    } else {
      FlattenGrows(chunks[..|chunks| - 1], n);
      assert chunks[..|chunks| - 1][..n] == chunks[..n];
    }
  }

  /**
   The stream that the client gets. Over any run of output, acknowledgements, lost links and
   reattaches that skips no frame, and as long as the buffer has not overflowed, the bytes read are
   a prefix of the bytes produced: those of as many chunks as the client counts.
   */
  lemma BytesReadArePrefix(maxBytes: nat, es: seq<Event>)
    requires NeverSkips(Fresh(maxBytes), es) && !Run(Fresh(maxBytes), es).buffer.truncated
    ensures var s := Run(Fresh(maxBytes), es);
            && s.count <= |Outputs(es)| && Bytes(s.read) == Flatten(Outputs(es)[..s.count])
            && Bytes(s.read) <= Flatten(Outputs(es))
  {
    var s := Run(Fresh(maxBytes), es);
    ProducedIsOutput(maxBytes, es);
    FramesCarryOutput(maxBytes, es);
    NumbersRead(maxBytes, es);
    BytesOfPrefix(s.read, s.produced);
    FlattenGrows(s.produced, s.count);
  }

  /** An acknowledgement that arrives frees the buffer of everything the client has applied, and of nothing else. */
  lemma AckFreesApplied(maxBytes: nat, es: seq<Event>)
    requires var s := Run(Fresh(maxBytes), es); s.link.Up? && !s.link.opening && s.link.acks == []
    ensures var s := Run(Fresh(maxBytes), es);
            var t := Step(Step(s, SendAck), TakeAck);
            Front(t.buffer) == (if s.count <= Front(s.buffer) then Front(s.buffer) else s.count) && t.buffer.nextSeq == s.buffer.nextSeq
  {
    var s := Run(Fresh(maxBytes), es);
    RunKeepsInv(maxBytes, es);
    TrimKeepsGapless(s.buffer, s.count);
  }

  /**
   Which read is undone by losing the link: in every reachable state the frame read next, if it is still
   retained then, comes again after a reattach exactly if the channel was opening, for then it is not
   counted, or if some frame before it was skipped.
   */
  lemma ReadComesAgainIff(maxBytes: nat, es: seq<Event>)
    requires var s := Run(Fresh(maxBytes), es); s.link.Up? && s.link.wire != [] && Front(s.buffer) <= s.link.wire[0].0
    ensures var s := Run(Fresh(maxBytes), es);
            var t := Step(Step(Step(s, Read), Drop), Reconnect);
            t.link.Up? && (OnWire(t.link, s.link.wire[0].0) <==> s.link.opening || s.link.skipped > 0)
  {
    var s := Run(Fresh(maxBytes), es);
    RunKeepsInv(maxBytes, es);
    ReadKeepsInv(s);
    var r := Step(s, Read);
    OnWireIff(r, Step(Step(r, Drop), Reconnect), s.link.wire[0].0);
  }

  function Reads(s: System, n: nat): (t: System) {
    if n == 0 then s else Step(Reads(s, n - 1), Read)
  }

  lemma {:induction false} ReadsCountUnlessOpening(s: System, n: nat)
    requires s.link.Up? && n <= |s.link.wire|
    ensures var t := Reads(s, n);
            && t.buffer == s.buffer && t.read == s.read + s.link.wire[..n]
            && t.link.Up? && t.link.wire == s.link.wire[n..] && t.link.opening == s.link.opening
            && t.count == if s.link.opening then s.count else s.count + n
  {
    if n > 0 {
      ReadsCountUnlessOpening(s, n - 1);
      assert s.link.wire[n - 1..][1..] == s.link.wire[n..];
      assert s.link.wire[..n - 1] + [s.link.wire[n - 1]] == s.link.wire[..n];
    }
  }

  /**
   Catching up. After any run that ends with the link down: reattach and read the whole replay. If the
   channel opened first, the client has counted everything produced; if not, it has read the same frames
   and counted none, since a link starts with its channel still to be opened.
   */
  lemma CatchUpIff(maxBytes: nat, es: seq<Event>, ready: bool)
    requires Run(Fresh(maxBytes), es).link.Down?
    ensures var s := Run(Fresh(maxBytes), es);
            var r := Step(s, Reconnect);
            var u := if ready then Step(r, ChannelOpened) else r;
            && r.link.Up? && u.link.Up?
            && var t := Reads(u, |r.link.wire|);
               && t.link.Up? && t.link.wire == [] && t.read == s.read + r.link.wire
               && t.count == if ready then s.buffer.nextSeq else r.count
  {
    var s := Run(Fresh(maxBytes), es);
    RunKeepsInv(maxBytes, es);
    FromIsSuffix(s.buffer, s.count);
    var r := Step(s, Reconnect);
    var u := if ready then Step(r, ChannelOpened) else r;
    ReadsCountUnlessOpening(u, |r.link.wire|);
    assert r.link.wire[..|r.link.wire|] == r.link.wire;
  }
}
