/** `SequencedOutputBuffer` (crates/nosh-server/src/registry.rs): numbered output chunks under a byte cap. */
module OutputBuffer {
  import opened Wire

  type Chunk = (nat, seq<byte>)

  datatype Buffer = Buffer(nextSeq: nat, ring: seq<Chunk>, maxBytes: nat, lowestRetained: nat, truncated: bool)

  function RingBytes(ring: seq<Chunk>): nat {
    if ring == [] then 0 else |ring[0].1| + RingBytes(ring[1..])
  }

  /** The chunks retained are the last ones, without a gap. */
  ghost predicate Gapless(b: Buffer) {
    |b.ring| <= b.nextSeq && forall i :: 0 <= i < |b.ring| ==> b.ring[i].0 == b.nextSeq - |b.ring| + i
  }

  /** The lowest sequence number retained, or the next one if nothing is. */
  function Front(b: Buffer): int {
    b.nextSeq - |b.ring|
  }

  /** Drop the oldest chunks over the cap, but never the newest. */
  function Evict(b: Buffer): (r: Buffer)
    decreases |b.ring|
  {
    if RingBytes(b.ring) > b.maxBytes && |b.ring| > 1 then
      Evict(b.(ring := b.ring[1..], truncated := true, lowestRetained := b.ring[1].0))
    else b
  }

  function PushChunk(b: Buffer, chunk: seq<byte>): Buffer {
    Evict(b.(nextSeq := b.nextSeq + 1, ring := b.ring + [(b.nextSeq, chunk)]))
  }

  function DropBelow(ring: seq<Chunk>, acked: nat): seq<Chunk> {
    if ring != [] && ring[0].0 < acked then DropBelow(ring[1..], acked) else ring
  }

  function TrimAcked(b: Buffer, acked: nat): Buffer {
    b.(ring := DropBelow(b.ring, acked))
  }

  function From(ring: seq<Chunk>, want: nat): seq<Chunk> {
    if ring == [] then []
    else (if ring[0].0 >= want then [ring[0]] else []) + From(ring[1..], want)
  }

  datatype Replay = Replay(chunks: seq<Chunk>, from: nat, truncated: bool)

  function ReplayFrom(b: Buffer, want: nat): Replay {
    if b.ring == [] then Replay([], want, false)
    else if b.ring[0].0 > want then Replay(From(b.ring, want), b.ring[0].0, true)
    else Replay(From(b.ring, want), want, false)
  }

  // ---------- the object ----------

  lemma {:induction false} RingBytesSnoc(ring: seq<Chunk>, c: Chunk)
    ensures RingBytes(ring + [c]) == RingBytes(ring) + |c.1|
  {
    if ring == [] {
      assert ring + [c] == [c];
    } else {
      RingBytesSnoc(ring[1..], c);
      assert (ring + [c])[1..] == ring[1..] + [c];
    }
  }

  class SequencedOutputBuffer {
    var nextSeq: nat
    var ring: seq<Chunk>
    var totalBytes: nat
    var maxBytes: nat
    var lowestRetained: nat
    var truncated: bool

    ghost predicate Consistent()
      reads this
    {
      totalBytes == RingBytes(ring)
    }

    function View(): Buffer
      reads this
    {
      Buffer(nextSeq, ring, maxBytes, lowestRetained, truncated)
    }

    constructor (max: nat)
      ensures Consistent() && View() == Buffer(0, [], max, 0, false)
    {
      nextSeq, ring, totalBytes, maxBytes, lowestRetained, truncated := 0, [], 0, max, 0, false;
    }

    method Push(chunk: seq<byte>) returns (number: nat)
      requires Consistent()
      modifies this
      ensures Consistent() && View() == PushChunk(old(View()), chunk) && number == old(nextSeq)
    {
      number := nextSeq;
      nextSeq := nextSeq + 1;
      RingBytesSnoc(ring, (number, chunk));
      ring := ring + [(number, chunk)];
      totalBytes := totalBytes + |chunk|;
      while totalBytes > maxBytes && |ring| > 1
        invariant Consistent() && Evict(View()) == PushChunk(old(View()), chunk)
        decreases |ring|
      {
        totalBytes := totalBytes - |ring[0].1|;
        ring := ring[1..];
        truncated := true;
        lowestRetained := ring[0].0;
      }
    }

    method Trim(acked: nat)
      requires Consistent()
      modifies this
      ensures Consistent() && View() == TrimAcked(old(View()), acked)
    {
      while ring != [] && ring[0].0 < acked
        invariant Consistent() && TrimAcked(View(), acked) == TrimAcked(old(View()), acked)
        decreases |ring|
      {
        totalBytes := totalBytes - |ring[0].1|;
        ring := ring[1..];
      }
    }

    method ReplaySince(want: nat) returns (r: Replay)
      ensures r == ReplayFrom(View(), want)
    {
      if ring == [] {
        return Replay([], want, false);
      }
      var below := ring[0].0 > want;
      var chunks := [];
      for i := 0 to |ring|
        invariant chunks + From(ring[i..], want) == From(ring, want)
      {
        FromStep(ring, i, want, chunks);
        if ring[i].0 >= want {
          chunks := chunks + [ring[i]];
        }
      }
      assert ring[|ring|..] == [];
      r := Replay(chunks, if below then ring[0].0 else want, below);
    }
  }

  lemma FromStep(ring: seq<Chunk>, i: nat, want: nat, chunks: seq<Chunk>)
    requires i < |ring|
    ensures chunks + From(ring[i..], want)
            == (if ring[i].0 >= want then chunks + [ring[i]] else chunks) + From(ring[i + 1..], want)
  {
    assert ring[i..][1..] == ring[i + 1..];
    ConcatAssociates(chunks, [ring[i]], From(ring[i + 1..], want));
  }

  // ---------- what the buffer keeps ----------

  lemma {:induction false} EvictKeepsGapless(b: Buffer)
    requires Gapless(b)
    ensures var r := Evict(b);
            && Gapless(r) && r.nextSeq == b.nextSeq && Front(b) <= Front(r)
            && (b.ring != [] ==> r.ring != [])
            && (!r.truncated ==> r == b)
    decreases |b.ring|
  {
    if RingBytes(b.ring) > b.maxBytes && |b.ring| > 1 {
      EvictKeepsGapless(b.(ring := b.ring[1..], truncated := true, lowestRetained := b.ring[1].0));
    }
  }

  /** A push keeps the newest chunks; if nothing has ever been evicted it keeps all of them. */
  lemma PushKeepsGapless(b: Buffer, chunk: seq<byte>)
    requires Gapless(b)
    ensures var r := PushChunk(b, chunk);
            && Gapless(r) && r.nextSeq == b.nextSeq + 1 && r.ring != [] && Front(b) <= Front(r)
            && (!r.truncated ==> !b.truncated && Front(r) == Front(b))
  {
    EvictKeepsGapless(b.(nextSeq := b.nextSeq + 1, ring := b.ring + [(b.nextSeq, chunk)]));
    EvictKeepsFlag(b.(nextSeq := b.nextSeq + 1, ring := b.ring + [(b.nextSeq, chunk)]));
  }

  // ---------- what is retained ----------

  /** The bytes of the chunks, in order. */
  function Bytes(ring: seq<Chunk>): (s: seq<byte>) {
    if ring == [] then [] else ring[0].1 + Bytes(ring[1..])
  }

  lemma {:induction false} RingBytesIsLength(ring: seq<Chunk>)
    ensures RingBytes(ring) == |Bytes(ring)|
  {
    if ring != [] { RingBytesIsLength(ring[1..]); }
  }

  lemma {:induction false} BytesSnoc(ring: seq<Chunk>, c: Chunk)
    ensures Bytes(ring + [c]) == Bytes(ring) + c.1
  {
    if ring == [] {
      assert ring + [c] == [c] && [c][1..] == [];
    } else {
      BytesSnoc(ring[1..], c);
      assert (ring + [c])[1..] == ring[1..] + [c];
    }
  }

  /** The ring without its `k` oldest chunks is within the cap, or the newest chunk alone; with one more it would not be. */
  ghost predicate LongestThatFits(ring: seq<Chunk>, k: nat, max: nat)
    requires k < |ring|
  {
    && (|Bytes(ring[k..])| <= max || k + 1 == |ring|)
    && (k > 0 ==> |Bytes(ring[k - 1..])| > max)
  }

  lemma {:induction false} EvictKeepsLongest(b: Buffer) returns (k: nat)
    requires b.ring != []
    ensures k < |b.ring| && LongestThatFits(b.ring, k, b.maxBytes)
    ensures Evict(b) == if k == 0 then b else b.(ring := b.ring[k..], truncated := true, lowestRetained := b.ring[k].0)
    decreases |b.ring|
  {
    RingBytesIsLength(b.ring);
    assert b.ring[0..] == b.ring;
    if RingBytes(b.ring) > b.maxBytes && |b.ring| > 1 {
      var j := EvictKeepsLongest(b.(ring := b.ring[1..], truncated := true, lowestRetained := b.ring[1].0));
      k := j + 1;
      assert b.ring[1..][j..] == b.ring[k..];
      if j > 0 { assert b.ring[1..][j - 1..] == b.ring[j..]; }
    } else {
      k := 0;
    }
  }

  /**
   A push stores the chunk under the next number, and drops the `k` oldest: as many as the cap
   demands and no more, but never the new one. Only that sets the truncation mark.
   */
  lemma PushKeepsLongest(b: Buffer, chunk: seq<byte>) returns (k: nat)
    ensures var all := b.ring + [(b.nextSeq, chunk)];
            var r := PushChunk(b, chunk);
            && k < |all| && r.ring == all[k..] && LongestThatFits(all, k, b.maxBytes)
            && r.nextSeq == b.nextSeq + 1 && r.maxBytes == b.maxBytes
            && (r.truncated <==> b.truncated || k > 0)
            && r.lowestRetained == if k > 0 then r.ring[0].0 else b.lowestRetained
  {
    k := EvictKeepsLongest(b.(nextSeq := b.nextSeq + 1, ring := b.ring + [(b.nextSeq, chunk)]));
  }

  /** Every chunk is the one that was produced under its number. */
  ghost predicate Holds(chunks: seq<Chunk>, produced: seq<seq<byte>>) {
    forall i :: 0 <= i < |chunks| ==> chunks[i].0 < |produced| && chunks[i].1 == produced[chunks[i].0]
  }

  lemma PushHolds(b: Buffer, chunk: seq<byte>, produced: seq<seq<byte>>)
    requires Holds(b.ring, produced) && b.nextSeq == |produced|
    ensures Holds(PushChunk(b, chunk).ring, produced + [chunk])
  {
    var k := PushKeepsLongest(b, chunk);
  }

  lemma {:induction false} TrimHolds(ring: seq<Chunk>, acked: nat, produced: seq<seq<byte>>)
    requires Holds(ring, produced)
    ensures Holds(DropBelow(ring, acked), produced)
  {
    if ring != [] && ring[0].0 < acked { TrimHolds(ring[1..], acked, produced); }
  }

  lemma {:induction false} FromHolds(ring: seq<Chunk>, want: nat, produced: seq<seq<byte>>)
    requires Holds(ring, produced)
    ensures Holds(From(ring, want), produced)
  {
    if ring != [] { FromHolds(ring[1..], want, produced); }
  }

  // ---------- numbers ----------

  lemma {:induction false} EvictKeepsFlag(b: Buffer)
    ensures b.truncated ==> Evict(b).truncated
    decreases |b.ring|
  {
    if RingBytes(b.ring) > b.maxBytes && |b.ring| > 1 {
      EvictKeepsFlag(b.(ring := b.ring[1..], truncated := true, lowestRetained := b.ring[1].0));
    }
  }

  /** A trim drops exactly the acknowledged chunks. */
  lemma {:induction false} TrimKeepsGapless(b: Buffer, acked: nat)
    requires Gapless(b)
    ensures var r := TrimAcked(b, acked);
            && Gapless(r) && r.nextSeq == b.nextSeq && r.truncated == b.truncated
            && Front(r) == if acked <= Front(b) then Front(b) else if acked <= b.nextSeq then acked else b.nextSeq
    decreases |b.ring|
  {
    if b.ring != [] && b.ring[0].0 < acked {
      TrimKeepsGapless(b.(ring := b.ring[1..]), acked);
    }
  }

  lemma {:induction false} FromIsSuffix(b: Buffer, want: nat)
    requires Gapless(b) && want <= b.nextSeq
    ensures var r := From(b.ring, want);
            && |r| == b.nextSeq - (if want <= Front(b) then Front(b) else want)
            && forall i :: 0 <= i < |r| ==> r[i].0 == b.nextSeq - |r| + i
    decreases |b.ring|
  {
    if b.ring != [] {
      FromIsSuffix(b.(ring := b.ring[1..]), want);
    }
  }
}
