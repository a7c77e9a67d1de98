/**
 The reliable streams: length-delimited frames (crates/nosh-proto/src/codec.rs) and the channel-id
 prefix of a data stream (crates/nosh-server/src/channel.rs). Reads are not interrupted.
 */
module Codec {
  import opened Wire
  import opened Postcard
  import opened Messages

  const MAX_FRAME_LEN: nat := 16 * 1024 * 1024

  function BigEndian(n: u32): (s: seq<byte>)
    ensures |s| == 4
  {
    [n / 0x100_0000, n / 0x1_0000 % 0x100, n / 0x100 % 0x100, n % 0x100]
  }

  function FromBigEndian(s: seq<byte>): (n: u32)
    requires |s| == 4
  {
    var a: int, b: int, c: int, d: int := s[0], s[1], s[2], s[3];
    a * 0x100_0000 + b * 0x1_0000 + c * 0x100 + d
  }

  lemma BigEndianRoundTrip(n: u32)
    ensures FromBigEndian(BigEndian(n)) == n
  {
    assert n / 0x100 / 0x100 == n / 0x1_0000 && n / 0x1_0000 / 0x100 == n / 0x100_0000;
  }

  function FrameOf(body: seq<byte>): (s: seq<byte>)
    requires |body| <= MAX_FRAME_LEN
  {
    BigEndian(|body|) + body
  }

  /** `encode`. */
  function EncodeFrame(m: Message): (r: Option<seq<byte>>) {
    var body := MessageBody(m);
    if |body| > MAX_FRAME_LEN then None else Some(FrameOf(body))
  }

  datatype ReadResult = Received(m: Value) | UnexpectedEof | FrameTooLarge(len: nat) | BadBody

  /** One read: the result and what is left of the stream. */
  function ReadFrame(s: seq<byte>): (r: (ReadResult, seq<byte>)) {
    if |s| < 4 then (UnexpectedEof, [])
    else
      var len: nat, rest := FromBigEndian(s[..4]), s[4..];
      if len > MAX_FRAME_LEN then (FrameTooLarge(len), rest)
      else if |rest| < len then (UnexpectedEof, [])
      else
        match DecodeMessage(rest[..len])
        case None => (BadBody, rest[len..])
        case Some(m) => (Received(m), rest[len..])
  }

  /** The receiving end of a stream; `largest` is the largest buffer that reading has asked for. */
  class RecvStream {
    var unread: seq<byte>
    ghost var largest: nat

    constructor (s: seq<byte>)
      ensures unread == s && largest == 0
    {
      unread, largest := s, 0;
    }

    /** `read_exact`: an early end of the stream consumes what there was. */
    method ReadExact(n: nat) returns (r: Option<seq<byte>>)
      modifies this
      ensures largest == if n > old(largest) then n else old(largest)
      ensures if |old(unread)| < n then r == None && unread == []
              else r == Some(old(unread)[..n]) && unread == old(unread)[n..]
    {
      if n > largest {
        largest := n;
      }
      if |unread| < n {
        unread := [];
        return None;
      }
      r := Some(unread[..n]);
      unread := unread[n..];
    }

    /** `read_message` and `read_message_ns`. */
    method ReadMessage() returns (r: ReadResult)
      modifies this
      ensures (r, unread) == ReadFrame(old(unread))
      ensures old(largest) <= MAX_FRAME_LEN ==> largest <= MAX_FRAME_LEN
    {
      var prefix := ReadExact(4);
      if prefix.None? {
        return UnexpectedEof;
      }
      var len: nat := FromBigEndian(prefix.value);
      if len > MAX_FRAME_LEN {
        return FrameTooLarge(len);
      }
      var body := ReadExact(len);
      if body.None? {
        return UnexpectedEof;
      }
      var m := DecodeMessage(body.value);
      r := if m.None? then BadBody else Received(m.value);
    }

    /** `read_varint_u32`; `shift` is kept as the power of two. */
    method ReadVarintU32() returns (r: Option<u32>)
      modifies this
      ensures match ChannelId(old(unread))
              case Some((v, rest)) => r == Some(v) && unread == rest
              case None => r == None
    {
      var value: nat, shift: nat := 0, 1;
      ghost var s := unread;
      for i := 0 to 5
        invariant i <= |s| && unread == s[i..]
        invariant value < 0x1_0000_0000
        invariant Prepend(value, shift, 5 - i, unread) == ChannelId(s)
      {
        ghost var here := unread;
        var buf := ReadExact(1);
        if buf.None? {
          return None;
        }
        var byte := buf.value[0];
        if byte < 128 {
          PrependLast(value, shift, 5 - i, here);
        } else {
          PrependMore(value, shift, 5 - i, here);
        }
        value := Accumulate(value, shift, byte);
        shift := shift * 128;
        if byte < 128 {
          return Some(value);
        }
      }
      return None;
    }
  }

  // ---------- the channel-id prefix ----------

  /** A varint of at most five bytes, modulo the width of the accumulator. */
  function ChannelId(s: seq<byte>): (r: Parsed<u32>) {
    match TakeVarint(s, 5, 127)
    case None => None
    case Some((v, rest)) => Some((v % 0x1_0000_0000, rest))
  }

  /** `value |= (byte & 0x7f) << shift` on 32 bits, with `shift` as a power of two. */
  function Accumulate(value: nat, shift: nat, b: byte): (r: u32) {
    (value + b % 128 * shift) % 0x1_0000_0000
  }

  /** The outcome when `value` and `shift` stand for the bytes read and `width` bytes may follow. */
  function Prepend(value: nat, shift: nat, width: nat, s: seq<byte>): (r: Parsed<u32>) {
    if width == 0 then None
    else
      match TakeVarint(s, width, 127)
      case None => None
      case Some((v, rest)) => Some(((value + v * shift) % 0x1_0000_0000, rest))
  }

  lemma PrependLast(value: nat, shift: nat, width: nat, s: seq<byte>)
    requires width > 0 && s != [] && s[0] < 128
    ensures Prepend(value, shift, width, s) == Some((Accumulate(value, shift, s[0]), s[1..]))
  {
    assert s[0] % 128 == s[0];
    assert TakeVarint(s, width, 127) == Some((s[0], s[1..]));
  }

  lemma PrependMore(value: nat, shift: nat, width: nat, s: seq<byte>)
    requires width > 0 && s != [] && s[0] >= 128
    ensures Prepend(value, shift, width, s)
            == Prepend(Accumulate(value, shift, s[0]), shift * 128, width - 1, s[1..])
  {
    if width > 1 {
      var low: nat := s[0] % 128;
      assert low == s[0] - 128;
      match TakeVarint(s[1..], width - 1, 127)
      case None =>
      case Some((v, rest)) =>
        assert TakeVarint(s, width, 127) == Some((low + 128 * v, rest));
        ModStep(value, shift, low, v);
    }
  }

  lemma ModStep(value: nat, shift: nat, low: nat, v: nat)
    ensures (value + (low + 128 * v) * shift) % 0x1_0000_0000
            == ((value + low * shift) % 0x1_0000_0000 + v * (shift * 128)) % 0x1_0000_0000
  {
    assert (low + 128 * v) * shift == low * shift + v * (shift * 128);
    ModAdd(value + low * shift, v * (shift * 128));
  }

  lemma ModAdd(a: nat, b: nat)
    ensures (a + b) % 0x1_0000_0000 == (a % 0x1_0000_0000 + b) % 0x1_0000_0000
  {}

  /** The prefix written for any channel id is read back, and nothing after it is touched. */
  lemma ChannelIdRoundTrip(id: u32, rest: seq<byte>)
    ensures ChannelId(Varint(id) + rest) == Some((id, rest))
  {
    U32RoundTrip(id, rest);
    AcceptedAgrees(Varint(id) + rest);
  }

  lemma AcceptedAgrees(s: seq<byte>)
    requires TakeU32(s).Some?
    ensures ChannelId(s) == TakeU32(s)
  {
    VarintLimits();
    WideAgrees(s, 5);
  }

  /** Relaxing the last byte changes nothing that the strict form accepts. */
  lemma {:induction false} WideAgrees(s: seq<byte>, width: nat)
    requires width > 0
    ensures TakeVarint(s, width, 15).Some? ==> TakeVarint(s, width, 127) == TakeVarint(s, width, 15)
    decreases width
  {
    if s != [] && s[0] >= 128 && width > 1 {
      WideAgrees(s[1..], width - 1);
    }
  }

  /** A fifth byte whose bits do not fit a `u32`. */
  predicate Overlong(s: seq<byte>, width: nat)
    requires width > 0
    decreases width
  {
    s != [] && if width == 1 then 15 < s[0] < 128 else s[0] >= 128 && Overlong(s[1..], width - 1)
  }

  lemma {:induction false} OverlongIffStricter(s: seq<byte>, width: nat)
    requires width > 0
    ensures TakeVarint(s, width, 15).None? && TakeVarint(s, width, 127).Some? <==> Overlong(s, width)
    decreases width
  {
    if s != [] && s[0] >= 128 && width > 1 {
      OverlongIffStricter(s[1..], width - 1);
    }
  }

  /**
   The reader agrees with the postcard decoder except on a fifth byte of 16 to 127. There its
   documentation promises an error, but the excess bits are dropped and an id is returned.
   */
  lemma ChannelIdAgreesIff(s: seq<byte>)
    ensures ChannelId(s) == TakeU32(s)
            <==> !(|s| >= 5 && s[0] >= 128 && s[1] >= 128 && s[2] >= 128 && s[3] >= 128 && 15 < s[4] < 128)
  {
    OverlongIffStricter(s, 5);
    WideAgrees(s, 5);
    VarintLimits();
    OverlongBytes(s);
  }

  lemma OverlongBytes(s: seq<byte>)
    ensures Overlong(s, 5)
            <==> |s| >= 5 && s[0] >= 128 && s[1] >= 128 && s[2] >= 128 && s[3] >= 128 && 15 < s[4] < 128
  {
    if |s| >= 2 {
      assert Overlong(s, 5) <==> s[0] >= 128 && s[1] >= 128 && Overlong(s[1..][1..], 3);
      var t := s[1..][1..];
      assert |t| >= 2 ==> (Overlong(t, 3) <==> t[0] >= 128 && t[1] >= 128 && Overlong(t[1..][1..], 1));
    }
  }

  lemma OverlongIdIsTruncated()
    ensures ChannelId([0x80, 0x80, 0x80, 0x80, 0x10]) == Some((0, [])) && TakeU32([0x80, 0x80, 0x80, 0x80, 0x10]) == None
  {
    var s: seq<byte> := [0x80, 0x80, 0x80, 0x80, 0x10];
    ChannelIdAgreesIff(s);
    assert TakeVarint([0x10], 1, 127) == Some((0x10, []));
    assert s[1..][1..] == [0x80, 0x80, 0x10] && s[1..][1..][1..][1..] == [0x10];
    assert TakeVarint(s[1..][1..], 3, 127) == Some((0x10 * 128 * 128, []));
    assert TakeVarint(s, 5, 127) == Some((0x10 * 128 * 128 * 128 * 128, []));
    OverlongIffStricter(s, 5);
    OverlongBytes(s);
  }

  // ---------- frames ----------

  /** A frame that `encode` produced reads back as its message, and leaves what follows. */
  lemma FrameRoundTrip(m: Message, rest: seq<byte>)
    requires EncodeFrame(m).Some?
    ensures ReadFrame(EncodeFrame(m).value + rest) == (Received(m), rest)
  {
    var body := MessageBody(m);
    var s := FrameOf(body) + rest;
    BigEndianRoundTrip(|body|);
    assert s[..4] == BigEndian(|body|);
    assert s[4..] == body + rest;
    assert (body + rest)[..|body|] == body && (body + rest)[|body|..] == rest;
    MessageRoundTrip(m, []);
    assert body + [] == body;
  }

  /** A message is framed exactly if its body has at most 16 MiB, behind its length in four bytes, the highest first. */
  lemma FramedIff(m: Message)
    ensures EncodeFrame(m).Some? <==> |MessageBody(m)| <= 0x100_0000
    ensures EncodeFrame(m).Some? ==>
            var s, n := EncodeFrame(m).value, |MessageBody(m)|;
            && |s| == n + 4 && s[4..] == MessageBody(m)
            && n == 0x100_0000 * s[0] as int + 0x1_0000 * s[1] as int + 0x100 * s[2] as int + s[3] as int
  {
    if EncodeFrame(m).Some? {
      BigEndianRoundTrip(|MessageBody(m)|);
    }
  }

  /**
   Any stream of bytes: too short for a length is an end; a length above 16 MiB is refused before
   anything else is read; a body cut short is an end; otherwise the body alone decides, and exactly
   it is consumed.
   */
  lemma ReadOutcome(s: seq<byte>, len: nat)
    requires |s| >= 4 ==> len == 0x100_0000 * s[0] as int + 0x1_0000 * s[1] as int + 0x100 * s[2] as int + s[3] as int
    ensures ReadFrame(s) ==
            if |s| < 4 then (UnexpectedEof, [])
            else if len > 0x100_0000 then (FrameTooLarge(len), s[4..])
            else if |s| < 4 + len then (UnexpectedEof, [])
            else (match DecodeMessage(s[4..4 + len]) case None => BadBody case Some(m) => Received(m), s[4 + len..])
  {
    if |s| >= 4 && |s| >= 4 + len {
      assert s[4..][..len] == s[4..4 + len] && s[4..][len..] == s[4 + len..];
    }
  }

  /** A frame cut short is never taken for a message. */
  lemma CutFrame(m: Message, k: nat)
    requires EncodeFrame(m).Some? && k < |EncodeFrame(m).value|
    ensures ReadFrame(EncodeFrame(m).value[..k]) == (UnexpectedEof, [])
  {
    var body := MessageBody(m);
    var s := FrameOf(body)[..k];
    BigEndianRoundTrip(|body|);
    if k >= 4 {
      assert s[..4] == BigEndian(|body|);
    }
  }

  ghost predicate Sendable(ms: seq<Message>) {
    forall i :: 0 <= i < |ms| ==> EncodeFrame(ms[i]).Some?
  }

  /** What `write_message` puts on the stream for `ms`. */
  ghost function Written(ms: seq<Message>): (s: seq<byte>)
    requires Sendable(ms)
  {
    if ms == [] then [] else EncodeFrame(ms[0]).value + Written(ms[1..])
  }

  /** Reading until something other than a message. */
  function ReadAll(s: seq<byte>): (r: (seq<Value>, ReadResult))
    decreases |s|
  {
    var (first, rest) := ReadFrame(s);
    if !first.Received? then ([], first)
    else
      var (others, end) := ReadAll(rest);
      ([first.m] + others, end)
  }

  lemma ReadAllStep(s: seq<byte>, m: Value, rest: seq<byte>)
    requires ReadFrame(s) == (Received(m), rest)
    ensures ReadAll(s) == ([m] + ReadAll(rest).0, ReadAll(rest).1)
  {}

  /** Sequential reads of what was written return exactly the messages, then the end of the stream. */
  lemma {:induction false} StreamRoundTrip(ms: seq<Message>)
    requires Sendable(ms)
    ensures ReadAll(Written(ms)) == (ms, UnexpectedEof)
    decreases |ms|
  {
    if ms != [] {
      var first, more := EncodeFrame(ms[0]).value, Written(ms[1..]);
      FrameRoundTrip(ms[0], more);
      ReadAllStep(first + more, ms[0], more);
      StreamRoundTrip(ms[1..]);
      assert ms == [ms[0]] + ms[1..];
    }
  }

  lemma CutConcat(a: seq<byte>, b: seq<byte>, k: nat)
    requires k <= |a + b|
    ensures (a + b)[..k] == if k < |a| then a[..k] else a + b[..k - |a|]
  {}

  /** Cut anywhere, the stream yields a prefix of the messages and no other message. */
  lemma {:induction false} CutStream(ms: seq<Message>, k: nat)
    requires Sendable(ms) && k <= |Written(ms)|
    ensures ReadAll(Written(ms)[..k]).0 <= ms && ReadAll(Written(ms)[..k]).1 == UnexpectedEof
    decreases |ms|
  {
    if ms != [] {
      var first, more := EncodeFrame(ms[0]).value, Written(ms[1..]);
      CutConcat(first, more, k);
      if k < |first| {
        CutFrame(ms[0], k);
      } else {
        var rest := more[..k - |first|];
        FrameRoundTrip(ms[0], rest);
        ReadAllStep(first + rest, ms[0], rest);
        CutStream(ms[1..], k - |first|);
      }
    }
  }
}
