/**
 The part of the postcard 1.x format that the datagrams use: LEB128 varints,
 one-byte `bool` and `u8`, the `Option` tag byte, and length-prefixed strings
 and vectors. Decoders return the unread rest; every decoding error is `None`.
 */
module Postcard {
  import opened Wire

  type Parsed<+T> = Option<(T, seq<byte>)>

  // ---------- varints ----------

  function Varint(n: nat): (s: seq<byte>) {
    if n < 128 then [n] else [128 + n % 128] + Varint(n / 128)
  }

  function VarintSize(n: nat): (k: nat)
    ensures 1 <= k
  {
    if n < 128 then 1 else 1 + VarintSize(n / 128)
  }

  /** One past the largest value of `width` varint bytes whose last byte is at most `last`. */
  function VarintLimit(width: nat, last: nat): (k: nat)
    requires 1 <= width
    ensures 1 <= k
  {
    if width == 1 then last + 1 else 128 * VarintLimit(width - 1, last)
  }

  /** `try_take_varint_uN`: at most `width` bytes, the last of them at most `last`. */
  function TakeVarint(s: seq<byte>, width: nat, last: nat): (r: Parsed<nat>)
    requires 1 <= width && last < 128
    ensures r.Some? ==> r.value.0 < VarintLimit(width, last)
    decreases width
  {
    if s == [] then None
    else if s[0] < 128 then
      if width == 1 && s[0] > last then None else Some((s[0], s[1..]))
    else if width == 1 then None
    else
      match TakeVarint(s[1..], width - 1, last)
      case None => None
      case Some((v, rest)) =>
        var low: nat := s[0] - 128;
        Some((low + 128 * v, rest))
  }

  lemma {:induction false} VarintRoundTrip(n: nat, rest: seq<byte>, width: nat, last: nat)
    requires 1 <= width && last < 128 && n < VarintLimit(width, last)
    ensures TakeVarint(Varint(n) + rest, width, last) == Some((n, rest))
    decreases width
  {
    var s := Varint(n) + rest;
    if n < 128 {
      assert s[1..] == rest;
    } else {
      VarintRoundTrip(n / 128, rest, width - 1, last);
      assert s[1..] == Varint(n / 128) + rest;
    }
  }

  lemma {:induction false} VarintLength(n: nat)
    ensures |Varint(n)| == VarintSize(n)
  {
    if n >= 128 { VarintLength(n / 128); }
  }

  lemma {:induction false} VarintSizeMonotone(m: nat, n: nat)
    requires m <= n
    ensures VarintSize(m) <= VarintSize(n)
  {
    if m >= 128 { VarintSizeMonotone(m / 128, n / 128); }
  }

  /** The three integer widths of the wire types. `usize` is 64 bits. */
  lemma VarintLimits()
    ensures VarintLimit(3, 3) == 0x1_0000
    ensures VarintLimit(5, 15) == 0x1_0000_0000
    ensures VarintLimit(10, 1) == 0x1_0000_0000_0000_0000
  {
    assert VarintLimit(3, 1) == 128 * VarintLimit(2, 1) == 128 * (128 * 2);
    assert VarintLimit(5, 1) == 128 * (128 * VarintLimit(3, 1));
    assert VarintLimit(7, 1) == 128 * (128 * VarintLimit(5, 1));
    assert VarintLimit(9, 1) == 128 * (128 * VarintLimit(7, 1));
    assert VarintLimit(4, 15) == 128 * (128 * VarintLimit(2, 15));
  }

  function TakeU16(s: seq<byte>): Parsed<u16> {
    VarintLimits();
    match TakeVarint(s, 3, 3) case None => None case Some((v, rest)) => Some((v, rest))
  }

  function TakeU32(s: seq<byte>): Parsed<u32> {
    VarintLimits();
    match TakeVarint(s, 5, 15) case None => None case Some((v, rest)) => Some((v, rest))
  }

  function TakeU64(s: seq<byte>): Parsed<u64> {
    VarintLimits();
    match TakeVarint(s, 10, 1) case None => None case Some((v, rest)) => Some((v, rest))
  }

  lemma U16RoundTrip(n: u16, rest: seq<byte>)
    ensures TakeU16(Varint(n) + rest) == Some((n, rest))
    ensures |Varint(n)| <= 3
  {
    VarintLimits();
    VarintRoundTrip(n, rest, 3, 3);
    VarintLength(n);
  }

  lemma U32RoundTrip(n: u32, rest: seq<byte>)
    ensures TakeU32(Varint(n) + rest) == Some((n, rest))
  {
    VarintLimits();
    VarintRoundTrip(n, rest, 5, 15);
  }

  lemma U64RoundTrip(n: u64, rest: seq<byte>)
    ensures TakeU64(Varint(n) + rest) == Some((n, rest))
  {
    VarintLimits();
    VarintRoundTrip(n, rest, 10, 1);
  }

  // ---------- one-byte types ----------

  function EncodeBool(b: bool): (s: seq<byte>) {
    [if b then 1 else 0]
  }

  function TakeBool(s: seq<byte>): Parsed<bool> {
    if s == [] || s[0] > 1 then None else Some((s[0] == 1, s[1..]))
  }

  function TakeByte(s: seq<byte>): Parsed<byte> {
    if s == [] then None else Some((s[0], s[1..]))
  }

  function EncodeOptionByte(o: Option<byte>): (s: seq<byte>) {
    match o case None => [0] case Some(b) => [1, b]
  }

  function TakeOptionByte(s: seq<byte>): Parsed<Option<byte>> {
    if s == [] then None
    else if s[0] == 0 then Some((None, s[1..]))
    else if s[0] == 1 && |s| >= 2 then Some((Some(s[1]), s[2..]))
    else None
  }

  lemma OptionByteRoundTrip(o: Option<byte>, rest: seq<byte>)
    ensures TakeOptionByte(EncodeOptionByte(o) + rest) == Some((o, rest))
  {
    var s := EncodeOptionByte(o) + rest;
    assert s[|EncodeOptionByte(o)|..] == rest;
  }

  // ---------- strings ----------

  function EncodeStr(t: seq<scalar>): (s: seq<byte>) {
    Varint(|Utf8Text(t)|) + Utf8Text(t)
  }

  function TakeStr(s: seq<byte>): Parsed<seq<scalar>> {
    match TakeU64(s)
    case None => None
    case Some((n, rest)) =>
      if |rest| < n then None
      else
        match DecodeText(rest[..n])
        case None => None
        case Some(t) => Some((t, rest[n..]))
  }

  lemma StrRoundTrip(t: seq<scalar>, rest: seq<byte>)
    requires |Utf8Text(t)| < 0x1_0000_0000_0000_0000
    ensures TakeStr(EncodeStr(t) + rest) == Some((t, rest))
  {
    var u := Utf8Text(t);
    assert EncodeStr(t) + rest == Varint(|u|) + (u + rest);
    U64RoundTrip(|u|, u + rest);
    assert (u + rest)[..|u|] == u && (u + rest)[|u|..] == rest;
    DecodeTextInvertsUtf8Text(t);
  }
}
