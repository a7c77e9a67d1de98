/**
 Fixed-width integers, Unicode scalar values and UTF-8 (section 3 of RFC 3629).
 Rust's `String` is modelled as a sequence of scalar values; its bytes are
 `Utf8Text` of that sequence.
 */
module Wire {

  type byte = b: nat | b < 0x100
  type u16 = n: nat | n < 0x1_0000
  type u32 = n: nat | n < 0x1_0000_0000
  type u64 = n: nat | n < 0x1_0000_0000_0000_0000
  type scalar = c: nat | c < 0x11_0000 && !(0xD800 <= c < 0xE000)

  datatype Option<+T> = None | Some(value: T) {
    predicate IsFailure() { None? }
    function PropagateFailure<U>(): Option<U> requires None? { None }
    function Extract(): T requires Some? { value }
  }

  function SaturatingSub(a: nat, b: nat): nat {
    if a < b then 0 else a - b
  }

  // ---------- UTF-8 ----------

  function Utf8(c: scalar): (s: seq<byte>)
    ensures |s| == Utf8Len(c)
  {
    if c < 0x80 then [c]
    else if c < 0x800 then [0xC0 + c / 64, 0x80 + c % 64]
    else if c < 0x1_0000 then [0xE0 + c / 4096, 0x80 + c / 64 % 64, 0x80 + c % 64]
    else [0xF0 + c / 262144, 0x80 + c / 4096 % 64, 0x80 + c / 64 % 64, 0x80 + c % 64]
  }

  /** `char::len_utf8`. */
  function Utf8Len(c: scalar): nat {
    if c < 0x80 then 1 else if c < 0x800 then 2 else if c < 0x1_0000 then 3 else 4
  }

  predicate IsContinuation(b: byte) {
    0x80 <= b < 0xC0
  }

  function Two(a: int, b: int): int { (a - 0xC0) * 64 + (b - 0x80) }
  function Three(a: int, b: int, c: int): int { (a - 0xE0) * 4096 + (b - 0x80) * 64 + (c - 0x80) }
  function Four(a: int, b: int, c: int, d: int): int {
    (a - 0xF0) * 262144 + (b - 0x80) * 4096 + (c - 0x80) * 64 + (d - 0x80)
  }

  /** The first scalar of a byte string, rejecting overlong forms and surrogates. */
  function TakeScalar(s: seq<byte>): (r: Option<(scalar, seq<byte>)>)
    ensures r.Some? ==> |r.value.1| < |s|
  {
    if s == [] then None
    else if s[0] < 0x80 then Some((s[0], s[1..]))
    else if 0xC2 <= s[0] < 0xE0 then
      if |s| >= 2 && IsContinuation(s[1])
      then Some((Two(s[0], s[1]), s[2..])) else None
    else if 0xE0 <= s[0] < 0xF0 then
      if |s| >= 3 && IsContinuation(s[1]) && IsContinuation(s[2]) then
        var v := Three(s[0], s[1], s[2]);
        if v < 0x800 || 0xD800 <= v < 0xE000 then None else Some((v, s[3..]))
      else None
    else if 0xF0 <= s[0] < 0xF5 then
      if |s| >= 4 && IsContinuation(s[1]) && IsContinuation(s[2]) && IsContinuation(s[3]) then
        var v := Four(s[0], s[1], s[2], s[3]);
        if v < 0x1_0000 || 0x11_0000 <= v then None else Some((v, s[4..]))
      else None
    else None
  }

  lemma TakeScalarInvertsUtf8(c: scalar, rest: seq<byte>)
    ensures TakeScalar(Utf8(c) + rest) == Some((c, rest))
  {
    var s := Utf8(c) + rest;
    assert s[|Utf8(c)|..] == rest;
    if 0x1_0000 <= c {
      assert c / 4096 / 64 == c / 262144;
      assert c / 64 / 64 == c / 4096;
    } else if 0x800 <= c {
      assert c / 64 / 64 == c / 4096;
    }
  }

  lemma TwoBytes(a: int, b: int)
    requires 0xC0 <= a && 0x80 <= b < 0xC0
    ensures Two(a, b) / 64 == a - 0xC0 && Two(a, b) % 64 == b - 0x80
  {}

  lemma ThreeBytes(a: int, b: int, c: int)
    requires 0xE0 <= a && 0x80 <= b < 0xC0 && 0x80 <= c < 0xC0
    ensures Three(a, b, c) / 4096 == a - 0xE0
    ensures Three(a, b, c) / 64 % 64 == b - 0x80 && Three(a, b, c) % 64 == c - 0x80
  {
    assert Three(a, b, c) / 64 == (a - 0xE0) * 64 + (b - 0x80);
  }

  lemma FourBytes(a: int, b: int, c: int, d: int)
    requires 0xF0 <= a && 0x80 <= b < 0xC0 && 0x80 <= c < 0xC0 && 0x80 <= d < 0xC0
    ensures Four(a, b, c, d) / 262144 == a - 0xF0 && Four(a, b, c, d) / 4096 % 64 == b - 0x80
    ensures Four(a, b, c, d) / 64 % 64 == c - 0x80 && Four(a, b, c, d) % 64 == d - 0x80
  {
    assert Four(a, b, c, d) / 4096 == (a - 0xF0) * 64 + (b - 0x80);
    assert Four(a, b, c, d) / 64 == (a - 0xF0) * 4096 + (b - 0x80) * 64 + (c - 0x80);
  }

  lemma Utf8InvertsTakeScalar(s: seq<byte>)
    requires TakeScalar(s).Some?
    ensures s == Utf8(TakeScalar(s).value.0) + TakeScalar(s).value.1
  {
    if 0xC2 <= s[0] < 0xE0 {
      TwoBytes(s[0], s[1]);
    } else if 0xE0 <= s[0] < 0xF0 {
      ThreeBytes(s[0], s[1], s[2]);
    } else if 0xF0 <= s[0] {
      FourBytes(s[0], s[1], s[2], s[3]);
    }
  }

  function Utf8Text(t: seq<scalar>): (s: seq<byte>) {
    if t == [] then [] else Utf8(t[0]) + Utf8Text(t[1..])
  }

  /** `core::str::from_utf8`: the whole byte string, or nothing. */
  function DecodeText(s: seq<byte>): (r: Option<seq<scalar>>)
    decreases |s|
  {
    if s == [] then Some([])
    else
      match TakeScalar(s)
      case None => None
      case Some((c, rest)) =>
        match DecodeText(rest)
        case None => None
        case Some(t) => Some([c] + t)
  }

  /** Validation accepts exactly the UTF-8 encodings, and recovers the text. */
  lemma {:induction false} DecodeTextInvertsUtf8Text(t: seq<scalar>)
    ensures DecodeText(Utf8Text(t)) == Some(t)
  {
    if t != [] {
      TakeScalarInvertsUtf8(t[0], Utf8Text(t[1..]));
      DecodeTextInvertsUtf8Text(t[1..]);
      DecodeTextCons(Utf8Text(t), t[0], Utf8Text(t[1..]), t[1..]);
      assert t == [t[0]] + t[1..];
    }
  }

  lemma DecodeTextCons(s: seq<byte>, c: scalar, rest: seq<byte>, t: seq<scalar>)
    requires s != [] && TakeScalar(s) == Some((c, rest)) && DecodeText(rest) == Some(t)
    ensures DecodeText(s) == Some([c] + t)
  {}

  lemma {:induction false} Utf8TextInvertsDecodeText(s: seq<byte>)
    requires DecodeText(s).Some?
    ensures Utf8Text(DecodeText(s).value) == s
    decreases |s|
  {
    if s != [] {
      var (c, rest) := TakeScalar(s).value;
      Utf8InvertsTakeScalar(s);
      Utf8TextInvertsDecodeText(rest);
      assert DecodeText(s).value == [c] + DecodeText(rest).value;
      assert DecodeText(s).value[1..] == DecodeText(rest).value;
    }
  }

  lemma ConcatAssociates<T>(a: seq<T>, b: seq<T>, c: seq<T>)
    ensures a + b + c == a + (b + c)
  {}

  lemma Utf8TextCons(c: scalar, t: seq<scalar>)
    ensures Utf8Text([c] + t) == Utf8(c) + Utf8Text(t)
  {
    assert ([c] + t)[1..] == t;
  }

  lemma {:induction false} Utf8TextConcat(a: seq<scalar>, b: seq<scalar>)
    ensures Utf8Text(a + b) == Utf8Text(a) + Utf8Text(b)
  {
    if a == [] {
      assert a + b == b;
    } else {
      Utf8TextConcat(a[1..], b);
      assert a + b == [a[0]] + (a[1..] + b);
      Utf8TextCons(a[0], a[1..] + b);
      ConcatAssociates(Utf8(a[0]), Utf8Text(a[1..]), Utf8Text(b));
    }
  }
}
