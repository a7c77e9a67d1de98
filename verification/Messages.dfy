/**
 Control messages and their postcard bodies (crates/nosh-proto/src/messages.rs). The derived
 serializers follow the declaration field by field, so a message is a value of the schema `MESSAGE`,
 which lists the variants in declaration order.
 */
module Messages {
  import opened Wire
  import opened Postcard

  datatype Shape =
    | Byte | U16 | U32 | U64 | I32 | Bool | Char | Str | Bytes | OptByte
    | Fixed(size: nat)
    | Many(item: Fields)
    | OneOf(cases: seq<Fields>)

  datatype Fields = NoFields | Field(shape: Shape, others: Fields)

  datatype Value =
    | Num(n: int) | Flag(b: bool) | Glyph(c: scalar) | Text(t: seq<scalar>) | Blob(bytes: seq<byte>)
    | Colour(o: Option<byte>)
    | List(items: seq<seq<Value>>)
    | Case(tag: nat, fields: seq<Value>)

  predicate HasShape(shape: Shape, v: Value)
    decreases shape, 0
  {
    match shape
    case Byte => v.Num? && 0 <= v.n < 0x100
    case U16 => v.Num? && 0 <= v.n < 0x1_0000
    case U32 => v.Num? && 0 <= v.n < 0x1_0000_0000
    case U64 => v.Num? && 0 <= v.n < 0x1_0000_0000_0000_0000
    case I32 => v.Num? && -0x8000_0000 <= v.n < 0x8000_0000
    case Bool => v.Flag?
    case Char => v.Glyph?
    case Str => v.Text?
    case Bytes => v.Blob?
    case OptByte => v.Colour?
    case Fixed(size) => v.Blob? && |v.bytes| == size
    case Many(item) => v.List? && HasItems(item, v.items)
    case OneOf(cases) => v.Case? && v.tag < |cases| && HasFields(cases[v.tag], v.fields)
  }

  predicate HasFields(fields: Fields, vs: seq<Value>)
    decreases fields, 0
  {
    match fields
    case NoFields => vs == []
    case Field(shape, others) => vs != [] && HasShape(shape, vs[0]) && HasFields(others, vs[1..])
  }

  predicate HasItems(item: Fields, items: seq<seq<Value>>)
    decreases item, 1 + |items|
  {
    items == [] || (HasFields(item, items[0]) && HasItems(item, items[1..]))
  }

  // ---------- encoding ----------

  function ZigZag(n: int): (z: nat) {
    if n >= 0 then 2 * n else -2 * n - 1
  }

  function Encode(shape: Shape, v: Value): (s: seq<byte>)
    requires HasShape(shape, v)
    decreases shape, 0
  {
    match shape
    case Byte => [v.n]
    case U16 => Varint(v.n)
    case U32 => Varint(v.n)
    case U64 => Varint(v.n)
    case I32 => Varint(ZigZag(v.n))
    case Bool => EncodeBool(v.b)
    case Char => EncodeStr([v.c])
    case Str => EncodeStr(v.t)
    case Bytes => Varint(|v.bytes|) + v.bytes
    case OptByte => EncodeOptionByte(v.o)
    case Fixed(_) => v.bytes
    case Many(item) => Varint(|v.items|) + EncodeItems(item, v.items)
    case OneOf(cases) => Varint(v.tag) + EncodeFields(cases[v.tag], v.fields)
  }

  function EncodeFields(fields: Fields, vs: seq<Value>): (s: seq<byte>)
    requires HasFields(fields, vs)
    decreases fields, 0
  {
    match fields
    case NoFields => []
    case Field(shape, others) => Encode(shape, vs[0]) + EncodeFields(others, vs[1..])
  }

  function EncodeItems(item: Fields, items: seq<seq<Value>>): (s: seq<byte>)
    requires HasItems(item, items)
    decreases item, 1 + |items|
  {
    if items == [] then [] else EncodeFields(item, items[0]) + EncodeItems(item, items[1..])
  }

  // ---------- decoding ----------

  function TakeI32(s: seq<byte>): Parsed<Value> {
    match TakeU32(s)
    case None => None
    case Some((z, rest)) =>
      var z: int := z;
      Some((Num(if z % 2 == 0 then z / 2 else -((z + 1) / 2)), rest))
  }

  /** A string of at most four bytes, of which the first character counts. */
  function TakeChar(s: seq<byte>): Parsed<Value> {
    match TakeStr(s)
    case None => None
    case Some((t, rest)) => if t == [] || |Utf8Text(t)| > 4 then None else Some((Glyph(t[0]), rest))
  }

  function TakeBytes(s: seq<byte>, n: nat): Parsed<Value> {
    if |s| < n then None else Some((Blob(s[..n]), s[n..]))
  }

  function Take(shape: Shape, s: seq<byte>): (r: Parsed<Value>)
    decreases shape, 0
  {
    match shape
    case Byte => (match TakeByte(s) case None => None case Some((n, rest)) => Some((Num(n), rest)))
    case U16 => (match TakeU16(s) case None => None case Some((n, rest)) => Some((Num(n), rest)))
    case U32 => (match TakeU32(s) case None => None case Some((n, rest)) => Some((Num(n), rest)))
    case U64 => (match TakeU64(s) case None => None case Some((n, rest)) => Some((Num(n), rest)))
    case I32 => TakeI32(s)
    case Bool => (match TakeBool(s) case None => None case Some((b, rest)) => Some((Flag(b), rest)))
    case Char => TakeChar(s)
    case Str => (match TakeStr(s) case None => None case Some((t, rest)) => Some((Text(t), rest)))
    case Bytes => (match TakeU64(s) case None => None case Some((n, rest)) => TakeBytes(rest, n))
    case OptByte => (match TakeOptionByte(s) case None => None case Some((o, rest)) => Some((Colour(o), rest)))
    case Fixed(size) => TakeBytes(s, size)
    case Many(item) =>
      (match TakeU64(s)
       case None => None
       case Some((n, rest)) =>
         match TakeItems(item, n, rest) case None => None case Some((items, rest)) => Some((List(items), rest)))
    case OneOf(cases) =>
      match TakeU32(s)
      case None => None
      case Some((tag, rest)) =>
        if tag >= |cases| then None
        else match TakeFields(cases[tag], rest) case None => None case Some((vs, rest)) => Some((Case(tag, vs), rest))
  }

  function TakeFields(fields: Fields, s: seq<byte>): (r: Parsed<seq<Value>>)
    decreases fields, 0
  {
    match fields
    case NoFields => Some(([], s))
    case Field(shape, others) =>
      match Take(shape, s)
      case None => None
      case Some((v, rest)) =>
        match TakeFields(others, rest) case None => None case Some((vs, rest)) => Some(([v] + vs, rest))
  }

  function TakeItems(item: Fields, n: nat, s: seq<byte>): (r: Parsed<seq<seq<Value>>>)
    decreases item, 1 + n
  {
    if n == 0 then Some(([], s))
    else
      match TakeFields(item, s)
      case None => None
      case Some((v, rest)) =>
        match TakeItems(item, n - 1, rest) case None => None case Some((vs, rest)) => Some(([v] + vs, rest))
  }

  // ---------- round trip ----------

  /** Every value takes at least a byte, and a variant index fits its 32 bits. */
  predicate Sized(shape: Shape)
    decreases shape
  {
    match shape
    case Fixed(size) => size > 0
    case Many(item) => item.Field? && AllSized(item)
    case OneOf(cases) => |cases| <= 0x1_0000_0000 && CasesSized(cases)
    case _ => true
  }

  predicate CasesSized(cases: seq<Fields>)
    decreases cases
  {
    forall i :: 0 <= i < |cases| ==> AllSized(cases[i])
  }

  predicate AllSized(fields: Fields)
    decreases fields
  {
    fields.Field? ==> Sized(fields.shape) && AllSized(fields.others)
  }

  lemma NotEmpty(shape: Shape, v: Value)
    requires Sized(shape) && HasShape(shape, v)
    ensures |Encode(shape, v)| >= 1
  {
    match shape
    case Str => assert |Varint(|Utf8Text(v.t)|)| >= 1;
    case Char => assert |Varint(|Utf8Text([v.c])|)| >= 1;
    case _ =>
  }

  lemma {:induction false} ItemsAreLarge(item: Fields, items: seq<seq<Value>>)
    requires item.Field? && AllSized(item) && HasItems(item, items)
    ensures |EncodeItems(item, items)| >= |items|
    decreases |items|
  {
    if items != [] {
      NotEmpty(item.shape, items[0][0]);
      ItemsAreLarge(item, items[1..]);
    }
  }

  lemma ZigZagRoundTrip(n: int, rest: seq<byte>)
    requires -0x8000_0000 <= n < 0x8000_0000
    ensures TakeI32(Varint(ZigZag(n)) + rest) == Some((Num(n), rest))
  {
    U32RoundTrip(ZigZag(n), rest);
  }

  lemma CharRoundTrip(c: scalar, rest: seq<byte>)
    ensures TakeChar(EncodeStr([c]) + rest) == Some((Glyph(c), rest))
  {
    assert Utf8Text([c]) == Utf8(c);
    StrRoundTrip([c], rest);
  }

  lemma BytesRoundTrip(bytes: seq<byte>, rest: seq<byte>)
    requires |bytes| < 0x1_0000_0000_0000_0000
    ensures Take(Bytes, Varint(|bytes|) + bytes + rest) == Some((Blob(bytes), rest))
    ensures TakeBytes(bytes + rest, |bytes|) == Some((Blob(bytes), rest))
  {
    U64RoundTrip(|bytes|, bytes + rest);
    assert Varint(|bytes|) + bytes + rest == Varint(|bytes|) + (bytes + rest);
    assert (bytes + rest)[..|bytes|] == bytes && (bytes + rest)[|bytes|..] == rest;
  }

  /** Decoding what was encoded yields the value and leaves exactly what followed. */
  lemma {:induction false} RoundTrip(shape: Shape, v: Value, rest: seq<byte>)
    requires Sized(shape) && HasShape(shape, v) && |Encode(shape, v)| < 0x1_0000_0000_0000_0000
    ensures Take(shape, Encode(shape, v) + rest) == Some((v, rest))
    decreases shape, 0
  {
    match shape
    case Byte => assert ([v.n] + rest)[1..] == rest;
    case U16 => U16RoundTrip(v.n, rest);
    case U32 => U32RoundTrip(v.n, rest);
    case U64 => U64RoundTrip(v.n, rest);
    case I32 => ZigZagRoundTrip(v.n, rest);
    case Bool => assert (EncodeBool(v.b) + rest)[1..] == rest;
    case Char => CharRoundTrip(v.c, rest);
    case Str => StrRoundTrip(v.t, rest);
    case Bytes => BytesRoundTrip(v.bytes, rest);
    case OptByte => OptionByteRoundTrip(v.o, rest);
    case Fixed(_) => BytesRoundTrip(v.bytes, rest);
    case Many(item) => ManyRoundTrip(item, v.items, rest);
    case OneOf(cases) => CaseRoundTrip(cases, v, rest);
  }

  lemma {:induction false} ManyRoundTrip(item: Fields, items: seq<seq<Value>>, rest: seq<byte>)
    requires Sized(Many(item)) && HasItems(item, items)
    requires |Encode(Many(item), List(items))| < 0x1_0000_0000_0000_0000
    ensures Take(Many(item), Encode(Many(item), List(items)) + rest) == Some((List(items), rest))
    decreases item, 2 + |items|
  {
    var body := EncodeItems(item, items);
    ItemsAreLarge(item, items);
    U64RoundTrip(|items|, body + rest);
    ItemsRoundTrip(item, items, rest);
    ConcatAssociates(Varint(|items|), body, rest);
  }

  lemma {:induction false} CaseRoundTrip(cases: seq<Fields>, v: Value, rest: seq<byte>)
    requires Sized(OneOf(cases)) && HasShape(OneOf(cases), v)
    requires |Encode(OneOf(cases), v)| < 0x1_0000_0000_0000_0000
    ensures Take(OneOf(cases), Encode(OneOf(cases), v) + rest) == Some((v, rest))
    decreases cases, 1
  {
    var body := EncodeFields(cases[v.tag], v.fields);
    U32RoundTrip(v.tag, body + rest);
    FieldsRoundTrip(cases[v.tag], v.fields, rest);
    ConcatAssociates(Varint(v.tag), body, rest);
    TakeCase(cases, v, Varint(v.tag) + (body + rest), body + rest, rest);
  }

  lemma TakeCase(cases: seq<Fields>, v: Value, s: seq<byte>, after: seq<byte>, rest: seq<byte>)
    requires v.Case? && v.tag < |cases|
    requires TakeU32(s) == Some((v.tag, after)) && TakeFields(cases[v.tag], after) == Some((v.fields, rest))
    ensures Take(OneOf(cases), s) == Some((v, rest))
  {}

  lemma {:induction false} FieldsRoundTrip(fields: Fields, vs: seq<Value>, rest: seq<byte>)
    requires AllSized(fields) && HasFields(fields, vs) && |EncodeFields(fields, vs)| < 0x1_0000_0000_0000_0000
    ensures TakeFields(fields, EncodeFields(fields, vs) + rest) == Some((vs, rest))
    decreases fields, 0
  {
    match fields
    case NoFields => assert [] + rest == rest;
    case Field(shape, others) =>
      var first, more := Encode(shape, vs[0]), EncodeFields(others, vs[1..]);
      RoundTrip(shape, vs[0], more + rest);
      FieldsRoundTrip(others, vs[1..], rest);
      ConcatAssociates(first, more, rest);
      assert [vs[0]] + vs[1..] == vs;
  }

  lemma TakeOneMore(item: Fields, items: seq<seq<Value>>, s: seq<byte>, after: seq<byte>, rest: seq<byte>)
    requires items != [] && TakeFields(item, s) == Some((items[0], after))
    requires TakeItems(item, |items| - 1, after) == Some((items[1..], rest))
    ensures TakeItems(item, |items|, s) == Some((items, rest))
  {
    assert [items[0]] + items[1..] == items;
  }

  lemma {:induction false} ItemsRoundTrip(item: Fields, items: seq<seq<Value>>, rest: seq<byte>)
    requires AllSized(item) && HasItems(item, items) && |EncodeItems(item, items)| < 0x1_0000_0000_0000_0000
    ensures TakeItems(item, |items|, EncodeItems(item, items) + rest) == Some((items, rest))
    decreases item, 1 + |items|
  {
    if items == [] {
      assert [] + rest == rest;
    } else {
      var first, more := EncodeFields(item, items[0]), EncodeItems(item, items[1..]);
      FieldsRoundTrip(item, items[0], more + rest);
      ItemsRoundTrip(item, items[1..], rest);
      ConcatAssociates(first, more, rest);
      TakeOneMore(item, items, first + (more + rest), more + rest, rest);
    }
  }

  /**
   Appending variants is backward compatible: old messages keep their bytes, and whatever an old
   peer decodes a newer one decodes to the same value.
   */
  lemma AppendedVariantsAgree(cases: seq<Fields>, more: seq<Fields>, v: Value, s: seq<byte>)
    ensures HasShape(OneOf(cases), v)
            ==> HasShape(OneOf(cases + more), v) && Encode(OneOf(cases + more), v) == Encode(OneOf(cases), v)
    ensures Take(OneOf(cases), s).Some? ==> Take(OneOf(cases + more), s) == Take(OneOf(cases), s)
  {
    if v.Case? && v.tag < |cases| {
      assert (cases + more)[v.tag] == cases[v.tag];
    }
    match TakeU32(s)
    case None =>
    case Some((tag, _)) =>
      if tag < |cases| {
        assert (cases + more)[tag] == cases[tag];
      }
  }

  // ---------- the messages ----------

  function Single(a: Shape): Fields { Field(a, NoFields) }
  function Pair(a: Shape, b: Shape): Fields { Field(a, Single(b)) }
  function Triple(a: Shape, b: Shape, c: Shape): Fields { Field(a, Pair(b, c)) }
  function Quad(a: Shape, b: Shape, c: Shape, d: Shape): Fields { Field(a, Triple(b, c, d)) }

  const TOKEN := Fixed(16)
  const NONCE := Fixed(32)
  const CHANNEL_TYPE := OneOf([NoFields, NoFields, NoFields, NoFields])
  const TERMINAL_CONTROL := OneOf([Pair(Bytes, Bytes), Single(Str), Single(Str)])
  const SCROLLBACK_LINE := Pair(U16, Many(Quad(Char, Byte, OptByte, OptByte)))

  const SESSION_CASES := [
    Quad(Str, U16, U16, Many(Pair(Str, Str))),                  // SessionOpen
    Single(Bytes),                                              // PtyData
    Pair(U16, U16),                                             // Resize
    Pair(I32, Str),                                             // SessionClose
    Single(TOKEN),                                              // SessionOpened
    Pair(TOKEN, U64),                                           // Reattach
    Triple(TOKEN, U64, Bool),                                   // ReattachOk
    NoFields,                                                   // ReattachErr
    Single(U64),                                                // Ack
    Single(TERMINAL_CONTROL)                                    // TerminalControl
  ]

  const CHANNEL_CASES := [
    Pair(U32, CHANNEL_TYPE),                                    // ChannelOpen
    Single(U32),                                                // ChannelAccept
    Single(U32),                                                // ChannelReject
    Pair(U32, U64),                                             // ChannelCredit
    Single(U32),                                                // ChannelClose
    Triple(U32, U64, U32),                                      // ScrollbackRequest
    Field(U32, Quad(U64, U64, U64, Many(SCROLLBACK_LINE))),     // ScrollbackPage
    Pair(U32, U64)                                              // ScrollbackCredit
  ]

  const AUTH_CASES := [
    Triple(NONCE, Bytes, NONCE),                                // InnerAuthChallenge
    Triple(NONCE, Bytes, Bytes),                                // InnerAuthResponse
    Single(Bytes),                                              // InnerAuthComplete
    NoFields                                                    // InnerAuthFail
  ]

  const MESSAGE := OneOf(SESSION_CASES + CHANNEL_CASES + AUTH_CASES)

  /** `ReattachErr`, the shortest message, as the witness. */
  type Message = m: Value | HasShape(MESSAGE, m) witness Case(7, [])

  lemma MessageIsSized()
    ensures Sized(MESSAGE)
  {
    assert CasesSized(SESSION_CASES);
    assert CasesSized(CHANNEL_CASES);
    assert CasesSized(AUTH_CASES);
  }

  function MessageBody(m: Message): (s: seq<byte>) {
    Encode(MESSAGE, m)
  }

  /** `postcard::from_bytes`, which ignores bytes after the value. */
  function DecodeMessage(body: seq<byte>): (r: Option<Value>) {
    match Take(MESSAGE, body) case None => None case Some((m, _)) => Some(m)
  }

  /** What is decoded from any bytes is a message. */
  lemma {:induction false} TakeHasShape(shape: Shape, s: seq<byte>)
    ensures Take(shape, s).Some? ==> HasShape(shape, Take(shape, s).value.0)
    decreases shape, 0
  {
    match shape
    case Many(item) =>
      match TakeU64(s) {
        case None =>
        case Some((n, rest)) => TakeHasItems(item, n, rest);
      }
    case OneOf(cases) =>
      match TakeU32(s) {
        case None =>
        case Some((tag, rest)) => if tag < |cases| { TakeHasFields(cases[tag], rest); }
      }
    case _ =>
  }

  lemma {:induction false} TakeHasFields(fields: Fields, s: seq<byte>)
    ensures TakeFields(fields, s).Some? ==> HasFields(fields, TakeFields(fields, s).value.0)
    decreases fields, 0
  {
    match fields
    case NoFields =>
    case Field(shape, others) =>
      TakeHasShape(shape, s);
      match Take(shape, s) {
        case None =>
        case Some((_, rest)) => TakeHasFields(others, rest);
      }
  }

  lemma {:induction false} TakeHasItems(item: Fields, n: nat, s: seq<byte>)
    ensures TakeItems(item, n, s).Some? ==> HasItems(item, TakeItems(item, n, s).value.0)
    decreases item, 1 + n
  {
    if n > 0 {
      TakeHasFields(item, s);
      match TakeFields(item, s) {
        case None =>
        case Some((_, rest)) => TakeHasItems(item, n - 1, rest);
      }
    }
  }

  lemma MessageRoundTrip(m: Message, rest: seq<byte>)
    requires |MessageBody(m)| < 0x1_0000_0000_0000_0000
    ensures DecodeMessage(MessageBody(m) + rest) == Some(m)
  {
    MessageIsSized();
    RoundTrip(MESSAGE, m, rest);
  }

  // ---------- the bytes on the wire ----------

  /** Every message begins with the number of its variant in declaration order, from 0 to 21, in one byte. */
  lemma FirstByteIsVariant(m: Message)
    ensures m.tag < 22 && MessageBody(m) != [] && MessageBody(m)[0] == m.tag
  {
    assert |SESSION_CASES + CHANNEL_CASES + AUTH_CASES| == 22;
    assert Varint(m.tag) == [m.tag];
  }

  /** The messages that reattaching rests on: an acknowledgement, a reattach and its refusal. */
  lemma ReattachBytes(token: seq<byte>, n: u64)
    requires |token| == 16
    ensures HasShape(MESSAGE, Case(8, [Num(n)])) && MessageBody(Case(8, [Num(n)])) == [8] + Varint(n)
    ensures HasShape(MESSAGE, Case(5, [Blob(token), Num(n)])) && MessageBody(Case(5, [Blob(token), Num(n)])) == [5] + token + Varint(n)
    ensures HasShape(MESSAGE, Case(7, [])) && MessageBody(Case(7, [])) == [7]
  {
    var cases := SESSION_CASES + CHANNEL_CASES + AUTH_CASES;
    assert cases[8] == Single(U64) && cases[5] == Pair(TOKEN, U64) && cases[7] == NoFields;
    var ack, re := [Num(n)], [Blob(token), Num(n)];
    assert ack[1..] == [] && re[1..] == ack && re[1..][1..] == [];
    assert EncodeFields(NoFields, []) == [];
    assert HasFields(Single(U64), ack) && EncodeFields(Single(U64), ack) == Varint(n) + [] == Varint(n);
    assert HasFields(Pair(TOKEN, U64), re) && EncodeFields(Pair(TOKEN, U64), re) == token + Varint(n);
    assert Varint(8) == [8] && Varint(5) == [5] && Varint(7) == [7];
  }
}
