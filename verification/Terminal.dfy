/**
 A byte-driven terminal: UTF-8 text, cursor position (CUP, section 8.3.21 of ECMA-48),
 erase in page (ED, section 8.3.39) and select graphic rendition (SGR, section 8.3.117).
 Text written in the last column leaves the cursor past it; the next character wraps.
 Characters take as many columns as the terminal's own width table says.
 */
module Terminal {
  import opened Wire
  import opened Widths

  const ESC: byte := 0x1B

  datatype Rendition = Rendition(bold: bool, italic: bool, underline: bool, reverse: bool,
                                 fg: Option<byte>, bg: Option<byte>)

  datatype Glyph = Glyph(ch: scalar, look: Rendition)

  datatype Parser = Ground | Escape | Csi(params: seq<nat>) | Tail(need: nat, acc: nat)

  /** `puts` counts the characters that took up cells. */
  datatype Term = Term(cols: nat, rows: nat, grid: seq<seq<Glyph>>, row: nat, col: nat,
                       look: Rendition, parser: Parser, puts: nat, widths: WidthTable)

  const PLAIN: Rendition := Rendition(false, false, false, false, None, None)
  const EMPTY: Glyph := Glyph(32, PLAIN)

  ghost predicate WellFormed(t: Term) {
    |t.grid| == t.rows && (forall r :: 0 <= r < t.rows ==> |t.grid[r]| == t.cols)
  }

  function EmptyGrid(cols: nat, rows: nat): seq<seq<Glyph>> {
    seq(rows, _ => seq(cols, _ => EMPTY))
  }

  // ---------- the operations ----------

  function Wrap(t: Term): Term {
    if t.row + 1 < t.rows then t.(row := t.row + 1, col := 0)
    else if t.grid == [] then t
    else t.(grid := t.grid[1..] + [seq(t.cols, _ => EMPTY)], col := 0)
  }

  /** The glyph in the first of two cells; it does not start in the last column. */
  function PutWide(t: Term, ch: scalar): Term {
    var u := if t.col + 1 < t.cols then t else Wrap(t);
    if u.row < |u.grid| && u.col + 1 < |u.grid[u.row]| then
      var row := u.grid[u.row][u.col := Glyph(ch, u.look)][u.col + 1 := Glyph(32, u.look)];
      u.(grid := u.grid[u.row := row], col := u.col + 2, puts := u.puts + 1)
    else u
  }

  function PutNarrow(t: Term, ch: scalar): Term {
    var u := if t.col < t.cols then t else Wrap(t);
    if u.row < |u.grid| && u.col < |u.grid[u.row]| then
      u.(grid := u.grid[u.row := u.grid[u.row][u.col := Glyph(ch, u.look)]], col := u.col + 1, puts := u.puts + 1)
    else u
  }

  /** A character of no width joins the glyph before it and moves nothing. */
  function Put(t: Term, ch: scalar): Term {
    if IsNarrow(t.widths, ch) then PutNarrow(t, ch)
    else if IsWide(t.widths, ch) then PutWide(t, ch)
    else t
  }

  /** A one-based coordinate, 0 standing for 1, clamped into `0..size`. */
  function Coordinate(n: nat, size: nat): nat {
    var k := if n == 0 then 0 else n - 1;
    if k < size then k else SaturatingSub(size, 1)
  }

  function MoveCursor(t: Term, params: seq<nat>): Term {
    t.(row := Coordinate(if |params| > 0 then params[0] else 0, t.rows),
       col := Coordinate(if |params| > 1 then params[1] else 0, t.cols))
  }

  function EraseAll(t: Term): Term {
    t.(grid := EmptyGrid(t.cols, t.rows))
  }

  function SelectOne(look: Rendition, p: nat): Rendition {
    if p == 0 then PLAIN
    else if p == 1 then look.(bold := true)
    else if p == 3 then look.(italic := true)
    else if p == 4 then look.(underline := true)
    else if p == 7 then look.(reverse := true)
    else look
  }

  function SelectAll(look: Rendition, ps: seq<nat>): Rendition
    decreases |ps|
  {
    if ps == [] then look
    else if ps[0] == 38 && |ps| >= 3 && ps[1] == 5 && ps[2] < 0x100 then
      SelectAll(look.(fg := Some(ps[2])), ps[3..])
    else if ps[0] == 48 && |ps| >= 3 && ps[1] == 5 && ps[2] < 0x100 then
      SelectAll(look.(bg := Some(ps[2])), ps[3..])
    else SelectAll(SelectOne(look, ps[0]), ps[1..])
  }

  // ---------- the byte parser ----------

  function FeedGround(t: Term, b: byte): Term {
    if b == ESC then t.(parser := Escape)
    else if 0x20 <= b < 0x7F then Put(t, b)
    else if 0xC2 <= b < 0xE0 then t.(parser := Tail(1, b - 0xC0))
    else if 0xE0 <= b < 0xF0 then t.(parser := Tail(2, b - 0xE0))
    else if 0xF0 <= b < 0xF5 then t.(parser := Tail(3, b - 0xF0))
    else t
  }

  function FeedCsi(t: Term, params: seq<nat>, b: byte): Term {
    if 0x30 <= b < 0x3A && params != [] then
      var last := |params| - 1;
      t.(parser := Csi(params[last := 10 * params[last] + (b as int - 0x30)]))
    else if b == 0x3B then t.(parser := Csi(params + [0]))
    else
      var u := t.(parser := Ground);
      if b == 0x48 then MoveCursor(u, params)
      else if b == 0x6D then u.(look := SelectAll(u.look, params))
      else if b == 0x4A && params == [2] then EraseAll(u)
      else u
  }

  function FeedTail(t: Term, need: nat, acc: nat, b: byte): Term {
    if !IsContinuation(b) || need == 0 then t.(parser := Ground)
    else
      var v := 64 * acc + (b as int - 0x80);
      if need > 1 then t.(parser := Tail(need - 1, v))
      else if v < 0x11_0000 && !(0xD800 <= v < 0xE000) then Put(t.(parser := Ground), v)
      else t.(parser := Ground)
  }

  function Feed(t: Term, b: byte): Term {
    match t.parser
    case Ground => FeedGround(t, b)
    case Escape => t.(parser := if b == 0x5B then Csi([0]) else Ground)
    case Csi(params) => FeedCsi(t, params, b)
    case Tail(need, acc) => FeedTail(t, need, acc, b)
  }

  function FeedAll(t: Term, bs: seq<byte>): Term
    decreases |bs|
  {
    if bs == [] then t else FeedAll(Feed(t, bs[0]), bs[1..])
  }

  lemma {:induction false} FeedConcat(t: Term, a: seq<byte>, b: seq<byte>)
    ensures FeedAll(t, a + b) == FeedAll(FeedAll(t, a), b)
    decreases |a|
  {
    if a == [] {
      assert a + b == b;
    } else {
      FeedConcat(Feed(t, a[0]), a[1..], b);
      assert (a + b)[1..] == a[1..] + b;
    }
  }

  lemma FeedOne(t: Term, b: byte)
    ensures FeedAll(t, [b]) == Feed(t, b)
  {
    assert FeedAll(t, [b]) == FeedAll(Feed(t, b), []);
  }

  // ---------- what the client writes ----------

  /** A number in decimal digits. */
  function Decimal(n: nat): (s: seq<byte>) {
    if n < 10 then [0x30 + n] else Decimal(n / 10) + [0x30 + n % 10]
  }

  function Join(ps: seq<nat>): (s: seq<byte>) {
    if ps == [] then []
    else if |ps| == 1 then Decimal(ps[0])
    else Join(ps[..|ps| - 1]) + ([0x3B] + Decimal(ps[|ps| - 1]))
  }

  function CsiBytes(ps: seq<nat>, final: byte): (s: seq<byte>) {
    [ESC, 0x5B] + Join(ps) + [final]
  }

  /** crossterm's `MoveTo`: one-based, row first; the addition is on `u16` and wraps. */
  function MoveToBytes(row: u16, col: u16): (s: seq<byte>) {
    CsiBytes([(row + 1) % 0x1_0000, (col + 1) % 0x1_0000], 0x48)
  }

  function Bit(style: byte, mask: nat): bool
    requires mask > 0
  {
    style / mask % 2 == 1
  }

  function LookOf(style: byte, fg: Option<byte>, bg: Option<byte>): Rendition {
    Rendition(Bit(style, 1), Bit(style, 2), Bit(style, 4), Bit(style, 8), fg, bg)
  }

  function When(on: bool, p: nat): seq<nat> {
    if on then [p] else []
  }

  function Colour(base: nat, c: Option<byte>): seq<nat> {
    match c case None => [] case Some(n) => [base, 5, n]
  }

  function SgrParams(style: byte, fg: Option<byte>, bg: Option<byte>): seq<nat> {
    [0] + (When(Bit(style, 1), 1) + (When(Bit(style, 2), 3) + (When(Bit(style, 4), 4) +
    (When(Bit(style, 8), 7) + (Colour(38, fg) + Colour(48, bg))))))
  }

  function SgrBytes(style: byte, fg: Option<byte>, bg: Option<byte>): (s: seq<byte>) {
    CsiBytes(SgrParams(style, fg, bg), 0x6D)
  }

  // ---------- and what the terminal makes of it ----------

  lemma {:induction false} FeedDecimal(t: Term, ps: seq<nat>, n: nat)
    requires t.parser == Csi(ps + [0])
    ensures FeedAll(t, Decimal(n)) == t.(parser := Csi(ps + [n]))
  {
    if n < 10 {
      FeedOne(t, 0x30 + n);
      assert (ps + [0])[|ps| := n] == ps + [n];
    } else {
      FeedDecimal(t, ps, n / 10);
      var u := t.(parser := Csi(ps + [n / 10]));
      FeedConcat(t, Decimal(n / 10), [0x30 + n % 10]);
      FeedOne(u, 0x30 + n % 10);
      assert (ps + [n / 10])[|ps| := n] == ps + [n];
    }
  }

  lemma {:induction false} FeedJoin(t: Term, ps: seq<nat>)
    requires t.parser == Csi([0]) && ps != []
    ensures FeedAll(t, Join(ps)) == t.(parser := Csi(ps))
    decreases |ps|
  {
    if |ps| == 1 {
      assert [] + [0] == [0] && [] + [ps[0]] == ps;
      FeedDecimal(t, [], ps[0]);
    } else {
      var front, last := ps[..|ps| - 1], ps[|ps| - 1];
      FeedJoin(t, front);
      var u := t.(parser := Csi(front));
      FeedConcat(t, Join(front), [0x3B] + Decimal(last));
      FeedConcat(u, [0x3B], Decimal(last));
      FeedOne(u, 0x3B);
      FeedDecimal(u.(parser := Csi(front + [0])), front, last);
      assert front + [last] == ps;
    }
  }

  /** A control sequence acts with exactly the parameters it was written with. */
  lemma FeedCsiBytes(t: Term, ps: seq<nat>, final: byte)
    requires t.parser == Ground && ps != []
    ensures FeedAll(t, CsiBytes(ps, final)) == FeedCsi(t.(parser := Csi(ps)), ps, final)
  {
    var u := t.(parser := Csi([0]));
    FeedConcat(t, [ESC, 0x5B] + Join(ps), [final]);
    FeedConcat(t, [ESC, 0x5B], Join(ps));
    assert [ESC, 0x5B][1..] == [0x5B];
    FeedOne(t.(parser := Escape), 0x5B);
    FeedJoin(u, ps);
    FeedOne(u.(parser := Csi(ps)), final);
  }

  /** `MoveTo` reaches its target, or the nearest cell; coordinate 65535 wraps to the first. */
  lemma FeedMoveTo(t: Term, row: u16, col: u16)
    requires t.parser == Ground
    ensures FeedAll(t, MoveToBytes(row, col)) ==
            t.(row := Coordinate((row + 1) % 0x1_0000, t.rows), col := Coordinate((col + 1) % 0x1_0000, t.cols))
    ensures row < t.rows && row < 0xFFFF && col < t.cols && col < 0xFFFF ==>
            FeedAll(t, MoveToBytes(row, col)) == t.(row := row, col := col)
  {
    FeedCsiBytes(t, [(row + 1) % 0x1_0000, (col + 1) % 0x1_0000], 0x48);
  }

  lemma SelectWhen(look: Rendition, on: bool, p: nat, rest: seq<nat>)
    requires p < 38
    ensures SelectAll(look, When(on, p) + rest) == SelectAll(if on then SelectOne(look, p) else look, rest)
  {
    var s := When(on, p) + rest;
    if on { assert s[1..] == rest; } else { assert s == rest; }
  }

  lemma SelectFg(look: Rendition, fg: Option<byte>, rest: seq<nat>)
    ensures SelectAll(look, Colour(38, fg) + rest) == SelectAll(if fg.Some? then look.(fg := fg) else look, rest)
  {
    var s := Colour(38, fg) + rest;
    assert s[|Colour(38, fg)|..] == rest;
  }

  lemma SelectBg(look: Rendition, bg: Option<byte>, rest: seq<nat>)
    ensures SelectAll(look, Colour(48, bg) + rest) == SelectAll(if bg.Some? then look.(bg := bg) else look, rest)
  {
    var s := Colour(48, bg) + rest;
    assert s[|Colour(48, bg)|..] == rest;
  }

  lemma SelectAttributes(b: bool, i: bool, u: bool, r: bool, rest: seq<nat>)
    ensures SelectAll(PLAIN, When(b, 1) + (When(i, 3) + (When(u, 4) + (When(r, 7) + rest)))) ==
            SelectAll(Rendition(b, i, u, r, None, None), rest)
  {
    SelectWhen(PLAIN, b, 1, When(i, 3) + (When(u, 4) + (When(r, 7) + rest)));
    SelectWhen(PLAIN.(bold := b), i, 3, When(u, 4) + (When(r, 7) + rest));
    SelectWhen(PLAIN.(bold := b, italic := i), u, 4, When(r, 7) + rest);
    SelectWhen(PLAIN.(bold := b, italic := i, underline := u), r, 7, rest);
  }

  lemma SelectColours(look: Rendition, fg: Option<byte>, bg: Option<byte>)
    requires look.fg == None && look.bg == None
    ensures SelectAll(look, Colour(38, fg) + Colour(48, bg)) == look.(fg := fg, bg := bg)
  {
    SelectFg(look, fg, Colour(48, bg));
    SelectBg(look.(fg := fg), bg, []);
    assert Colour(48, bg) + [] == Colour(48, bg);
  }

  lemma SelectReset(look: Rendition, rest: seq<nat>)
    ensures SelectAll(look, [0] + rest) == SelectAll(PLAIN, rest)
  {
    assert ([0] + rest)[1..] == rest;
  }

  lemma SelectSgr(look: Rendition, style: byte, fg: Option<byte>, bg: Option<byte>)
    ensures SelectAll(look, SgrParams(style, fg, bg)) == LookOf(style, fg, bg)
  {
    var b, i, u, r := Bit(style, 1), Bit(style, 2), Bit(style, 4), Bit(style, 8);
    var rest := Colour(38, fg) + Colour(48, bg);
    SelectReset(look, When(b, 1) + (When(i, 3) + (When(u, 4) + (When(r, 7) + rest))));
    SelectAttributes(b, i, u, r, rest);
    SelectColours(Rendition(b, i, u, r, None, None), fg, bg);
  }

  /** The rendition selected is the one written, whatever was selected before. */
  lemma FeedSgr(t: Term, style: byte, fg: Option<byte>, bg: Option<byte>)
    requires t.parser == Ground
    ensures FeedAll(t, SgrBytes(style, fg, bg)) == t.(look := LookOf(style, fg, bg))
  {
    FeedCsiBytes(t, SgrParams(style, fg, bg), 0x6D);
    SelectSgr(t.look, style, fg, bg);
  }

  function One(on: bool): nat {
    if on then 1 else 0
  }

  /** The style byte with these attributes and these reserved bits. */
  function Union(bold: bool, italic: bool, underline: bool, reverse: bool, reserved: nat): (style: nat) {
    One(bold) + 2 * (One(italic) + 2 * (One(underline) + 2 * (One(reverse) + 2 * reserved)))
  }

  lemma Halve(on: bool, rest: nat)
    ensures (One(on) + 2 * rest) % 2 == One(on) && (One(on) + 2 * rest) / 2 == rest
  {}

  lemma BitsOfUnion(bold: bool, italic: bool, underline: bool, reverse: bool, reserved: nat)
    requires reserved < 16
    ensures var style := Union(bold, italic, underline, reverse, reserved);
            && style < 0x100
            && Bit(style, 1) == bold && Bit(style, 2) == italic && Bit(style, 4) == underline && Bit(style, 8) == reverse
  {
    var r := One(reverse) + 2 * reserved;
    var u := One(underline) + 2 * r;
    var i := One(italic) + 2 * u;
    Halve(bold, i);
    Halve(italic, u);
    Halve(underline, r);
    Halve(reverse, reserved);
    var style := Union(bold, italic, underline, reverse, reserved);
    assert style / 4 == style / 2 / 2 && style / 8 == style / 4 / 2;
  }

  /**
   For any union of attributes, whatever the reserved bits: after the reset the parameters are 1 for
   bold, 3 for italic, 4 for underline and 7 for reverse, then the indexed colours, and nothing else.
   */
  lemma UnionOfStyles(bold: bool, italic: bool, underline: bool, reverse: bool, reserved: nat, fg: Option<byte>, bg: Option<byte>)
    requires reserved < 16
    ensures var style := Union(bold, italic, underline, reverse, reserved);
            && style < 0x100 && LookOf(style, fg, bg) == Rendition(bold, italic, underline, reverse, fg, bg)
            && SgrParams(style, fg, bg) ==
               [0] + ((if bold then [1] else []) + ((if italic then [3] else []) + ((if underline then [4] else [])
               + ((if reverse then [7] else []) + ((if fg.Some? then [38, 5, fg.value] else []) + (if bg.Some? then [48, 5, bg.value] else []))))))
  {
    BitsOfUnion(bold, italic, underline, reverse, reserved);
  }

  lemma FeedUtf8(t: Term, ch: scalar)
    requires t.parser == Ground && Printable(ch)
    ensures FeedAll(t, Utf8(ch)) == Put(t, ch)
  {
    var s := Utf8(ch);
    FeedOne(t, s[0]);
    if ch >= 0x80 {
      var u := Feed(t, s[0]);
      assert FeedAll(t, s) == FeedAll(u, s[1..]);
      if ch < 0x800 {
        FeedTwo(t, u, ch, s);
      } else if ch < 0x1_0000 {
        FeedThree(t, u, ch, s);
      } else {
        FeedFour(t, u, ch, s);
      }
    } else {
      assert s == [s[0]];
    }
  }

  /** The last byte of a character completes it. */
  lemma LastTail(t: Term, u: Term, ch: scalar, b: byte)
    requires t.parser == Ground && u == t.(parser := Tail(1, ch / 64)) && b == 0x80 + ch % 64
    ensures Feed(u, b) == Put(t, ch)
  {
    var acc: nat := ch / 64;
    var v: int := 64 * acc + (b as int - 0x80);
    assert v == ch;
    assert u.(parser := Ground) == t;
    CompleteTail(u, acc, b, ch);
  }

  lemma CompleteTail(u: Term, acc: nat, b: byte, v: scalar)
    requires IsContinuation(b) && v == 64 * acc + (b as int - 0x80)
    ensures FeedTail(u, 1, acc, b) == Put(u.(parser := Ground), v)
  {}

  lemma FeedTwo(t: Term, u: Term, ch: scalar, s: seq<byte>)
    requires 0x80 <= ch < 0x800 && s == Utf8(ch) && u == t.(parser := Tail(1, ch / 64)) && t.parser == Ground
    ensures FeedAll(u, s[1..]) == Put(t, ch)
  {
    assert s[1..] == [s[1]];
    FeedOne(u, s[1]);
    LastTail(t, u, ch, s[1]);
  }

  lemma FeedThree(t: Term, u: Term, ch: scalar, s: seq<byte>)
    requires 0x800 <= ch < 0x1_0000 && s == Utf8(ch) && u == t.(parser := Tail(2, ch / 4096)) && t.parser == Ground
    ensures FeedAll(u, s[1..]) == Put(t, ch)
  {
    var u1 := t.(parser := Tail(1, ch / 64));
    assert ch / 64 / 64 == ch / 4096;
    assert Feed(u, s[1]) == u1;
    assert s[1..][1..] == [s[2]];
    FeedOne(u1, s[2]);
    LastTail(t, u1, ch, s[2]);
  }

  lemma FeedFour(t: Term, u: Term, ch: scalar, s: seq<byte>)
    requires 0x1_0000 <= ch && s == Utf8(ch) && u == t.(parser := Tail(3, ch / 262144)) && t.parser == Ground
    ensures FeedAll(u, s[1..]) == Put(t, ch)
  {
    var u1 := t.(parser := Tail(2, ch / 4096));
    var u2 := t.(parser := Tail(1, ch / 64));
    assert ch / 64 / 64 == ch / 4096;
    assert ch / 4096 / 64 == ch / 262144;
    assert Feed(u, s[1]) == u1;
    assert Feed(u1, s[2]) == u2;
    assert s[1..][1..] == s[2..] && s[2..][1..] == [s[3]];
    FeedOne(u2, s[3]);
    LastTail(t, u2, ch, s[3]);
  }
}
