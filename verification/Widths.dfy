/** Display widths of characters, as the `unicode-width` tables give them. */
module Widths {
  import opened Wire

  /** The characters of width 1 and of width 2; all others take no column. */
  datatype WidthTable = WidthTable(narrow: set<scalar>, double: set<scalar>)

  predicate IsNarrow(w: WidthTable, c: scalar) {
    c in w.narrow
  }

  predicate IsWide(w: WidthTable, c: scalar) {
    c in w.double && c !in w.narrow
  }

  predicate AllNarrow(w: WidthTable, t: seq<scalar>) {
    forall i :: 0 <= i < |t| ==> IsNarrow(w, t[i])
  }

  /** Not a control character. */
  predicate Printable(ch: scalar) {
    0x20 <= ch && !(0x7F <= ch < 0xA0)
  }

  /** The table has no control characters, and a space is one column wide. */
  ghost predicate SaneWidths(w: WidthTable) {
    IsNarrow(w, 0x20) && forall c: scalar :: c in w.narrow || c in w.double ==> Printable(c)
  }
}
