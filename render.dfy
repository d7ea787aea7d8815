/** What `Canvas::draw` writes to the terminal: two character columns per
    cell, coloured with 24-bit escape sequences, one line per row to
    redraw, rows in increasing order. */
module Render {
  import opened Colors
  import opened Grid
  import opened Text

  const Esc: char := 27 as char

  /** The two characters that show a cell's code. */
  function Glyph(c: Color): string {
    match c.code
    case Plain => "  "
    case Boundary => "::"
    case Temp => "##"
  }

  /** The escape sequences selecting background `bg` and foreground `fg`. */
  function Colours(bg: Color, fg: Color): string {
    [Esc] + "[48;2;" + Decimal(bg.r) + ";" + Decimal(bg.g) + ";" + Decimal(bg.b) + "m"
      + [Esc] + "[38;2;" + Decimal(fg.r) + ";" + Decimal(fg.g) + ";" + Decimal(fg.b) + "m"
  }

  /** The text of one cell: its colour as background and the reversed
      colour as foreground; a TEMP cell shows white with a fixed foreground
      sequence whatever its RGB value. */
  function CellText(c: Color): string {
    if c.code == Temp then [Esc] + "[48;2;255;255;255m" + [Esc] + "[38;0;0;0m" + Glyph(c)
    else Colours(c, GetReverse(c)) + Glyph(c)
  }

  /** Every cell's text ends with the glyph of its code. */
  lemma CellTextGlyph(c: Color)
    ensures |CellText(c)| >= 2 && CellText(c)[|CellText(c)| - 2..] == Glyph(c)
  {
  }

  /** A TEMP cell looks the same whatever its RGB value; any other cell's text
      determines its colour's code. */
  lemma CellTextCodes(c: Color, d: Color)
    ensures c.code == Temp && d.code == Temp ==> CellText(c) == CellText(d)
    ensures CellText(c) == CellText(d) ==> c.code == d.code
  {
    CellTextGlyph(c);
    CellTextGlyph(d);
    if CellText(c) == CellText(d) {
      assert Glyph(c) == Glyph(d);
    }
  }

  /** The text of the first n cells of row y. */
  function RowText(g: seq<Color>, w: nat, h: nat, y: nat, n: nat): string
    requires |g| == w * h && y < h && n <= w
  {
    if n == 0 then ""
    else
      IdxInRange(w, h, n - 1, y);
      RowText(g, w, h, y, n - 1) + CellText(g[Idx(w, n - 1, y)])
  }

  /** One more cell at the end of a row's text. */
  lemma RowTextSnoc(g: seq<Color>, w: nat, h: nat, y: nat, n: nat)
    requires |g| == w * h && y < h && n < w
    ensures Idx(w, n, y) < |g|
    ensures RowText(g, w, h, y, n + 1) == RowText(g, w, h, y, n) + CellText(g[Idx(w, n, y)])
  {
    IdxInRange(w, h, n, y);
  }

  /** A row's text depends on the cells of that row only. */
  lemma {:induction false} RowTextLocal(g: seq<Color>, g2: seq<Color>, w: nat, h: nat, y: nat, n: nat)
    requires |g| == w * h && |g2| == w * h && y < h && n <= w
    requires forall x :: 0 <= x < n && Idx(w, x, y) < |g| ==> g[Idx(w, x, y)] == g2[Idx(w, x, y)]
    ensures RowText(g, w, h, y, n) == RowText(g2, w, h, y, n)
  {
    if n > 0 {
      IdxInRange(w, h, n - 1, y);
      RowTextLocal(g, g2, w, h, y, n - 1);
      var c := g[Idx(w, n - 1, y)];
      assert c == g2[Idx(w, n - 1, y)];
      assert RowText(g, w, h, y, n) == RowText(g, w, h, y, n - 1) + CellText(c);
      assert RowText(g2, w, h, y, n) == RowText(g2, w, h, y, n - 1) + CellText(c);
    }
  }

  /** The rows of `s` below n in increasing order: the order in which a
      `std::set` is walked. */
  function Ascending(s: set<nat>, n: nat): (r: seq<nat>)
    ensures forall k :: 0 <= k < |r| ==> r[k] < n
  {
    if n == 0 then []
    else Ascending(s, n - 1) + (if n - 1 in s then [n - 1] else [])
  }

  /** The walk lists the rows of `s` below n, each once, in increasing
      order. */
  lemma {:induction false} AscendingMeaning(s: set<nat>, n: nat)
    ensures forall k :: 0 <= k < |Ascending(s, n)| ==> Ascending(s, n)[k] in s
    ensures forall y :: y < n && y in s ==> y in Ascending(s, n)
    ensures forall k, m :: 0 <= k < m < |Ascending(s, n)| ==> Ascending(s, n)[k] < Ascending(s, n)[m]
  {
    if n > 0 {
      AscendingMeaning(s, n - 1);
    }
  }

  /** One line of output: the terminal row it goes to (counting from 0)
      and its text. */
  datatype Written = Written(row: nat, text: string)

  /** The lines `draw` writes for the rows `rows` of grid g. */
  function Frame(g: seq<Color>, w: nat, h: nat, rows: seq<nat>): (r: seq<Written>)
    requires |g| == w * h && forall k :: 0 <= k < |rows| ==> rows[k] < h
    ensures |r| == |rows|
    ensures forall k :: 0 <= k < |rows| ==> r[k].row == rows[k]
  {
    seq(|rows|, k requires 0 <= k < |rows| => Written(rows[k], RowText(g, w, h, rows[k], w)))
  }

  /** One more row at the end of the frame. */
  lemma FrameSnoc(g: seq<Color>, w: nat, h: nat, rows: seq<nat>, y: nat)
    requires |g| == w * h && y < h && forall k :: 0 <= k < |rows| ==> rows[k] < h
    ensures Frame(g, w, h, rows + [y]) == Frame(g, w, h, rows) + [Written(y, RowText(g, w, h, y, w))]
  {
  }
}
