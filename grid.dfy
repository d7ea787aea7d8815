/** The row-major pixel grid as a value: cell indexing, the "rewrite the
    selected cells" specification every canvas operation is stated
    against, and the set of rows an operation touches. */
module Grid {
  import opened Colors
  import opened Geometry

  /** Which cells (column, row) an operation writes. */
  type Selector = (nat, nat) -> bool
  /** What a write does to the cell it hits. */
  type Rewrite = Color -> Color

  /** The array index of cell (x, y) in a grid `w` cells wide. */
  function Idx(w: nat, x: nat, y: nat): nat { y * w + x }

  lemma IdxInRange(w: nat, h: nat, x: nat, y: nat)
    requires x < w && y < h
    ensures Idx(w, x, y) < w * h
    ensures Idx(w, x, y) % w == x && Idx(w, x, y) / w == y
  {
    MulMono(y, h - 1, w);
    assert (h - 1) * w == h * w - w;
    DivBetween(y * w + x, w, y);
  }

  /** Every index of a `w * h` grid is the index of the cell (k % w, k / w). */
  lemma CellOf(w: nat, h: nat, k: nat)
    requires k < w * h
    ensures w > 0 && k % w < w && k / w < h && Idx(w, k % w, k / w) == k
  {
    DivMod(k, w);
    MulMonoIf(h, k / w, w);
  }

  /** Two cells of the grid share an index only when they are the same cell. */
  lemma IdxInjective(w: nat, h: nat, x: nat, y: nat, a: nat, b: nat)
    requires x < w && y < h && a < w && b < h
    ensures Idx(w, x, y) == Idx(w, a, b) <==> x == a && y == b
  {
    IdxInRange(w, h, x, y);
    IdxInRange(w, h, a, b);
  }

  /** The grid `g` with `f` applied to every selected cell. */
  function Update(g: seq<Color>, w: nat, sel: Selector, f: Rewrite): (r: seq<Color>)
    ensures |r| == |g|
  {
    seq(|g|, k requires 0 <= k < |g| => if w > 0 && sel(k % w, k / w) then f(g[k]) else g[k])
  }

  /** A rewrite that does nothing more when repeated: a cell written twice
      holds what it holds after one write. */
  ghost predicate Idempotent(f: Rewrite) {
    forall v: Color :: f(f(v)) == f(v)
  }

  function Painter(c: Color): Rewrite { v => Assign(v, c) }
  /** `reset_temp` on one cell: a TEMP code becomes NONE, RGB stays. */
  function Untemp(v: Color): Color { if v.code == Temp then v.(code := Plain) else v }
  function Untempter(): Rewrite { v => Untemp(v) }
  function Marker(): Rewrite { (v: Color) => v.(code := Boundary) }
  function Everywhere(): Selector { (x: nat, y: nat) => true }

  lemma RewritesIdempotent(c: Color)
    ensures Idempotent(Painter(c)) && Idempotent(Untempter()) && Idempotent(Marker())
  {
    forall v: Color ensures Painter(c)(Painter(c)(v)) == Painter(c)(v) {
      AssignIdempotent(v, c);
    }
  }

  /** Cell (x, y) after an update: rewritten exactly when selected. */
  lemma UpdateAt(g: seq<Color>, w: nat, h: nat, sel: Selector, f: Rewrite, x: nat, y: nat)
    requires |g| == w * h && x < w && y < h
    ensures Idx(w, x, y) < |g|
    ensures Update(g, w, sel, f)[Idx(w, x, y)] == if sel(x, y) then f(g[Idx(w, x, y)]) else g[Idx(w, x, y)]
  {
    IdxInRange(w, h, x, y);
  }

  /** Writing one more cell extends the selection by that cell. */
  lemma UpdateStep(g: seq<Color>, w: nat, h: nat, sel: Selector, sel2: Selector, f: Rewrite, x: nat, y: nat)
    requires |g| == w * h && x < w && y < h && Idempotent(f)
    requires forall a: nat, b: nat :: sel2(a, b) == (sel(a, b) || (a == x && b == y))
    ensures Idx(w, x, y) < |g|
    ensures Update(g, w, sel, f)[Idx(w, x, y) := f(Update(g, w, sel, f)[Idx(w, x, y)])] == Update(g, w, sel2, f)
  {
    var i := Idx(w, x, y);
    IdxInRange(w, h, x, y);
    var u := Update(g, w, sel, f);
    var lhs := u[i := f(u[i])];
    var rhs := Update(g, w, sel2, f);
    forall k | 0 <= k < |g| ensures lhs[k] == rhs[k] {
      UpdateStepIndex(g, w, h, sel, sel2, f, x, y, k);
    }
  }

  lemma UpdateStepIndex(g: seq<Color>, w: nat, h: nat, sel: Selector, sel2: Selector, f: Rewrite, x: nat, y: nat, k: nat)
    requires |g| == w * h && x < w && y < h && Idempotent(f) && k < |g|
    requires forall a: nat, b: nat :: sel2(a, b) == (sel(a, b) || (a == x && b == y))
    ensures Idx(w, x, y) < |g|
    ensures Update(g, w, sel, f)[Idx(w, x, y) := f(Update(g, w, sel, f)[Idx(w, x, y)])][k] == Update(g, w, sel2, f)[k]
  {
    CellOf(w, h, k);
    var a, b := k % w, k / w;
    UpdateStepAt(g, w, h, sel, sel2, f, x, y, a, b);
  }

  /** UpdateStep at the cell (a, b). */
  lemma UpdateStepAt(g: seq<Color>, w: nat, h: nat, sel: Selector, sel2: Selector, f: Rewrite, x: nat, y: nat, a: nat, b: nat)
    requires |g| == w * h && x < w && y < h && a < w && b < h && Idempotent(f)
    requires sel2(a, b) == (sel(a, b) || (a == x && b == y))
    ensures Idx(w, x, y) < |g| && Idx(w, a, b) < |g|
    ensures Update(g, w, sel, f)[Idx(w, x, y) := f(Update(g, w, sel, f)[Idx(w, x, y)])][Idx(w, a, b)] == Update(g, w, sel2, f)[Idx(w, a, b)]
  {
    UpdateAt(g, w, h, sel, f, x, y);
    UpdateAt(g, w, h, sel, f, a, b);
    UpdateAt(g, w, h, sel2, f, a, b);
    IdxInjective(w, h, x, y, a, b);
  }

  /** Selections that agree cell by cell give the same grid. */
  lemma UpdateSame(g: seq<Color>, w: nat, sel: Selector, sel2: Selector, f: Rewrite)
    requires forall a: nat, b: nat :: sel(a, b) == sel2(a, b)
    ensures Update(g, w, sel, f) == Update(g, w, sel2, f)
  {
  }

  /** The cells either selection picks. */
  function Union(a: Selector, b: Selector): Selector {
    (x: nat, y: nat) => a(x, y) || b(x, y)
  }

  /** The selection of no cell. */
  function Nothing(): Selector { (x: nat, y: nat) => false }

  lemma UpdateNothing(g: seq<Color>, w: nat, f: Rewrite)
    ensures Update(g, w, Nothing(), f) == g
  {
  }

  /** Two updates with an idempotent rewrite make one update of both selections. */
  lemma UpdateUnion(g: seq<Color>, w: nat, a: Selector, b: Selector, f: Rewrite)
    requires Idempotent(f)
    ensures Update(Update(g, w, a, f), w, b, f) == Update(g, w, Union(a, b), f)
  {
  }

  /** Selections that agree on every cell of a `w * h` grid give the same update. */
  lemma UpdateSameInGrid(g: seq<Color>, w: nat, h: nat, sel: Selector, sel2: Selector, f: Rewrite)
    requires |g| == w * h
    requires forall a: nat, b: nat :: a < w && b < h ==> sel(a, b) == sel2(a, b)
    ensures Update(g, w, sel, f) == Update(g, w, sel2, f)
  {
    forall k | 0 <= k < |g| ensures Update(g, w, sel, f)[k] == Update(g, w, sel2, f)[k] {
      CellOf(w, h, k);
    }
  }

  /** The selected cells a column-by-column scan of a grid `h` rows high
      has visited before reaching cell (i, j). */
  function ColumnsBefore(sel: Selector, h: nat, i: nat, j: nat): Selector {
    (x: nat, y: nat) => sel(x, y) && y < h && (x < i || (x == i && y < j))
  }

  /** The rows of a `w * h` grid in which the selection holds a cell. */
  function Rows(w: nat, h: nat, sel: Selector): set<nat> {
    set y: nat | y < h && RowHit(w, sel, y)
  }

  /** Row y holds a selected cell. */
  predicate RowHit(w: nat, sel: Selector, y: nat) {
    exists x: nat :: x < w && Selects(sel, x, y)
  }

  predicate Selects(sel: Selector, x: nat, y: nat) { sel(x, y) }

  lemma RowsStep(w: nat, h: nat, sel: Selector, sel2: Selector, x: nat, y: nat)
    requires x < w && y < h
    requires forall a: nat, b: nat :: sel2(a, b) == (sel(a, b) || (a == x && b == y))
    ensures Rows(w, h, sel2) == Rows(w, h, sel) + {y}
  {
    assert Selects(sel2, x, y);
    forall b: nat ensures RowHit(w, sel2, b) <==> RowHit(w, sel, b) || b == y {
      if RowHit(w, sel, b) {
        var a: nat :| a < w && Selects(sel, a, b);
        assert Selects(sel2, a, b);
      }
      if RowHit(w, sel2, b) && b != y {
        var a: nat :| a < w && Selects(sel2, a, b);
        assert Selects(sel, a, b);
      }
    }
  }

  lemma RowsSame(w: nat, h: nat, sel: Selector, sel2: Selector)
    requires forall a: nat, b: nat :: sel(a, b) == sel2(a, b)
    ensures Rows(w, h, sel) == Rows(w, h, sel2)
  {
    forall b: nat ensures RowHit(w, sel, b) <==> RowHit(w, sel2, b) {
      if RowHit(w, sel, b) {
        var a: nat :| a < w && Selects(sel, a, b);
        assert Selects(sel2, a, b);
      }
      if RowHit(w, sel2, b) {
        var a: nat :| a < w && Selects(sel2, a, b);
        assert Selects(sel, a, b);
      }
    }
  }

  /** Selections that agree on the grid touch the same rows. */
  lemma RowsSameInGrid(w: nat, h: nat, sel: Selector, sel2: Selector)
    requires forall a: nat, b: nat :: a < w && b < h ==> sel(a, b) == sel2(a, b)
    ensures Rows(w, h, sel) == Rows(w, h, sel2)
  {
    forall b: nat ensures b in Rows(w, h, sel) <==> b in Rows(w, h, sel2) {
      if b in Rows(w, h, sel) {
        var a: nat :| a < w && Selects(sel, a, b);
        assert Selects(sel2, a, b);
      }
      if b in Rows(w, h, sel2) {
        var a: nat :| a < w && Selects(sel2, a, b);
        assert Selects(sel, a, b);
      }
    }
  }

  lemma RowsNothing(w: nat, h: nat)
    ensures Rows(w, h, Nothing()) == {}
  {
    forall b: nat ensures !RowHit(w, Nothing(), b) {
    }
  }

  /** The rows of two selections together. */
  lemma RowsUnion(w: nat, h: nat, a: Selector, b: Selector)
    ensures Rows(w, h, Union(a, b)) == Rows(w, h, a) + Rows(w, h, b)
  {
    forall y: nat ensures y in Rows(w, h, Union(a, b)) <==> y in Rows(w, h, a) || y in Rows(w, h, b) {
      if y in Rows(w, h, Union(a, b)) {
        var x: nat :| x < w && Selects(Union(a, b), x, y);
        assert Selects(a, x, y) || Selects(b, x, y);
      }
      if y in Rows(w, h, a) {
        var x: nat :| x < w && Selects(a, x, y);
        assert Selects(Union(a, b), x, y);
      }
      if y in Rows(w, h, b) {
        var x: nat :| x < w && Selects(b, x, y);
        assert Selects(Union(a, b), x, y);
      }
    }
  }

  /** A column-by-column scan starts having written nothing. */
  lemma ColumnsStart(g: seq<Color>, w: nat, h: nat, sel: Selector, f: Rewrite)
    ensures Update(g, w, ColumnsBefore(sel, h, 0, 0), f) == g
    ensures Rows(w, h, ColumnsBefore(sel, h, 0, 0)) == {}
  {
    UpdateSame(g, w, Nothing(), ColumnsBefore(sel, h, 0, 0), f);
    UpdateNothing(g, w, f);
    RowsSame(w, h, Nothing(), ColumnsBefore(sel, h, 0, 0));
    RowsNothing(w, h);
  }

  /** Visiting cell (i, j): it has not been written yet; if it is selected,
      rewriting it and marking its row extends the scan by that cell,
      otherwise the scan moves on with nothing changed. */
  lemma ColumnsStep(g: seq<Color>, w: nat, h: nat, sel: Selector, f: Rewrite, i: nat, j: nat)
    requires |g| == w * h && i < w && j < h && Idempotent(f)
    ensures Idx(w, i, j) < |g| && Update(g, w, ColumnsBefore(sel, h, i, j), f)[Idx(w, i, j)] == g[Idx(w, i, j)]
    ensures sel(i, j) ==>
      Update(g, w, ColumnsBefore(sel, h, i, j), f)[Idx(w, i, j) := f(g[Idx(w, i, j)])] == Update(g, w, ColumnsBefore(sel, h, i, j + 1), f)
    ensures sel(i, j) ==> Rows(w, h, ColumnsBefore(sel, h, i, j + 1)) == Rows(w, h, ColumnsBefore(sel, h, i, j)) + {j}
    ensures !sel(i, j) ==> Update(g, w, ColumnsBefore(sel, h, i, j + 1), f) == Update(g, w, ColumnsBefore(sel, h, i, j), f)
    ensures !sel(i, j) ==> Rows(w, h, ColumnsBefore(sel, h, i, j + 1)) == Rows(w, h, ColumnsBefore(sel, h, i, j))
  {
    UpdateAt(g, w, h, ColumnsBefore(sel, h, i, j), f, i, j);
    if sel(i, j) {
      UpdateStep(g, w, h, ColumnsBefore(sel, h, i, j), ColumnsBefore(sel, h, i, j + 1), f, i, j);
      RowsStep(w, h, ColumnsBefore(sel, h, i, j), ColumnsBefore(sel, h, i, j + 1), i, j);
    } else {
      UpdateSame(g, w, ColumnsBefore(sel, h, i, j), ColumnsBefore(sel, h, i, j + 1), f);
      RowsSame(w, h, ColumnsBefore(sel, h, i, j), ColumnsBefore(sel, h, i, j + 1));
    }
  }

  /** The end of column i is the start of column i + 1. */
  lemma ColumnsNext(g: seq<Color>, w: nat, h: nat, sel: Selector, f: Rewrite, i: nat)
    ensures Update(g, w, ColumnsBefore(sel, h, i, h), f) == Update(g, w, ColumnsBefore(sel, h, i + 1, 0), f)
    ensures Rows(w, h, ColumnsBefore(sel, h, i, h)) == Rows(w, h, ColumnsBefore(sel, h, i + 1, 0))
  {
    UpdateSame(g, w, ColumnsBefore(sel, h, i, h), ColumnsBefore(sel, h, i + 1, 0), f);
    RowsSame(w, h, ColumnsBefore(sel, h, i, h), ColumnsBefore(sel, h, i + 1, 0));
  }

  /** After the last column the scan has written every selected cell of the
      grid and marked every row holding one. */
  lemma ColumnsEnd(g: seq<Color>, w: nat, h: nat, sel: Selector, f: Rewrite)
    requires |g| == w * h
    ensures Update(g, w, ColumnsBefore(sel, h, w, 0), f) == Update(g, w, sel, f)
    ensures Rows(w, h, ColumnsBefore(sel, h, w, 0)) == Rows(w, h, sel)
  {
    UpdateSameInGrid(g, w, h, ColumnsBefore(sel, h, w, 0), sel, f);
    RowsSameInGrid(w, h, ColumnsBefore(sel, h, w, 0), sel);
  }

  /** The copy `save_old` makes: each cell assigned onto a default (white)
      colour, so a TEMP cell is recorded as white with code TEMP. */
  function Snapshot(g: seq<Color>): (r: seq<Color>)
    ensures |r| == |g|
  {
    seq(|g|, k requires 0 <= k < |g| => Assign(White, g[k]))
  }

  /** A snapshot is the grid itself exactly when every TEMP cell is white:
      undoing right after a write restores the grid only then. */
  lemma SnapshotFaithful(g: seq<Color>)
    ensures Snapshot(g) == g <==> forall k :: 0 <= k < |g| && g[k].code == Temp ==> RgbOf(g[k]) == RgbOf(White)
  {
    if Snapshot(g) == g {
      forall k | 0 <= k < |g| && g[k].code == Temp ensures RgbOf(g[k]) == RgbOf(White) {
        assert Snapshot(g)[k] == g[k];
      }
    }
  }

  /** A snapshot keeps every RGB value of a non-TEMP cell and every code. */
  lemma SnapshotCells(g: seq<Color>, k: nat)
    requires k < |g|
    ensures Snapshot(g)[k].code == g[k].code
    ensures g[k].code != Temp ==> Snapshot(g)[k] == g[k]
    ensures g[k].code == Temp ==> Snapshot(g)[k] == White.(code := Temp)
  {
  }

  /** The grid after `reset_temp`. */
  function ClearTemp(g: seq<Color>): (r: seq<Color>)
    ensures |r| == |g|
  {
    seq(|g|, k requires 0 <= k < |g| => Untemp(g[k]))
  }

  /** Clearing leaves no TEMP cell, keeps every RGB value and touches no other code. */
  lemma ClearTempMeaning(g: seq<Color>)
    ensures forall k :: 0 <= k < |g| ==> ClearTemp(g)[k].code != Temp
    ensures forall k :: 0 <= k < |g| ==> RgbOf(ClearTemp(g)[k]) == RgbOf(g[k])
    ensures forall k :: 0 <= k < |g| && g[k].code != Temp ==> ClearTemp(g)[k] == g[k]
    ensures ClearTemp(ClearTemp(g)) == ClearTemp(g)
  {
  }

  lemma ClearTempIsUpdate(g: seq<Color>, w: nat)
    requires w > 0
    ensures Update(g, w, Everywhere(), Untempter()) == ClearTemp(g)
  {
  }

  /** Cell (x, y) holds a TEMP colour. */
  function TempAt(g: seq<Color>, w: nat): Selector {
    (x: nat, y: nat) => Idx(w, x, y) < |g| && g[Idx(w, x, y)].code == Temp
  }

  /** The rows that hold a TEMP cell. */
  function TempRows(g: seq<Color>, w: nat, h: nat): set<nat> {
    Rows(w, h, TempAt(g, w))
  }

  lemma TempRowsMeaning(g: seq<Color>, w: nat, h: nat, y: nat)
    ensures y in TempRows(g, w, h) ==> y < h && exists x: nat :: x < w && Idx(w, x, y) < |g| && g[Idx(w, x, y)].code == Temp
    ensures forall x: nat :: x < w && y < h && Idx(w, x, y) < |g| && g[Idx(w, x, y)].code == Temp ==> y in TempRows(g, w, h)
  {
    if y in TempRows(g, w, h) {
      var x: nat :| x < w && Selects(TempAt(g, w), x, y);
    }
    forall x: nat | x < w && y < h && Idx(w, x, y) < |g| && g[Idx(w, x, y)].code == Temp ensures y in TempRows(g, w, h) {
      assert Selects(TempAt(g, w), x, y);
    }
  }

  /** `reset_temp` rewrites exactly the TEMP cells. */
  lemma ClearTempIsTempUpdate(g: seq<Color>, w: nat, h: nat)
    requires |g| == w * h
    ensures Update(g, w, TempAt(g, w), Untempter()) == ClearTemp(g)
  {
    forall k | 0 <= k < |g| ensures Update(g, w, TempAt(g, w), Untempter())[k] == ClearTemp(g)[k] {
      CellOf(w, h, k);
    }
  }

  /** Once the TEMP cells are cleared, no row holds one. */
  lemma TempRowsCleared(g: seq<Color>, w: nat, h: nat)
    requires |g| == w * h
    ensures TempRows(ClearTemp(g), w, h) == {}
  {
    forall y | y in TempRows(ClearTemp(g), w, h) ensures false {
      var x: nat :| x < w && Selects(TempAt(ClearTemp(g), w), x, y);
      ClearTempMeaning(g);
    }
  }
}
