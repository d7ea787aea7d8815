/** The canvas: a `width * height` array of colours, the snapshots `undo`
    returns to, the rows `draw` has to write again and the boundary
    segments `fill_area` floods within. */
module Canvases {
  import opened Colors
  import opened Geometry
  import opened Grid
  import opened Shapes
  import opened Serial
  import opened Render

  /** Sides below this keep every signed product of the circle and
      intersection code of the canvas within 32 bits. */
  const MaxSide: nat := 0x8000

  /** Every row of a canvas `h` rows high. */
  function AllRows(h: nat): set<nat> {
    set y: nat | y < h && Between(0, y, h)
  }

  lemma AllRowsStep(y: nat)
    ensures AllRows(y + 1) == AllRows(y) + {y}
  {
  }

  /** Every cell of an `n`-cell grid holding c. */
  function Filled(n: nat, c: Color): (r: seq<Color>)
    ensures |r| == n && forall k :: 0 <= k < n ==> r[k] == c
  {
    seq(n, k => c)
  }

  /** The grid after an operation that ends with `reset_temp` unless it
      drew in the TEMP colour. */
  function Settled(u: seq<Color>, c: Color): seq<Color> {
    if c.code == Temp then u else ClearTemp(u)
  }

  /** The rows to redraw after such an operation. */
  function SettledRows(u: seq<Color>, d: set<nat>, c: Color, w: nat, h: nat): set<nat> {
    if c.code == Temp then d else d + TempRows(u, w, h)
  }

  /** What the file constructor gives: a canvas, or the reason it could not. */
  datatype Opened = Opened(canvas: Canvas) | Failed(error: DecodeError)

  /** The constructor's first loop: every cell of a fresh array is assigned `v`. */
  method FillCells(a: array<Color>, v: Color)
    modifies a
    ensures a[..] == Filled(a.Length, v)
  {
    var i := 0;
    while i < a.Length
      invariant 0 <= i <= a.Length
      invariant forall k :: 0 <= k < i ==> a[k] == v
      decreases a.Length - i
    {
      a[i] := v;
      i := i + 1;
    }
  }

  /** The inner loop of `draw` on the cell array of a w x h grid: the text
      of row y, cell by cell. */
  method CellsLine(a: array<Color>, w: nat, h: nat, y: nat) returns (line: string)
    requires a.Length == w * h && y < h
    ensures line == RowText(a[..], w, h, y, w)
  {
    line := "";
    var j := 0;
    assert RowText(a[..], w, h, y, 0) == "";
    while j < w
      invariant 0 <= j <= w
      invariant line == RowText(a[..], w, h, y, j)
      decreases w - j
    {
      RowTextSnoc(a[..], w, h, y, j);
      line := line + CellText(a[Idx(w, j, y)]);
      j := j + 1;
    }
  }

  class Canvas {
    const width: nat
    const height: nat
    var cells: array<Color>
    var history: seq<seq<Color>>
    var dirty: set<nat>
    var boundary: set<Segment>

    ghost predicate Valid()
      reads this
    {
      width < Two32 && height < Two32 &&
      cells.Length == width * height &&
      (forall k :: 0 <= k < |history| ==> |history[k]| == width * height) &&
      (forall y :: y in dirty ==> y < height) &&
      (forall b :: b in boundary ==>
        b.start.x < width && b.start.y < height && b.end.x < width && b.end.y < height)
    }

    /** The cell (x, y): `operator[]`. */
    function CellAt(x: nat, y: nat): Color
      requires Valid() && x < width && y < height
      reads this, cells
    {
      IdxInRange(width, height, x, y);
      cells[Idx(width, x, y)]
    }

    /** A canvas of the given size with every cell set to `bg` (assigned onto
        a default white cell) and every row to be drawn. */
    constructor(w: nat, h: nat, bg: Color)
      requires w < Two32 && h < Two32
      ensures Valid() && width == w && height == h && fresh(cells)
      ensures cells[..] == Filled(w * h, Assign(White, bg))
      ensures history == [] && dirty == AllRows(h) && boundary == {}
    {
      var n := w * h;
      var v := Assign(White, bg);
      var a := new Color[n];
      FillCells(a, v);
      width, height := w, h;
      cells := a;
      history, dirty, boundary := [], {}, {};
      new;
      var y := 0;
      while y < h
        invariant 0 <= y <= h && dirty == AllRows(y) && fresh(cells)
        invariant cells[..] == Filled(n, v)
        invariant history == [] && boundary == {}
        decreases h - y
      {
        AllRowsStep(y);
        dirty := dirty + {y};
        y := y + 1;
      }
    }

    /** The file constructor, on the file's bytes: the decoded picture, every
        row to be drawn, no history and no boundary. */
    static method Open(data: seq<Byte>) returns (r: Opened)
      ensures Decode(data).Failure? ==> r == Failed(Decode(data).error)
      ensures Decode(data).Success? ==> r.Opened? && fresh(r.canvas) && fresh(r.canvas.cells) && r.canvas.Valid()
      ensures Decode(data).Success? ==> var pic := Decode(data).value;
        r.canvas.width == pic.width && r.canvas.height == pic.height && r.canvas.cells[..] == pic.cells &&
        r.canvas.history == [] && r.canvas.dirty == AllRows(pic.height) && r.canvas.boundary == {}
    {
      var decoded := Decode(data);
      if decoded.Failure? {
        return Failed(decoded.error);
      }
      var pic := decoded.value;
      DecodedPlain(data);
      var c := new Canvas(pic.width, pic.height, White);
      var i := 0;
      while i < |pic.cells|
        invariant 0 <= i <= |pic.cells| && c.cells.Length == |pic.cells|
        invariant forall k :: 0 <= k < i ==> c.cells[k] == pic.cells[k]
        modifies c.cells
        decreases |pic.cells| - i
      {
        c.cells[i] := Assign(White, pic.cells[i]);
        i := i + 1;
      }
      assert c.cells[..] == pic.cells;
      r := Opened(c);
    }

    /** `save`: the bytes written to the file. */
    method Save() returns (bytes: seq<Byte>)
      requires Valid()
      ensures bytes == Encode(width, height, cells[..])
      ensures SafeComponents(cells[..]) ==> Decode(bytes) == Success(Picture(width, height, Loaded(cells[..])))
    {
      bytes := VersionTag + [0] + LE32(width) + LE32(height);
      var i := 0;
      while i < cells.Length
        invariant 0 <= i <= cells.Length
        invariant bytes == VersionTag + [0] + LE32(width) + LE32(height) + Triples(cells[..i])
        decreases cells.Length - i
      {
        TriplesSnoc(cells[..i], cells[i]);
        assert cells[..i + 1] == cells[..i] + [cells[i]];
        bytes := bytes + [cells[i].r, cells[i].g, cells[i].b];
        i := i + 1;
      }
      assert cells[..i] == cells[..];
      if SafeComponents(cells[..]) {
        DecodeEncode(width, height, cells[..]);
      }
    }

    /** `save_old`: a copy of the grid, made by assigning each cell onto a
        default white cell, is pushed onto the history. */
    method SaveOld()
      requires Valid()
      modifies this
      ensures Valid() && cells == old(cells)
      ensures history == old(history) + [Snapshot(cells[..])]
      ensures dirty == old(dirty) && boundary == old(boundary)
    {
      var copy: seq<Color> := [];
      var i := 0;
      while i < cells.Length
        invariant 0 <= i <= cells.Length
        invariant copy == Snapshot(cells[..])[..i]
        decreases cells.Length - i
      {
        copy := copy + [Assign(White, cells[i])];
        i := i + 1;
      }
      assert copy == Snapshot(cells[..]);
      history := history + [copy];
    }

    /** `undo`: with history, go back `times` snapshots (dropping them) and
        redraw every row; without history, nothing happens. */
    method Undo(times: int)
      requires Valid()
      requires history != [] ==> 1 <= times <= |history|
      modifies this
      ensures Valid() && boundary == old(boundary)
      ensures old(history) == [] ==> cells == old(cells) && history == [] && dirty == old(dirty)
      ensures old(history) != [] ==> (
        history == old(history)[..|old(history)| - times] &&
        fresh(cells) && cells[..] == old(history)[|old(history)| - times] &&
        dirty == old(dirty) + AllRows(height))
    {
      if history == [] {
        return;
      }
      var current := cells[..];
      var i := 0;
      while i < times
        invariant 0 <= i <= times
        invariant history == old(history)[..|old(history)| - i]
        invariant i > 0 ==> current == old(history)[|old(history)| - i]
        invariant cells == old(cells) && dirty == old(dirty) && boundary == old(boundary)
        invariant Valid()
        decreases times - i
      {
        current := history[|history| - 1];
        history := history[..|history| - 1];
        i := i + 1;
      }
      cells := new Color[|current|](k requires 0 <= k < |current| => current[k]);
      assert cells[..] == current;
      var y := 0;
      ghost var d0 := dirty;
      while y < height
        invariant 0 <= y <= height
        invariant dirty == d0 + AllRows(y)
        invariant Valid() && fresh(cells) && cells[..] == current && boundary == old(boundary)
        invariant history == old(history)[..|old(history)| - times]
        invariant current == old(history)[|old(history)| - times]
        decreases height - y
      {
        AllRowsStep(y);
        dirty := dirty + {y};
        y := y + 1;
      }
    }

    /** `update_line`: row y is to be drawn again. */
    method UpdateLine(y: nat)
      requires Valid() && y < height
      modifies this
      ensures Valid() && dirty == old(dirty) + {y}
      ensures cells == old(cells) && history == old(history) && boundary == old(boundary)
    {
      dirty := dirty + {y};
    }

    /** `point`: a point outside the canvas is refused with nothing changed;
        otherwise the grid is saved and the colour assigned onto the cell. */
    method DrawPoint(c: Color, p: Point) returns (ok: bool)
      requires Valid()
      modifies this, cells
      ensures Valid() && cells == old(cells) && boundary == old(boundary)
      ensures ok == (p.x < width && p.y < height)
      ensures !ok ==> cells[..] == old(cells[..]) && history == old(history) && dirty == old(dirty)
      ensures ok ==> (history == old(history) + [Snapshot(old(cells[..]))] &&
        cells[..] == Update(old(cells[..]), width, At(p), Painter(c)) &&
        dirty == old(dirty) + {p.y})
    {
      if p.x >= width || p.y >= height {
        return false;
      }
      SaveOld();
      ghost var g := cells[..];
      RewritesIdempotent(c);
      UpdateNothing(g, width, Painter(c));
      UpdateStep(g, width, height, Nothing(), At(p), Painter(c), p.x, p.y);
      var k := p.y * width + p.x;
      cells[k] := Assign(cells[k], c);
      dirty := dirty + {p.y};
      ok := true;
    }

    /** `in_area`: are the seed p and the cell q on the same side of the
        boundary, i.e. does the segment between them cross an even number
        of boundary segments? */
    method InArea(p: Point, q: Point) returns (inside: bool)
      ensures inside == EvenCrossings(boundary, p, q)
    {
      var count := 0;
      var rest := boundary;
      while rest != {}
        invariant rest <= boundary
        invariant count + |Crossings(rest, p, q)| == |Crossings(boundary, p, q)|
        decreases |rest|
      {
        var b :| b in rest;
        if Intersects(b.start, b.end, p, q) {
          assert Crossings(rest, p, q) == Crossings(rest - {b}, p, q) + {b};
          count := count + 1;
        } else {
          assert Crossings(rest, p, q) == Crossings(rest - {b}, p, q);
        }
        rest := rest - {b};
      }
      assert Crossings({}, p, q) == {};
      inside := count % 2 == 0;
    }

    /** Visit the cells column by column and rewrite each selected one with
        f, marking its row: the loop shape of `reset_temp` and `draw_circle`. */
    method Scan(sel: Selector, f: Rewrite)
      requires Valid() && Idempotent(f)
      modifies this, cells
      ensures Valid() && cells == old(cells) && history == old(history) && boundary == old(boundary)
      ensures cells[..] == Update(old(cells[..]), width, sel, f)
      ensures dirty == old(dirty) + Rows(width, height, sel)
    {
      ghost var g := cells[..];
      ghost var d0 := dirty;
      ColumnsStart(g, width, height, sel, f);
      var i := 0;
      while i < width
        invariant 0 <= i <= width
        invariant Valid() && cells == old(cells) && history == old(history) && boundary == old(boundary)
        invariant cells[..] == Update(g, width, ColumnsBefore(sel, height, i, 0), f)
        invariant dirty == d0 + Rows(width, height, ColumnsBefore(sel, height, i, 0))
        decreases width - i
      {
        var j := 0;
        while j < height
          invariant 0 <= j <= height
          invariant Valid() && cells == old(cells) && history == old(history) && boundary == old(boundary)
          invariant cells[..] == Update(g, width, ColumnsBefore(sel, height, i, j), f)
          invariant dirty == d0 + Rows(width, height, ColumnsBefore(sel, height, i, j))
          decreases height - j
        {
          ColumnsStep(g, width, height, sel, f, i, j);
          var k := j * width + i;
          if sel(i, j) {
            cells[k] := f(cells[k]);
            dirty := dirty + {j};
          }
          j := j + 1;
        }
        ColumnsNext(g, width, height, sel, f, i);
        i := i + 1;
      }
      ColumnsEnd(g, width, height, sel, f);
    }

    /** `reset_temp`: every TEMP cell becomes NONE, keeping its RGB value,
        and its row is marked. */
    method ResetTemp()
      requires Valid()
      modifies this, cells
      ensures Valid() && cells == old(cells) && history == old(history) && boundary == old(boundary)
      ensures cells[..] == ClearTemp(old(cells[..]))
      ensures dirty == old(dirty) + TempRows(old(cells[..]), width, height)
    {
      var g := cells[..];
      RewritesIdempotent(White);
      Scan(TempAt(g, width), Untempter());
      ClearTempIsTempUpdate(g, width, height);
    }

    /** The text of row y: the inner loop of `draw`. */
    method RowLine(y: nat) returns (line: string)
      requires Valid() && y < height
      ensures line == RowText(cells[..], width, height, y, width)
    {
      line := CellsLine(cells, width, height, y);
    }

    /** The text of row y appended to the lines written so far. */
    method WriteRow(frame: seq<Written>, ghost rows: seq<nat>, y: nat) returns (frame2: seq<Written>)
      requires Valid() && y < height && forall k :: 0 <= k < |rows| ==> rows[k] < height
      requires frame == Frame(cells[..], width, height, rows)
      ensures frame2 == Frame(cells[..], width, height, rows + [y])
    {
      var line := RowLine(y);
      FrameSnoc(cells[..], width, height, rows, y);
      frame2 := frame + [Written(y, line)];
    }

    /** The output loop of `draw`: the lines of the marked rows, in
        increasing order. */
    method MarkedLines() returns (frame: seq<Written>)
      requires Valid()
      ensures frame == Frame(cells[..], width, height, Ascending(dirty, height))
    {
      frame := [];
      var y := 0;
      while y < height
        invariant 0 <= y <= height
        invariant frame == Frame(cells[..], width, height, Ascending(dirty, y))
        decreases height - y
      {
        if y in dirty {
          frame := WriteRow(frame, Ascending(dirty, y), y);
        }
        y := y + 1;
      }
    }

    /** `draw`: the lines of the marked rows in increasing order, then the
        marks are cleared and `reset_temp` runs, which marks the rows of
        the TEMP cells for the next draw. */
    method Draw() returns (frame: seq<Written>)
      requires Valid()
      modifies this, cells
      ensures Valid() && cells == old(cells) && history == old(history) && boundary == old(boundary)
      ensures frame == Frame(old(cells[..]), width, height, Ascending(old(dirty), height))
      ensures cells[..] == ClearTemp(old(cells[..]))
      ensures dirty == TempRows(old(cells[..]), width, height)
    {
      frame := MarkedLines();
      dirty := {};
      ResetTemp();
    }
  
    /** `fill_area` with two corners: both must be on the canvas; the grid is
        saved and the colour assigned onto every cell of the rectangle, row
        by row, each row marked. */
    method FillRect(s: Point, e: Point, c: Color) returns (ok: bool)
      requires Valid()
      modifies this, cells
      ensures Valid() && cells == old(cells) && boundary == old(boundary)
      ensures ok == (s.x < width && s.y < height && e.x < width && e.y < height)
      ensures !ok ==> cells[..] == old(cells[..]) && history == old(history) && dirty == old(dirty)
      ensures ok ==> (history == old(history) + [Snapshot(old(cells[..]))] &&
        cells[..] == Update(old(cells[..]), width, Rect(s, e), Painter(c)) &&
        dirty == old(dirty) + Span(Lo(s.y, e.y), Hi(s.y, e.y)))
    {
      if s.x >= width || s.y >= height || e.x >= width || e.y >= height {
        return false;
      }
      SaveOld();
      ghost var g := cells[..];
      ghost var d0 := dirty;
      ghost var h0 := history;
      var lo := Point(Lo(s.x, e.x), Lo(s.y, e.y));
      var hi := Point(Hi(s.x, e.x), Hi(s.y, e.y));
      RewritesIdempotent(c);
      UpdateSame(g, width, Nothing(), RectBefore(lo, hi, lo.y, lo.x), Painter(c));
      UpdateNothing(g, width, Painter(c));
      var i := lo.y;
      while i <= hi.y
        invariant lo.y <= i <= hi.y + 1
        invariant Valid() && cells == old(cells) && boundary == old(boundary) && history == h0
        invariant cells[..] == Update(g, width, RectBefore(lo, hi, i, lo.x), Painter(c))
        invariant dirty == d0 + set y: nat | y < i && Between(lo.y, y, hi.y)
        decreases hi.y + 1 - i
      {
        var j := lo.x;
        while j <= hi.x
          invariant lo.x <= j <= hi.x + 1
          invariant Valid() && cells == old(cells) && boundary == old(boundary) && history == h0
          invariant cells[..] == Update(g, width, RectBefore(lo, hi, i, j), Painter(c))
          invariant dirty == d0 + set y: nat | y < i && Between(lo.y, y, hi.y)
          decreases hi.x + 1 - j
        {
          PaintRectCell(lo, hi, c, i, j, g);
          j := j + 1;
        }
        UpdateSame(g, width, RectBefore(lo, hi, i, hi.x + 1), RectBefore(lo, hi, i + 1, lo.x), Painter(c));
        dirty := dirty + {i};
        i := i + 1;
      }
      UpdateSame(g, width, RectBefore(lo, hi, hi.y + 1, lo.x), Rect(s, e), Painter(c));
      assert (set y: nat | y < hi.y + 1 && Between(lo.y, y, hi.y)) == Span(lo.y, hi.y);
      ok := true;
    }

    /** `draw_line`: both ends must be on the canvas; the grid is saved, the
        colour assigned onto samples 0 to `fineness` of the segment, each
        sample's row marked, and `reset_temp` run unless the colour is TEMP. */
    method DrawLine(s: Point, e: Point, c: Color, fineness: nat) returns (ok: bool)
      requires Valid()
      modifies this, cells
      ensures Valid() && cells == old(cells) && boundary == old(boundary)
      ensures ok == (s.x < width && s.y < height && e.x < width && e.y < height)
      ensures !ok ==> cells[..] == old(cells[..]) && history == old(history) && dirty == old(dirty)
      ensures ok ==> history == old(history) + [Snapshot(old(cells[..]))]
      ensures ok ==> var u := Update(old(cells[..]), width, Line(s, e, fineness), Painter(c));
        cells[..] == Settled(u, c) &&
        dirty == SettledRows(u, old(dirty) + Rows(width, height, Line(s, e, fineness)), c, width, height)
    {
      if s.x >= width || s.y >= height || e.x >= width || e.y >= height {
        return false;
      }
      SaveOld();
      ghost var g := cells[..];
      ghost var d0 := dirty;
      ghost var h0 := history;
      RewritesIdempotent(c);
      LineNone(s, e, fineness);
      UpdateSame(g, width, Nothing(), LineUpTo(s, e, fineness, 0), Painter(c));
      UpdateNothing(g, width, Painter(c));
      RowsSame(width, height, Nothing(), LineUpTo(s, e, fineness, 0));
      RowsNothing(width, height);
      var n := 0;
      while n <= fineness
        invariant 0 <= n <= fineness + 1
        invariant Valid() && cells == old(cells) && boundary == old(boundary) && history == h0
        invariant cells[..] == Update(g, width, LineUpTo(s, e, fineness, n), Painter(c))
        invariant dirty == d0 + Rows(width, height, LineUpTo(s, e, fineness, n))
        decreases fineness + 1 - n
      {
        PaintSample(s, e, fineness, n, c, g, d0);
        n := n + 1;
      }
      if c.code != Temp {
        ResetTemp();
      }
      ok := true;
    }

    /** One cell of `fill_rect`: it gets the colour. */
    method PaintRectCell(lo: Point, hi: Point, c: Color, i: nat, j: nat, ghost g: seq<Color>)
      requires Valid() && lo.x <= j <= hi.x < width && lo.y <= i <= hi.y < height
      requires |g| == width * height && Idempotent(Painter(c))
      requires cells[..] == Update(g, width, RectBefore(lo, hi, i, j), Painter(c))
      modifies cells
      ensures cells[..] == Update(g, width, RectBefore(lo, hi, i, j + 1), Painter(c))
    {
      UpdateStep(g, width, height, RectBefore(lo, hi, i, j), RectBefore(lo, hi, i, j + 1), Painter(c), j, i);
      var k := i * width + j;
      cells[k] := Assign(cells[k], c);
    }

    /** One sample of `draw_line`: its cell gets the colour and its row is
        marked. */
    method PaintSample(s: Point, e: Point, fineness: nat, n: nat, c: Color, ghost g: seq<Color>, ghost d0: set<nat>)
      requires Valid() && s.x < width && s.y < height && e.x < width && e.y < height && n <= fineness
      requires |g| == width * height && Idempotent(Painter(c))
      requires cells[..] == Update(g, width, LineUpTo(s, e, fineness, n), Painter(c))
      requires dirty == d0 + Rows(width, height, LineUpTo(s, e, fineness, n))
      modifies this, cells
      ensures Valid() && cells == old(cells) && history == old(history) && boundary == old(boundary)
      ensures cells[..] == Update(g, width, LineUpTo(s, e, fineness, n + 1), Painter(c))
      ensures dirty == d0 + Rows(width, height, LineUpTo(s, e, fineness, n + 1))
    {
      var q := Sample(s, e, fineness, n);
      SampleInBox(s, e, fineness, n);
      LineStep(s, e, fineness, n);
      ghost var before := LineUpTo(s, e, fineness, n);
      ghost var after := LineUpTo(s, e, fineness, n + 1);
      UpdateStep(g, width, height, before, after, Painter(c), q.x, q.y);
      RowsStep(width, height, before, after, q.x, q.y);
      var k := q.y * width + q.x;
      cells[k] := Assign(cells[k], c);
      dirty := dirty + {q.y};
    }

    /** `draw_boundary_line`: both ends must be on the canvas; the grid is
        saved, every sample's cell gets code BOUNDARY (keeping its RGB value),
        the row of each cell that was not a boundary cell before is marked,
        and the segment joins the boundary. */
    method DrawBoundaryLine(s: Point, e: Point, fineness: nat) returns (ok: bool)
      requires Valid()
      modifies this, cells
      ensures Valid() && cells == old(cells)
      ensures ok == (s.x < width && s.y < height && e.x < width && e.y < height)
      ensures !ok ==> cells[..] == old(cells[..]) && history == old(history) && dirty == old(dirty) && boundary == old(boundary)
      ensures ok ==> (history == old(history) + [Snapshot(old(cells[..]))] &&
        cells[..] == Update(old(cells[..]), width, Line(s, e, fineness), Marker()) &&
        dirty == old(dirty) + Rows(width, height, Unmarked(Line(s, e, fineness), old(cells[..]), width)) &&
        boundary == old(boundary) + {Segment(s, e)})
    {
      if s.x >= width || s.y >= height || e.x >= width || e.y >= height {
        return false;
      }
      SaveOld();
      ghost var g := cells[..];
      ghost var d0 := dirty;
      ghost var h0 := history;
      RewritesIdempotent(White);
      LineNone(s, e, fineness);
      UpdateSame(g, width, Nothing(), LineUpTo(s, e, fineness, 0), Marker());
      UpdateNothing(g, width, Marker());
      RowsSame(width, height, Nothing(), Unmarked(LineUpTo(s, e, fineness, 0), g, width));
      RowsNothing(width, height);
      var n := 0;
      while n <= fineness
        invariant 0 <= n <= fineness + 1
        invariant Valid() && cells == old(cells) && boundary == old(boundary) && history == h0
        invariant cells[..] == Update(g, width, LineUpTo(s, e, fineness, n), Marker())
        invariant dirty == d0 + Rows(width, height, Unmarked(LineUpTo(s, e, fineness, n), g, width))
        decreases fineness + 1 - n
      {
        MarkSample(s, e, fineness, n, g, d0);
        n := n + 1;
      }
      boundary := boundary + {Segment(s, e)};
      ok := true;
    }

    /** One sample of `draw_boundary_line`: its cell gets code BOUNDARY and,
        if it was not a boundary cell, its row is marked. */
    method MarkSample(s: Point, e: Point, fineness: nat, n: nat, ghost g: seq<Color>, ghost d0: set<nat>)
      requires Valid() && s.x < width && s.y < height && e.x < width && e.y < height && n <= fineness
      requires |g| == width * height && Idempotent(Marker())
      requires cells[..] == Update(g, width, LineUpTo(s, e, fineness, n), Marker())
      requires dirty == d0 + Rows(width, height, Unmarked(LineUpTo(s, e, fineness, n), g, width))
      modifies this, cells
      ensures Valid() && cells == old(cells) && history == old(history) && boundary == old(boundary)
      ensures cells[..] == Update(g, width, LineUpTo(s, e, fineness, n + 1), Marker())
      ensures dirty == d0 + Rows(width, height, Unmarked(LineUpTo(s, e, fineness, n + 1), g, width))
    {
      var q := Sample(s, e, fineness, n);
      SampleInBox(s, e, fineness, n);
      LineStep(s, e, fineness, n);
      ghost var before := LineUpTo(s, e, fineness, n);
      ghost var after := LineUpTo(s, e, fineness, n + 1);
      UpdateAt(g, width, height, before, Marker(), q.x, q.y);
      UpdateStep(g, width, height, before, after, Marker(), q.x, q.y);
      var k := q.y * width + q.x;
      if cells[k].code != Boundary {
        RowsStep(width, height, Unmarked(before, g, width), Unmarked(after, g, width), q.x, q.y);
        cells[k] := cells[k].(code := Boundary);
        dirty := dirty + {q.y};
      } else {
        RowsSame(width, height, Unmarked(before, g, width), Unmarked(after, g, width));
        cells[k] := cells[k].(code := Boundary);
      }
    }

    /** One cell of the seeded `fill_area`: it gets the colour, and its row
        is marked, when it is inside the seed's area or a boundary cell. */
    method SeedCell(p: Point, c: Color, i: nat, j: nat, ghost sel: Selector, ghost g: seq<Color>, ghost d0: set<nat>)
      requires Valid() && i < width && j < height && |g| == width * height && Idempotent(Painter(c))
      requires Idx(width, i, j) < |g| && sel(i, j) == (EvenCrossings(boundary, p, Point(i, j)) || g[Idx(width, i, j)].code == Boundary)
      requires cells[..] == Update(g, width, ColumnsBefore(sel, height, i, j), Painter(c))
      requires dirty == d0 + Rows(width, height, ColumnsBefore(sel, height, i, j))
      modifies this, cells
      ensures Valid() && cells == old(cells) && history == old(history) && boundary == old(boundary)
      ensures cells[..] == Update(g, width, ColumnsBefore(sel, height, i, j + 1), Painter(c))
      ensures dirty == d0 + Rows(width, height, ColumnsBefore(sel, height, i, j + 1))
    {
      ColumnsStep(g, width, height, sel, Painter(c), i, j);
      var inside := InArea(p, Point(i, j));
      var k := j * width + i;
      if inside || cells[k].code == Boundary {
        cells[k] := Assign(cells[k], c);
        dirty := dirty + {j};
      }
    }

    /** The scan of the seeded `fill_area`, column by column. */
    method SeedScan(p: Point, c: Color)
      requires Valid()
      modifies this, cells
      ensures Valid() && cells == old(cells) && history == old(history) && boundary == old(boundary)
      ensures cells[..] == Update(old(cells[..]), width, Seeded(boundary, p, old(cells[..]), width), Painter(c))
      ensures dirty == old(dirty) + Rows(width, height, Seeded(boundary, p, old(cells[..]), width))
    {
      ghost var g := cells[..];
      ghost var d0 := dirty;
      ghost var sel := Seeded(boundary, p, g, width);
      RewritesIdempotent(c);
      ColumnsStart(g, width, height, sel, Painter(c));
      var i := 0;
      while i < width
        invariant 0 <= i <= width
        invariant Valid() && cells == old(cells) && history == old(history) && boundary == old(boundary)
        invariant cells[..] == Update(g, width, ColumnsBefore(sel, height, i, 0), Painter(c))
        invariant dirty == d0 + Rows(width, height, ColumnsBefore(sel, height, i, 0))
      {
        var j := 0;
        while j < height
          invariant 0 <= j <= height
          invariant Valid() && cells == old(cells) && history == old(history) && boundary == old(boundary)
          invariant cells[..] == Update(g, width, ColumnsBefore(sel, height, i, j), Painter(c))
          invariant dirty == d0 + Rows(width, height, ColumnsBefore(sel, height, i, j))
        {
          IdxInRange(width, height, i, j);
          SeedCell(p, c, i, j, sel, g, d0);
          j := j + 1;
        }
        ColumnsNext(g, width, height, sel, Painter(c), i);
        i := i + 1;
      }
      ColumnsEnd(g, width, height, sel, Painter(c));
    }

    /** `fill_area` from a seed: the seed must be on the canvas; the grid is
        saved, then, column by column, every cell on the seed's side of the
        boundary and every boundary cell gets the colour and its row is
        marked; `reset_temp` runs unless the colour is TEMP. */
    method FillArea(p: Point, c: Color) returns (ok: bool)
      requires Valid() && width <= MaxSide && height <= MaxSide
      modifies this, cells
      ensures Valid() && cells == old(cells) && boundary == old(boundary)
      ensures ok == (p.x < width && p.y < height)
      ensures !ok ==> cells[..] == old(cells[..]) && history == old(history) && dirty == old(dirty)
      ensures ok ==> history == old(history) + [Snapshot(old(cells[..]))]
      ensures ok ==> var sel := Seeded(boundary, p, old(cells[..]), width);
        var u := Update(old(cells[..]), width, sel, Painter(c));
        cells[..] == Settled(u, c) &&
        dirty == SettledRows(u, old(dirty) + Rows(width, height, sel), c, width, height)
    {
      if p.x >= width || p.y >= height {
        return false;
      }
      SaveOld();
      SeedScan(p, c);
      if c.code != Temp {
        ResetTemp();
      }
      ok := true;
    }

    /** `draw_circle`: the centre must be on the canvas; the grid is saved,
        the colour assigned onto every ring cell, each row marked, and
        `reset_temp` run unless the colour is TEMP. */
    method DrawCircle(p: Point, r: nat, c: Color) returns (ok: bool)
      requires Valid() && width <= MaxSide && height <= MaxSide
      modifies this, cells
      ensures Valid() && cells == old(cells) && boundary == old(boundary)
      ensures ok == (p.x < width && p.y < height)
      ensures !ok ==> cells[..] == old(cells[..]) && history == old(history) && dirty == old(dirty)
      ensures ok ==> history == old(history) + [Snapshot(old(cells[..]))]
      ensures ok ==> var u := Update(old(cells[..]), width, Ring(p, r), Painter(c));
        cells[..] == Settled(u, c) &&
        dirty == SettledRows(u, old(dirty) + Rows(width, height, Ring(p, r)), c, width, height)
    {
      if p.x >= width || p.y >= height {
        return false;
      }
      SaveOld();
      RewritesIdempotent(c);
      Scan(Ring(p, r), Painter(c));
      if c.code != Temp {
        ResetTemp();
      }
      ok := true;
    }

    /** The innermost loop of `fill_circle`: the colour assigned onto the
        cells `from` to `to - 1` of row y, the row marked. */
    method PaintRun(y: nat, from: nat, to: nat, c: Color)
      requires Valid() && y < height && from < to <= width
      modifies this, cells
      ensures Valid() && cells == old(cells) && history == old(history) && boundary == old(boundary)
      ensures cells[..] == Update(old(cells[..]), width, Run(y, from, to), Painter(c))
      ensures dirty == old(dirty) + {y}
    {
      ghost var g := cells[..];
      RewritesIdempotent(c);
      UpdateSame(g, width, Nothing(), Run(y, from, from), Painter(c));
      UpdateNothing(g, width, Painter(c));
      var k := from;
      while k < to
        invariant from <= k <= to
        invariant Valid()
        invariant cells == old(cells) && history == old(history) && boundary == old(boundary)
        invariant cells[..] == Update(g, width, Run(y, from, k), Painter(c))
        invariant dirty == (if k > from then old(dirty) + {y} else old(dirty))
      {
        UpdateStep(g, width, height, Run(y, from, k), Run(y, from, k + 1), Painter(c), k, y);
        var idx := y * width + k;
        cells[idx] := Assign(cells[idx], c);
        dirty := dirty + {y};
        k := k + 1;
      }
    }

    /** One cell of `fill_circle`'s scan: a ring cell (i, j) paints the run
        to its mirror image (2 p.x - i, j). */
    method DiskCell(p: Point, r: nat, c: Color, i: nat, j: nat, ghost g: seq<Color>, ghost d0: set<nat>)
      requires Valid() && i <= p.x && 2 * p.x < width && j < height && |g| == width * height && Idempotent(Painter(c))
      requires cells[..] == Update(g, width, DiskBefore(p, r, i, j), Painter(c))
      requires dirty == d0 + Rows(width, height, DiskBefore(p, r, i, j))
      modifies this, cells
      ensures Valid() && cells == old(cells) && history == old(history) && boundary == old(boundary)
      ensures cells[..] == Update(g, width, DiskBefore(p, r, i, j + 1), Painter(c))
      ensures dirty == d0 + Rows(width, height, DiskBefore(p, r, i, j + 1))
    {
      if OnRing(p, r, i, j) {
        ghost var run := Run(j, i, 2 * p.x - i + 1);
        PaintRun(j, i, 2 * p.x - i + 1, c);
        UpdateUnion(g, width, DiskBefore(p, r, i, j), run, Painter(c));
        UpdateSame(g, width, Union(DiskBefore(p, r, i, j), run), DiskBefore(p, r, i, j + 1), Painter(c));
        RowsUnion(width, height, DiskBefore(p, r, i, j), run);
        RowsRun(width, height, j, i, 2 * p.x - i + 1);
        RowsSame(width, height, Union(DiskBefore(p, r, i, j), run), DiskBefore(p, r, i, j + 1));
      } else {
        UpdateSame(g, width, DiskBefore(p, r, i, j), DiskBefore(p, r, i, j + 1), Painter(c));
        RowsSame(width, height, DiskBefore(p, r, i, j), DiskBefore(p, r, i, j + 1));
      }
    }

    /** One column of `fill_circle`: every row j of column i in turn. */
    method DiskColumn(p: Point, r: nat, c: Color, i: nat, ghost g: seq<Color>, ghost d0: set<nat>)
      requires Valid() && width <= MaxSide && height <= MaxSide && p.x < width && p.y < height
      requires 2 * p.x < width && i <= p.x
      requires |g| == width * height && Idempotent(Painter(c))
      requires cells[..] == Update(g, width, DiskBefore(p, r, i, 0), Painter(c))
      requires dirty == d0 + Rows(width, height, DiskBefore(p, r, i, 0))
      modifies this, cells
      ensures Valid() && cells == old(cells) && history == old(history) && boundary == old(boundary)
      ensures cells[..] == Update(g, width, DiskBefore(p, r, i + 1, 0), Painter(c))
      ensures dirty == d0 + Rows(width, height, DiskBefore(p, r, i + 1, 0))
    {
      var j := 0;
      while j < height
        invariant 0 <= j <= height
        invariant Valid() && cells == old(cells) && history == old(history) && boundary == old(boundary)
        invariant cells[..] == Update(g, width, DiskBefore(p, r, i, j), Painter(c))
        invariant dirty == d0 + Rows(width, height, DiskBefore(p, r, i, j))
        decreases height - j
      {
        DiskCell(p, r, c, i, j, g, d0);
        j := j + 1;
      }
      forall x: nat, y: nat ensures DiskHit(p, r, i + 1, x, y) == (DiskHit(p, r, i, x, y) || (OnRing(p, r, i, y) && i <= x && x + i <= 2 * p.x)) {
        DiskHitStep(p, r, i, x, y);
      }
      UpdateSameInGrid(g, width, height, DiskBefore(p, r, i, height), DiskBefore(p, r, i + 1, 0), Painter(c));
      RowsSameInGrid(width, height, DiskBefore(p, r, i, height), DiskBefore(p, r, i + 1, 0));
    }

    /** `fill_circle`: the centre must be on the canvas; the grid is saved and
        for every ring cell (i, j) with i at most the centre column the
        colour is assigned onto the run from (i, j) to its mirror image
        (2 p.x - i, j). The source writes past the end of the row when
        2 p.x reaches the width, so that is required here. */
    method FillCircle(p: Point, r: nat, c: Color) returns (ok: bool)
      requires Valid() && width <= MaxSide && height <= MaxSide
      requires p.x < width && p.y < height ==> 2 * p.x < width
      modifies this, cells
      ensures Valid() && cells == old(cells) && boundary == old(boundary)
      ensures ok == (p.x < width && p.y < height)
      ensures !ok ==> cells[..] == old(cells[..]) && history == old(history) && dirty == old(dirty)
      ensures ok ==> (history == old(history) + [Snapshot(old(cells[..]))] &&
        cells[..] == Update(old(cells[..]), width, Disk(p, r), Painter(c)) &&
        dirty == old(dirty) + Rows(width, height, Disk(p, r)))
    {
      if p.x >= width || p.y >= height {
        return false;
      }
      SaveOld();
      ghost var g := cells[..];
      ghost var d0 := dirty;
      ghost var h0 := history;
      RewritesIdempotent(c);
      UpdateSame(g, width, Nothing(), DiskBefore(p, r, 0, 0), Painter(c));
      UpdateNothing(g, width, Painter(c));
      RowsSame(width, height, Nothing(), DiskBefore(p, r, 0, 0));
      RowsNothing(width, height);
      var i := 0;
      while i <= p.x
        invariant 0 <= i <= p.x + 1
        invariant Valid() && cells == old(cells) && boundary == old(boundary) && history == h0
        invariant cells[..] == Update(g, width, DiskBefore(p, r, i, 0), Painter(c))
        invariant dirty == d0 + Rows(width, height, DiskBefore(p, r, i, 0))
        decreases p.x + 1 - i
      {
        DiskColumn(p, r, c, i, g, d0);
        i := i + 1;
      }
      UpdateSame(g, width, DiskBefore(p, r, p.x + 1, 0), Disk(p, r), Painter(c));
      RowsSame(width, height, DiskBefore(p, r, p.x + 1, 0), Disk(p, r));
      ok := true;
    }
  }
}
