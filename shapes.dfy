/** The cells each drawing operation of the canvas writes, as selectors
    over (column, row): a point, an axis-aligned rectangle, the sampled
    cells of a segment, the ring of `draw_circle`, the disk of
    `fill_circle`, and the region `fill_area` floods from a seed. */
module Shapes {
  import opened Colors
  import opened Geometry
  import opened Grid

  /** The single cell `point` writes. */
  function At(p: Point): Selector {
    (x: nat, y: nat) => x == p.x && y == p.y
  }

  // ---- rectangles ----

  /** The cells from corner `lo` to corner `hi`, both included. */
  function Box(lo: Point, hi: Point): Selector {
    (x: nat, y: nat) => lo.x <= x <= hi.x && lo.y <= y <= hi.y
  }

  /** The rectangle spanned by two opposite corners given in any order. */
  function Rect(s: Point, e: Point): Selector {
    Box(Point(Lo(s.x, e.x), Lo(s.y, e.y)), Point(Hi(s.x, e.x), Hi(s.y, e.y)))
  }

  /** The rows from `lo` to `hi`, both included. */
  function Span(lo: nat, hi: nat): set<nat> {
    set y: nat | y <= hi && Between(lo, y, hi)
  }

  predicate Between(lo: nat, y: nat, hi: nat) { lo <= y <= hi }

  /** The corners may be given in either order, and all four belong to the rectangle. */
  lemma RectCorners(s: Point, e: Point)
    ensures forall x: nat, y: nat :: Rect(s, e)(x, y) == Rect(e, s)(x, y)
    ensures Rect(s, e)(s.x, s.y) && Rect(s, e)(e.x, e.y)
    ensures Rect(s, e)(s.x, e.y) && Rect(s, e)(e.x, s.y)
  {
  }

  /** Filling a rectangle between two cells of the grid touches exactly its rows. */
  lemma RectRows(s: Point, e: Point, w: nat, h: nat)
    requires s.x < w && e.x < w && s.y < h && e.y < h
    ensures Rows(w, h, Rect(s, e)) == Span(Lo(s.y, e.y), Hi(s.y, e.y))
  {
    var lo := Lo(s.x, e.x);
    forall y: nat ensures y in Rows(w, h, Rect(s, e)) <==> y in Span(Lo(s.y, e.y), Hi(s.y, e.y)) {
      if Lo(s.y, e.y) <= y <= Hi(s.y, e.y) {
        assert Selects(Rect(s, e), lo, y);
      }
      if y in Rows(w, h, Rect(s, e)) {
        var x: nat :| x < w && Selects(Rect(s, e), x, y);
      }
    }
  }

  /** The cells a row-by-row fill of the box lo..hi has written before
      reaching cell (j, i). */
  function RectBefore(lo: Point, hi: Point, i: nat, j: nat): Selector {
    (x: nat, y: nat) => lo.x <= x <= hi.x && lo.y <= y && (y < i || (y == i && x < j))
  }

  // ---- segments ----

  /** Cell (x, y) is one of the first n samples of the segment s..e. */
  predicate LineHit(s: Point, e: Point, fineness: nat, n: nat, x: nat, y: nat) {
    exists i: nat :: i < n && i <= fineness && Sample(s, e, fineness, i) == Point(x, y)
  }

  /** The cells `draw_line` and `draw_boundary_line` write: samples 0 to
      `fineness` of the segment. */
  function Line(s: Point, e: Point, fineness: nat): Selector {
    LineUpTo(s, e, fineness, fineness + 1)
  }

  /** The first n samples, for the loops that take them one at a time. */
  function LineUpTo(s: Point, e: Point, fineness: nat, n: nat): Selector {
    (x: nat, y: nat) => LineHit(s, e, fineness, n, x, y)
  }

  /** Taking sample n adds exactly that cell. */
  lemma LineStep(s: Point, e: Point, fineness: nat, n: nat)
    requires n <= fineness
    ensures var q := Sample(s, e, fineness, n);
      forall a: nat, b: nat :: LineUpTo(s, e, fineness, n + 1)(a, b) == (LineUpTo(s, e, fineness, n)(a, b) || (a == q.x && b == q.y))
  {
    var q := Sample(s, e, fineness, n);
    forall a: nat, b: nat ensures LineHit(s, e, fineness, n + 1, a, b) == (LineHit(s, e, fineness, n, a, b) || (a == q.x && b == q.y)) {
      if LineHit(s, e, fineness, n + 1, a, b) && !(a == q.x && b == q.y) {
        var i: nat :| i < n + 1 && i <= fineness && Sample(s, e, fineness, i) == Point(a, b);
        assert i < n;
      }
      if a == q.x && b == q.y {
        assert Sample(s, e, fineness, n) == Point(a, b);
      }
    }
  }

  /** No sample is taken before the first. */
  lemma LineNone(s: Point, e: Point, fineness: nat)
    ensures forall a: nat, b: nat :: !LineUpTo(s, e, fineness, 0)(a, b)
  {
  }

  /** A line contains both end points (the end point only when there is more
      than one sample), and lies in the rectangle they span. */
  lemma LineEndsAndBox(s: Point, e: Point, fineness: nat, x: nat, y: nat)
    ensures Line(s, e, fineness)(s.x, s.y)
    ensures fineness > 0 ==> Line(s, e, fineness)(e.x, e.y)
    ensures Line(s, e, fineness)(x, y) ==> Rect(s, e)(x, y)
  {
    SampleEnds(s, e, fineness);
    assert Sample(s, e, fineness, 0) == Point(s.x, s.y);
    if fineness > 0 {
      assert Sample(s, e, fineness, fineness) == Point(e.x, e.y);
    }
    if Line(s, e, fineness)(x, y) {
      var i: nat :| i < fineness + 1 && i <= fineness && Sample(s, e, fineness, i) == Point(x, y);
      SampleInBox(s, e, fineness, i);
    }
  }

  /** A segment from a point to itself, or one sampled zero times past the
      start, writes only its start cell. */
  lemma LineSingle(s: Point, e: Point, fineness: nat, x: nat, y: nat)
    requires s == e || fineness == 0
    ensures Line(s, e, fineness)(x, y) <==> x == s.x && y == s.y
  {
    SampleEnds(s, e, fineness);
    assert Sample(s, e, fineness, 0) == Point(s.x, s.y);
    if Line(s, e, fineness)(x, y) {
      var i: nat :| i < fineness + 1 && i <= fineness && Sample(s, e, fineness, i) == Point(x, y);
      if s == e {
        SampleDegenerate(s, fineness, i);
      }
    }
  }

  /** The selected cells that were not yet boundary cells in grid g: the
      cells whose rows `draw_boundary_line` marks for redrawing. */
  function Unmarked(sel: Selector, g: seq<Color>, w: nat): Selector {
    (x: nat, y: nat) => sel(x, y) && Idx(w, x, y) < |g| && g[Idx(w, x, y)].code != Boundary
  }

  // ---- circles ----

  /** The squared distance from the centre p to cell (x, y). */
  function Dist2(p: Point, x: nat, y: nat): nat {
    var dx: int := x - p.x;
    var dy: int := y - p.y;
    dx * dx + dy * dy
  }

  /** The bounds r*r - r and r*r + r of the ring, as the source computes
      them: in `unsigned int` arithmetic, so modulo 2^32. */
  function RingLo(r: nat): nat { (r * r - r) % Two32 }
  function RingHi(r: nat): nat { (r * r + r) % Two32 }

  /** Cell (x, y) passes the test of `draw_circle` for centre p and radius r. */
  predicate OnRing(p: Point, r: nat, x: nat, y: nat) {
    RingLo(r) <= Dist2(p, x, y) <= RingHi(r)
  }

  /** The cells `draw_circle` writes. */
  function Ring(p: Point, r: nat): Selector {
    (x: nat, y: nat) => OnRing(p, r, x, y)
  }

  /** For a radius whose bounds do not wrap, the ring is the set of cells
      whose squared distance is within r of r*r: the cells at distance
      r - 1/2 to r + 1/2 from the centre. */
  lemma RingExact(p: Point, r: nat, x: nat, y: nat)
    requires r * r + r < Two32
    ensures OnRing(p, r, x, y) <==> r * r - r <= Dist2(p, x, y) <= r * r + r
  {
    MulMonoIf(1, r, r);
  }

  /** A cell r away from the centre along an axis is at squared distance r*r. */
  lemma AxisDistance(p: Point, r: nat, x: nat, y: nat)
    requires ((x == p.x + r || x + r == p.x) && y == p.y) || ((y == p.y + r || y + r == p.y) && x == p.x)
    ensures Dist2(p, x, y) == r * r
  {
    var dx: int := x - p.x;
    var dy: int := y - p.y;
    var ri: int := r;
    if y == p.y {
      assert dy == 0 && (dx == ri || dx == -ri);
    } else {
      assert dx == 0 && (dy == ri || dy == -ri);
    }
  }

  /** The ring passes through the cells r away from the centre along each axis. */
  lemma RingOnAxes(p: Point, r: nat)
    requires r * r + r < Two32
    ensures OnRing(p, r, p.x + r, p.y) && OnRing(p, r, p.x, p.y + r)
    ensures p.x >= r ==> OnRing(p, r, p.x - r, p.y)
    ensures p.y >= r ==> OnRing(p, r, p.x, p.y - r)
  {
    AxisDistance(p, r, p.x + r, p.y);
    AxisDistance(p, r, p.x, p.y + r);
    RingExact(p, r, p.x + r, p.y);
    RingExact(p, r, p.x, p.y + r);
    if p.x >= r {
      AxisDistance(p, r, p.x - r, p.y);
      RingExact(p, r, p.x - r, p.y);
    }
    if p.y >= r {
      AxisDistance(p, r, p.x, p.y - r);
      RingExact(p, r, p.x, p.y - r);
    }
  }

  /** The centre is on the ring only for radius 0 or 1. */
  lemma RingCentre(p: Point, r: nat)
    requires r * r + r < Two32
    ensures OnRing(p, r, p.x, p.y) <==> r <= 1
  {
    RingExact(p, r, p.x, p.y);
    if r >= 2 {
      MulMono(2, r, r);
    }
  }

  /** Reflecting a cell in the vertical line through the centre keeps it on the ring or off it. */
  lemma RingMirror(p: Point, r: nat, x: nat, y: nat)
    requires x <= 2 * p.x
    ensures OnRing(p, r, x, y) == OnRing(p, r, 2 * p.x - x, y)
  {
    var dx: int := x - p.x;
    var mx: int := (2 * p.x - x) - p.x;
    assert mx == -dx;
    assert mx * mx == dx * dx;
  }

  /** When r*r + r wraps past 2^32 the bounds cross and nothing is drawn:
      radius 65536 is the first such radius. */
  lemma RingWrapsAway(p: Point, x: nat, y: nat)
    ensures !OnRing(p, 65536, x, y)
  {
    assert 65536 * 65536 - 65536 == Two32 - 65536;
    assert RingLo(65536) == Two32 - 65536;
    assert 65536 * 65536 + 65536 == Two32 + 65536;
    assert RingHi(65536) == 65536;
  }

  /** Cell (x, y) is covered by one of the runs `fill_circle` paints from the
      ring cells of columns 0..n-1: the run from (i, y) to (2 p.x - i, y). */
  predicate DiskHit(p: Point, r: nat, n: nat, x: nat, y: nat) {
    exists i: nat :: i < n && i <= p.x && OnRing(p, r, i, y) && i <= x && x + i <= 2 * p.x
  }

  /** The cells `fill_circle` writes: every run from a ring cell left of
      or on the centre column to its mirror image. */
  function Disk(p: Point, r: nat): Selector {
    (x: nat, y: nat) => DiskHit(p, r, p.x + 1, x, y)
  }

  /** The cells of row y from column `from` up to but not including `to`. */
  function Run(y: nat, from: nat, to: nat): Selector {
    (a: nat, b: nat) => b == y && from <= a < to
  }

  /** A run that is not empty and lies in the grid touches just its row. */
  lemma RowsRun(w: nat, h: nat, y: nat, from: nat, to: nat)
    requires from < to && from < w && y < h
    ensures Rows(w, h, Run(y, from, to)) == {y}
  {
    assert Selects(Run(y, from, to), from, y);
    forall b: nat | b in Rows(w, h, Run(y, from, to)) ensures b == y {
      var a: nat :| a < w && Selects(Run(y, from, to), a, b);
    }
  }

  /** The cells `fill_circle` has painted before it reaches row j of
      column i: all runs of the earlier columns, and the runs of column i
      from the rows above j. */
  function DiskBefore(p: Point, r: nat, i: nat, j: nat): Selector {
    (x: nat, y: nat) => DiskHit(p, r, i, x, y) || (y < j && OnRing(p, r, i, y) && i <= x && x + i <= 2 * p.x)
  }

  /** Taking column i into account adds the run of each of its ring cells. */
  lemma DiskHitStep(p: Point, r: nat, i: nat, x: nat, y: nat)
    requires i <= p.x
    ensures DiskHit(p, r, i + 1, x, y) == (DiskHit(p, r, i, x, y) || (OnRing(p, r, i, y) && i <= x && x + i <= 2 * p.x))
  {
    if DiskHit(p, r, i + 1, x, y) && !(OnRing(p, r, i, y) && i <= x && x + i <= 2 * p.x) {
      var k: nat :| k < i + 1 && k <= p.x && OnRing(p, r, k, y) && k <= x && x + k <= 2 * p.x;
      assert k < i;
    }
    if DiskHit(p, r, i, x, y) {
      var k: nat :| k < i && k <= p.x && OnRing(p, r, k, y) && k <= x && x + k <= 2 * p.x;
      assert k < i + 1;
    }
  }

  /** Every ring cell no further right than 2 p.x is painted by `fill_circle`. */
  lemma DiskCoversRing(p: Point, r: nat, x: nat, y: nat)
    requires x <= 2 * p.x && OnRing(p, r, x, y)
    ensures Disk(p, r)(x, y)
  {
    if x <= p.x {
      assert OnRing(p, r, x, y) && x <= x && x + x <= 2 * p.x;
    } else {
      var i := 2 * p.x - x;
      RingMirror(p, r, x, y);
      assert i < p.x + 1 && i <= p.x && OnRing(p, r, i, y) && i <= x && x + i <= 2 * p.x;
    }
  }

  /** The disk is symmetric about the centre column. */
  lemma DiskMirror(p: Point, r: nat, x: nat, y: nat)
    requires x <= 2 * p.x
    ensures Disk(p, r)(x, y) == Disk(p, r)(2 * p.x - x, y)
  {
    var m := 2 * p.x - x;
    if Disk(p, r)(x, y) {
      var i: nat :| i < p.x + 1 && i <= p.x && OnRing(p, r, i, y) && i <= x && x + i <= 2 * p.x;
      assert i <= m && m + i <= 2 * p.x;
    }
    if Disk(p, r)(m, y) {
      var i: nat :| i < p.x + 1 && i <= p.x && OnRing(p, r, i, y) && i <= m && m + i <= 2 * p.x;
      assert i <= x && x + i <= 2 * p.x;
    }
  }

  /** Each row of the disk is one unbroken run of cells. */
  lemma DiskRowsConnected(p: Point, r: nat, x1: nat, x: nat, x2: nat, y: nat)
    requires x1 <= x <= x2 && Disk(p, r)(x1, y) && Disk(p, r)(x2, y)
    ensures Disk(p, r)(x, y)
  {
    var i1: nat :| i1 < p.x + 1 && i1 <= p.x && OnRing(p, r, i1, y) && i1 <= x1 && x1 + i1 <= 2 * p.x;
    var i2: nat :| i2 < p.x + 1 && i2 <= p.x && OnRing(p, r, i2, y) && i2 <= x2 && x2 + i2 <= 2 * p.x;
    if x <= p.x {
      assert i1 <= x && x + i1 <= 2 * p.x;
    } else {
      assert i2 <= x && x + i2 <= 2 * p.x;
    }
  }

  /** No painted cell lies right of 2 p.x. */
  lemma DiskBounded(p: Point, r: nat, x: nat, y: nat)
    requires Disk(p, r)(x, y)
    ensures x <= 2 * p.x
  {
  }

  // ---- flood fill ----

  /** The boundary segments that cross the segment from the seed p to q. */
  function Crossings(bs: set<Segment>, p: Point, q: Point): set<Segment> {
    set b | b in bs && Intersects(b.start, b.end, p, q)
  }

  /** `in_area`: q lies with the seed when the segment between them crosses
      an even number of boundary segments. */
  predicate EvenCrossings(bs: set<Segment>, p: Point, q: Point) {
    |Crossings(bs, p, q)| % 2 == 0
  }

  /** With no boundary drawn, every cell is with the seed. */
  lemma EvenCrossingsEmpty(p: Point, q: Point)
    ensures EvenCrossings({}, p, q)
  {
    assert Crossings({}, p, q) == {};
  }

  lemma NoBoundaryAllEven(p: Point)
    ensures forall q :: EvenCrossings({}, p, q)
  {
    forall q {
      EvenCrossingsEmpty(p, q);
    }
  }

  /** Drawing one more boundary segment flips the answer exactly for the
      cells whose segment to the seed it crosses. */
  lemma EvenCrossingsAdd(bs: set<Segment>, b: Segment, p: Point, q: Point)
    requires b !in bs
    ensures EvenCrossings(bs + {b}, p, q) <==> (EvenCrossings(bs, p, q) != Intersects(b.start, b.end, p, q))
  {
    var hit := Intersects(b.start, b.end, p, q);
    var c0 := Crossings(bs, p, q);
    var extra: set<Segment> := if hit then {b} else {};
    assert Crossings(bs + {b}, p, q) == c0 + extra;
    assert b !in c0;
    assert |c0 + extra| == |c0| + |extra|;
  }

  /** The cells the seeded `fill_area` writes on the grid g: those with the
      seed, and every boundary cell. */
  function Seeded(bs: set<Segment>, p: Point, g: seq<Color>, w: nat): (r: Selector)
    ensures forall x: nat, y: nat :: Idx(w, x, y) < |g| && g[Idx(w, x, y)].code == Boundary ==> r(x, y)
    ensures bs == {} ==> forall x: nat, y: nat :: r(x, y)
  {
    NoBoundaryAllEven(p);
    (x: nat, y: nat) => EvenCrossings(bs, p, Point(x, y)) || (Idx(w, x, y) < |g| && g[Idx(w, x, y)].code == Boundary)
  }

  /** With no boundary drawn the seeded fill covers the whole canvas; and
      boundary cells are always covered. */
  lemma SeededCovers(bs: set<Segment>, p: Point, g: seq<Color>, w: nat, x: nat, y: nat)
    ensures bs == {} ==> Seeded(bs, p, g, w)(x, y)
    ensures Idx(w, x, y) < |g| && g[Idx(w, x, y)].code == Boundary ==> Seeded(bs, p, g, w)(x, y)
  {
    EvenCrossingsEmpty(p, Point(x, y));
  }
}
