/** Grid points, their ordering, segment intersection and the sampling
    of a segment into grid cells. */
module Geometry {

  /** The number of values of a 32-bit `uint`. */
  const Two32: nat := 0x1_0000_0000

  /** A grid point with unsigned coordinates (`Point<uint>`). */
  datatype Point = Point(x: nat, y: nat)

  /** A boundary segment as it is stored: the pair (start, end), not canonicalised. */
  datatype Segment = Segment(start: Point, end: Point)

  /** `Point::operator<`: strict lexicographic order, x first. */
  predicate Less(p: Point, q: Point) {
    if p.x < q.x then true
    else if q.x < p.x then false
    else p.y < q.y
  }

  /** The same operator instantiated on pairs of points, as the set of
      boundary segments orders them. */
  predicate SegmentLess(s: Segment, t: Segment) {
    if Less(s.start, t.start) then true
    else if Less(t.start, s.start) then false
    else Less(s.end, t.end)
  }

  lemma LessIsStrictTotalOrder(p: Point, q: Point, u: Point)
    ensures !Less(p, p)
    ensures Less(p, q) ==> !Less(q, p)
    ensures Less(p, q) && Less(q, u) ==> Less(p, u)
    ensures p != q ==> Less(p, q) || Less(q, p)
  {
  }

  /** Two segments are equivalent under the set's ordering exactly when they
      are equal, so the ordered set of segments holds each (start, end) pair
      once: it is a mathematical set of pairs. */
  lemma SegmentEquivalenceIsEquality(s: Segment, t: Segment)
    ensures !SegmentLess(s, t) && !SegmentLess(t, s) <==> s == t
  {
    LessIsStrictTotalOrder(s.start, t.start, s.start);
    LessIsStrictTotalOrder(s.end, t.end, s.end);
  }

  function Max(u: real, v: real): real { if u < v then v else u }
  function Min(u: real, v: real): real { if u < v then u else v }

  /** `Canvas::intersects`: does the segment p1-p2 meet the segment p3-p4?
      Coordinates are read as signed integers. The regular case is an exact
      2x2 determinant solve; the singular cases compare the quotients the
      source computes in double precision, here as exact reals. */
  predicate Intersects(p1: Point, p2: Point, p3: Point, p4: Point)
    ensures p1 == p2 && p3 == p4 ==> (Intersects(p1, p2, p3, p4) <==> p1 == p3)
    ensures p2 == p4 && !(p1 == p2 && p3.x != p4.x && p3.y != p4.y) ==> Intersects(p1, p2, p3, p4)
  {
    var a := p1.x - p2.x;
    var b := p4.x - p3.x;
    var c := p1.y - p2.y;
    var d := p4.y - p3.y;
    var e := p4.x - p2.x;
    var f := p4.y - p2.y;
    var det := a * d - b * c;
    if det != 0 then
      var t := d * e - b * f;
      var s := a * f - c * e;
      if det > 0 then 0 <= t <= det && 0 <= s <= det
      else det <= t <= 0 && det <= s <= 0
    else if a != 0 then
      if a * f != e * c then false
      else CollinearTest(a, b, e)
    else if d != 0 then
      if b != 0 then
        // Here det == -b * c == 0 forces c == 0, so the ratio c / d the source
        // divides by is zero: its t is an infinity or NaN and the test
        // `0 <= t && t <= 1` fails whatever s is.
        assert c == 0;
        false
      else if e != 0 then false
      else CollinearTest(d, c, f)
    else
      e == 0 && f == 0
  }

  /** The interval test of a collinear case, where `u` (a or d) is the non-zero
      coefficient of one parameter and `v` (b or c) that of the other: with
      alpha = v / u the first parameter is w / u - alpha times the second, and
      the test asks whether that range meets [0, 1]. */
  predicate CollinearTest(u: int, v: int, w: int)
    requires u != 0
  {
    var alpha := v as real / u as real;
    var wu := w as real / u as real;
    if alpha > 0.0 then Max(0.0, wu - alpha) <= Min(1.0, wu)
    else Max(0.0, wu) <= Min(1.0, wu - alpha)
  }

  /** A point of the real plane. */
  datatype RPoint = RPoint(x: real, y: real)

  /** The point u + t (v - u). */
  function Lerp(u: Point, v: Point, t: real): RPoint {
    RPoint(u.x as real + t * (v.x - u.x) as real, u.y as real + t * (v.y - u.y) as real)
  }

  /** The closed segments p1-p2 and p3-p4 have a common point. */
  ghost predicate Meet(p1: Point, p2: Point, p3: Point, p4: Point) {
    exists t: real, s: real :: 0.0 <= t <= 1.0 && 0.0 <= s <= 1.0 && Lerp(p2, p1, t) == Lerp(p4, p3, s)
  }

  /** The determinant `Intersects` tests first. */
  function Det(p1: Point, p2: Point, p3: Point, p4: Point): int {
    (p1.x - p2.x) * (p4.y - p3.y) - (p4.x - p3.x) * (p1.y - p2.y)
  }

  /** Lerp(p2, p1, t) == Lerp(p4, p3, s) is the linear system the source solves:
      t a + s b == e and t c + s d == f. */
  ghost predicate Solves(a: int, b: int, c: int, d: int, e: int, f: int, t: real, s: real) {
    t * a as real + s * b as real == e as real && t * c as real + s * d as real == f as real
  }

  lemma LerpEquation(p1: Point, p2: Point, p3: Point, p4: Point, t: real, s: real)
    ensures Lerp(p2, p1, t) == Lerp(p4, p3, s) <==>
      Solves(p1.x - p2.x, p4.x - p3.x, p1.y - p2.y, p4.y - p3.y, p4.x - p2.x, p4.y - p2.y, t, s)
  {
  }

  /** In the regular case `Intersects` is exact: true iff the closed segments share a point. */
  lemma IntersectsRegular(p1: Point, p2: Point, p3: Point, p4: Point)
    requires Det(p1, p2, p3, p4) != 0
    ensures Intersects(p1, p2, p3, p4) <==> Meet(p1, p2, p3, p4)
  {
    if Intersects(p1, p2, p3, p4) {
      RegularSound(p1, p2, p3, p4);
    }
    if Meet(p1, p2, p3, p4) {
      RegularComplete(p1, p2, p3, p4);
    }
  }

  /** The outcome of the regular branch, in terms of det, t and s. */
  predicate RegularTest(det: int, t: int, s: int) {
    if det > 0 then 0 <= t <= det && 0 <= s <= det
    else det <= t <= 0 && det <= s <= 0
  }

  lemma RegularBranch(p1: Point, p2: Point, p3: Point, p4: Point)
    requires Det(p1, p2, p3, p4) != 0
    ensures var a, b, c, d := p1.x - p2.x, p4.x - p3.x, p1.y - p2.y, p4.y - p3.y;
      var e, f := p4.x - p2.x, p4.y - p2.y;
      Intersects(p1, p2, p3, p4) == RegularTest(a * d - b * c, d * e - b * f, a * f - c * e)
  {
  }

  lemma RegularSound(p1: Point, p2: Point, p3: Point, p4: Point)
    requires Det(p1, p2, p3, p4) != 0 && Intersects(p1, p2, p3, p4)
    ensures Meet(p1, p2, p3, p4)
  {
    var a, b, c, d := p1.x - p2.x, p4.x - p3.x, p1.y - p2.y, p4.y - p3.y;
    var e, f := p4.x - p2.x, p4.y - p2.y;
    RegularBranch(p1, p2, p3, p4);
    var T, S := RegularSolution(a, b, c, d, e, f);
    LerpEquation(p1, p2, p3, p4, T, S);
  }

  lemma RegularComplete(p1: Point, p2: Point, p3: Point, p4: Point)
    requires Det(p1, p2, p3, p4) != 0 && Meet(p1, p2, p3, p4)
    ensures Intersects(p1, p2, p3, p4)
  {
    MeetPassesTest(p1, p2, p3, p4);
    RegularBranch(p1, p2, p3, p4);
  }

  /** A common point of the segments gives a t and an s that pass the
      regular test. */
  lemma MeetPassesTest(p1: Point, p2: Point, p3: Point, p4: Point)
    requires Det(p1, p2, p3, p4) != 0 && Meet(p1, p2, p3, p4)
    ensures var a, b, c, d := p1.x - p2.x, p4.x - p3.x, p1.y - p2.y, p4.y - p3.y;
      var e, f := p4.x - p2.x, p4.y - p2.y;
      RegularTest(a * d - b * c, d * e - b * f, a * f - c * e)
  {
    var a, b, c, d := p1.x - p2.x, p4.x - p3.x, p1.y - p2.y, p4.y - p3.y;
    var e, f := p4.x - p2.x, p4.y - p2.y;
    var T, S := MeetWitness(p1, p2, p3, p4);
    RegularFromSolution(a, b, c, d, e, f, T, S);
  }

  /** A solution in the unit square passes the regular test. */
  lemma RegularFromSolution(a: int, b: int, c: int, d: int, e: int, f: int, T: real, S: real)
    requires a * d - b * c != 0 && 0.0 <= T <= 1.0 && 0.0 <= S <= 1.0
    requires Solves(a, b, c, d, e, f, T, S)
    ensures RegularTest(a * d - b * c, d * e - b * f, a * f - c * e)
  {
    CramerUnique(a, b, c, d, e, f, T, S);
    RegularFromScaled(a * d - b * c, d * e - b * f, a * f - c * e, T, S);
  }

  /** A common point as a solution of the system. */
  lemma MeetWitness(p1: Point, p2: Point, p3: Point, p4: Point) returns (T: real, S: real)
    requires Meet(p1, p2, p3, p4)
    ensures 0.0 <= T <= 1.0 && 0.0 <= S <= 1.0
    ensures Solves(p1.x - p2.x, p4.x - p3.x, p1.y - p2.y, p4.y - p3.y, p4.x - p2.x, p4.y - p2.y, T, S)
  {
    T, S :| 0.0 <= T <= 1.0 && 0.0 <= S <= 1.0 && Lerp(p2, p1, T) == Lerp(p4, p3, S);
    LerpEquation(p1, p2, p3, p4, T, S);
  }

  lemma RegularFromScaled(det: int, t: int, s: int, T: real, S: real)
    requires det != 0 && 0.0 <= T <= 1.0 && 0.0 <= S <= 1.0
    requires T * det as real == t as real && S * det as real == s as real
    ensures RegularTest(det, t, s)
  {
    ScaledInt(det, t, T);
    ScaledInt(det, s, S);
  }

  /** An integer t equal to T * det with T in [0, 1] lies between 0 and det. */
  lemma ScaledInt(det: int, t: int, T: real)
    requires det != 0 && 0.0 <= T <= 1.0 && T * det as real == t as real
    ensures det > 0 ==> 0 <= t <= det
    ensures det < 0 ==> det <= t <= 0
  {
    var D := det as real;
    ScaledUnitInterval(T, D);
    var tr := t as real;
    assert D > 0.0 ==> 0.0 <= tr <= D;
    assert D < 0.0 ==> D <= tr <= 0.0;
  }

  /** Cramer's rule: when the regular test passes, t / det and s / det solve
      the system and lie in [0, 1]. */
  lemma RegularSolution(a: int, b: int, c: int, d: int, e: int, f: int) returns (T: real, S: real)
    requires a * d - b * c != 0
    requires RegularTest(a * d - b * c, d * e - b * f, a * f - c * e)
    ensures 0.0 <= T <= 1.0 && 0.0 <= S <= 1.0
    ensures Solves(a, b, c, d, e, f, T, S)
  {
    var A, B, C, Dd, E, F := a as real, b as real, c as real, d as real, e as real, f as real;
    var D, t, s := A * Dd - B * C, Dd * E - B * F, A * F - C * E;
    assert D != 0.0 by {
      RealDiff(a, d, b, c);
    }
    T := t / D;
    S := s / D;
    assert 0.0 <= T <= 1.0 && 0.0 <= S <= 1.0 by {
      RealDiff(a, d, b, c);
      RealDiff(d, e, b, f);
      RealDiff(a, f, c, e);
      ScaledBounds(a * d - b * c, d * e - b * f, a * f - c * e, D, t, s);
    }
    assert Solves(a, b, c, d, e, f, T, S) by {
      CramerFirst(A, B, C, Dd, E, F);
      CramerSecond(A, B, C, Dd, E, F);
    }
  }

  /** Cramer's rule, first equation of the system. */
  lemma CramerFirst(A: real, B: real, C: real, Dd: real, E: real, F: real)
    requires A * Dd - B * C != 0.0
    ensures var D := A * Dd - B * C;
      ((Dd * E - B * F) / D) * A + ((A * F - C * E) / D) * B == E
  {
    var D := A * Dd - B * C;
    var t, s := Dd * E - B * F, A * F - C * E;
    var T, S := t / D, s / D;
    assert T * D == t && S * D == s;
    assert (T * A + S * B) * D == (T * D) * A + (S * D) * B;
    assert t * A + s * B == E * D;
    Cancel(T * A + S * B, E, D);
  }

  /** Cramer's rule, second equation of the system. */
  lemma CramerSecond(A: real, B: real, C: real, Dd: real, E: real, F: real)
    requires A * Dd - B * C != 0.0
    ensures var D := A * Dd - B * C;
      ((Dd * E - B * F) / D) * C + ((A * F - C * E) / D) * Dd == F
  {
    var D := A * Dd - B * C;
    var t, s := Dd * E - B * F, A * F - C * E;
    var T, S := t / D, s / D;
    assert T * D == t && S * D == s;
    assert (T * C + S * Dd) * D == (T * D) * C + (S * D) * Dd;
    assert t * C + s * Dd == F * D;
    Cancel(T * C + S * Dd, F, D);
  }

  /** Any solution of the system is the one Cramer's rule gives. */
  lemma CramerUnique(a: int, b: int, c: int, d: int, e: int, f: int, T: real, S: real)
    requires Solves(a, b, c, d, e, f, T, S)
    ensures T * (a * d - b * c) as real == (d * e - b * f) as real
    ensures S * (a * d - b * c) as real == (a * f - c * e) as real
  {
    var A, B, C, Dd, E, F := a as real, b as real, c as real, d as real, e as real, f as real;
    RealDiff(a, d, b, c);
    RealDiff(d, e, b, f);
    RealDiff(a, f, c, e);
    assert T * (A * Dd - B * C) == Dd * (T * A) - B * (T * C);
    assert T * A == E - S * B;
    assert T * C == F - S * Dd;
    assert Dd * (E - S * B) - B * (F - S * Dd) == Dd * E - B * F;
    assert S * (A * Dd - B * C) == A * (S * Dd) - C * (S * B);
    assert A * (F - T * C) - C * (E - T * A) == A * F - C * E;
  }

  lemma RealMul(x: int, y: int)
    ensures (x * y) as real == x as real * y as real
  {
  }

  /** The regular test, on the reals: t / det and s / det lie in [0, 1]. */
  lemma ScaledBounds(det: int, t: int, s: int, D: real, tr: real, sr: real)
    requires det != 0 && RegularTest(det, t, s)
    requires D == det as real && tr == t as real && sr == s as real
    ensures 0.0 <= tr / D <= 1.0 && 0.0 <= sr / D <= 1.0
  {
    DivScaled(tr, D);
    DivScaled(sr, D);
    UnitFromScaled(tr / D, D, tr);
    UnitFromScaled(sr / D, D, sr);
  }

  lemma RealDiff(x: int, y: int, u: int, v: int)
    ensures (x * y - u * v) as real == x as real * y as real - u as real * v as real
  {
    RealMul(x, y);
    RealMul(u, v);
  }

  lemma DivScaled(t: real, D: real)
    requires D != 0.0
    ensures (t / D) * D == t
  {
  }

  lemma Cancel(x: real, y: real, D: real)
    requires x * D == y * D && D != 0.0
    ensures x == y
  {
  }

  /** If x * D == t and t lies between 0 and D, then x lies in [0, 1]. */
  lemma UnitFromScaled(x: real, D: real, t: real)
    requires x * D == t && D != 0.0
    requires D > 0.0 ==> 0.0 <= t <= D
    requires D < 0.0 ==> D <= t <= 0.0
    ensures 0.0 <= x <= 1.0
  {
  }

  /** x in [0, 1] scaled by D != 0 lies between 0 and D. */
  lemma ScaledUnitInterval(x: real, D: real)
    requires 0.0 <= x <= 1.0 && D != 0.0
    ensures D > 0.0 ==> 0.0 <= x * D <= D
    ensures D < 0.0 ==> D <= x * D <= 0.0
  {
  }

  /** ScaledUnitInterval, with the zero factor included on the non-positive side. */
  lemma ScaledSign(x: real, D: real)
    requires 0.0 <= x <= 1.0
    ensures D > 0.0 ==> 0.0 <= x * D <= D
    ensures D <= 0.0 ==> D <= x * D <= 0.0
  {
    if D != 0.0 {
      ScaledUnitInterval(x, D);
    }
  }

  /** Whatever branch it takes, `Intersects` reports a meeting only when the
      segments really share a point. */
  lemma IntersectsSound(p1: Point, p2: Point, p3: Point, p4: Point)
    requires Intersects(p1, p2, p3, p4)
    ensures Meet(p1, p2, p3, p4)
  {
    var a, b, c, d := p1.x - p2.x, p4.x - p3.x, p1.y - p2.y, p4.y - p3.y;
    var e, f := p4.x - p2.x, p4.y - p2.y;
    if Det(p1, p2, p3, p4) != 0 {
      IntersectsRegular(p1, p2, p3, p4);
    } else if a != 0 {
      var T, S := CollinearWitness(a, b, c, d, e, f);
      LerpEquation(p1, p2, p3, p4, T, S);
    } else if d != 0 {
      var S, T := CollinearWitness(d, c, b, a, f, e);
      LerpEquation(p1, p2, p3, p4, T, S);
    } else {
      LerpEquation(p1, p2, p3, p4, 0.0, 0.0);
    }
  }

  /** When the collinear interval test passes, a common point exists. */
  lemma CollinearWitness(a: int, b: int, c: int, d: int, e: int, f: int) returns (T: real, S: real)
    requires a != 0 && a * d - b * c == 0 && a * f == e * c
    requires CollinearTest(a, b, e)
    ensures 0.0 <= T <= 1.0 && 0.0 <= S <= 1.0
    ensures Solves(a, b, c, d, e, f, T, S)
  {
    RealMul(a, d); RealMul(b, c); RealMul(a, f); RealMul(e, c);
    T, S := CollinearWitnessReal(a as real, b as real, c as real, d as real, e as real, f as real);
  }

  /** CollinearWitness over the reals. */
  lemma CollinearWitnessReal(A: real, B: real, C: real, Dd: real, E: real, F: real) returns (T: real, S: real)
    requires A != 0.0 && A * Dd == B * C && A * F == E * C
    requires var alpha, ea := B / A, E / A;
      if alpha > 0.0 then Max(0.0, ea - alpha) <= Min(1.0, ea)
      else Max(0.0, ea) <= Min(1.0, ea - alpha)
    ensures 0.0 <= T <= 1.0 && 0.0 <= S <= 1.0
    ensures T * A + S * B == E && T * C + S * Dd == F
  {
    var alpha := B / A;
    var ea := E / A;
    assert alpha * A == B;
    assert ea * A == E;
    T, S := IntervalPick(alpha, ea);
    assert (T + S * alpha) * A == ea * A;
    assert (T + S * alpha) * A == T * A + S * (alpha * A);
    assert T * A + S * B == E;
    assert (T * C + S * Dd) * A == (T * A) * C + S * (A * Dd);
    assert S * (B * C) == (S * B) * C;
    assert (T * A) * C + (S * B) * C == (T * A + S * B) * C;
    assert (T * C + S * Dd) * A == E * C;
    assert F * A == A * F;
    assert (T * C + S * Dd) * A == F * A;
    Cancel(T * C + S * Dd, F, A);
  }

  /** A point (T, S) of the unit square on the line T + S alpha == ea, when
      the interval test says there is one. */
  lemma IntervalPick(alpha: real, ea: real) returns (T: real, S: real)
    requires if alpha > 0.0 then Max(0.0, ea - alpha) <= Min(1.0, ea)
      else Max(0.0, ea) <= Min(1.0, ea - alpha)
    ensures 0.0 <= T <= 1.0 && 0.0 <= S <= 1.0
    ensures T + S * alpha == ea
  {
    if alpha == 0.0 {
      T, S := ea, 0.0;
    } else {
      T := Max(0.0, if alpha > 0.0 then ea - alpha else ea);
      S := (ea - T) / alpha;
      assert S * alpha == ea - T;
      UnitFromScaled(S, alpha, ea - T);
    }
  }

  /** Conversely, if the system has a solution in [0, 1] x [0, 1], the
      collinearity check and the interval test both pass. */
  lemma CollinearComplete(a: int, b: int, c: int, d: int, e: int, f: int, T: real, S: real)
    requires a != 0 && a * d - b * c == 0
    requires 0.0 <= T <= 1.0 && 0.0 <= S <= 1.0 && Solves(a, b, c, d, e, f, T, S)
    ensures a * f == e * c
    ensures CollinearTest(a, b, e)
  {
    CollinearCross(a, b, c, d, e, f, T, S);
    CollinearTestFromPick(a, b, e, T, S);
  }

  lemma CollinearTestFromPick(a: int, b: int, e: int, T: real, S: real)
    requires a != 0 && 0.0 <= T <= 1.0 && 0.0 <= S <= 1.0
    requires T * a as real + S * b as real == e as real
    ensures CollinearTest(a, b, e)
  {
    var A, B, E := a as real, b as real, e as real;
    PickOnLine(A, B, E, T, S);
    UnitPick(B / A, E / A, T, S);
  }

  /** A point of the unit square on the line T + S alpha == ea passes the interval test. */
  lemma UnitPick(alpha: real, ea: real, T: real, S: real)
    requires 0.0 <= T <= 1.0 && 0.0 <= S <= 1.0 && T + S * alpha == ea
    ensures if alpha > 0.0 then Max(0.0, ea - alpha) <= Min(1.0, ea)
      else Max(0.0, ea) <= Min(1.0, ea - alpha)
  {
    ScaledSign(S, alpha);
    PickInInterval(alpha, ea, T, S * alpha);
  }

  /** With a zero determinant, a solvable system has a zero cross product a f - e c. */
  lemma CollinearCross(a: int, b: int, c: int, d: int, e: int, f: int, T: real, S: real)
    requires a * d - b * c == 0 && Solves(a, b, c, d, e, f, T, S)
    ensures a * f == e * c
  {
    var A, B, C, Dd, E, F := a as real, b as real, c as real, d as real, e as real, f as real;
    RealMul(a, d); RealMul(b, c); RealMul(a, f); RealMul(e, c);
    assert A * Dd == B * C;
    assert A * F == A * (T * C) + (A * Dd) * S;
    assert E * C == (T * A) * C + (S * B) * C;
    assert A * F == E * C;
  }

  /** Dividing T A + S B == E by A. */
  lemma PickOnLine(A: real, B: real, E: real, T: real, S: real)
    requires A != 0.0 && T * A + S * B == E
    ensures T + S * (B / A) == E / A
  {
    var alpha := B / A;
    var ea := E / A;
    assert alpha * A == B;
    assert ea * A == E;
    assert (ea - S * alpha) * A == E - S * B;
    Cancel(T, ea - S * alpha, A);
  }

  /** A point T of [0, 1] with T + x == ea, where x lies between 0 and alpha,
      passes the interval test. */
  lemma PickInInterval(alpha: real, ea: real, T: real, x: real)
    requires 0.0 <= T <= 1.0 && T + x == ea
    requires alpha > 0.0 ==> 0.0 <= x <= alpha
    requires alpha <= 0.0 ==> alpha <= x <= 0.0
    ensures if alpha > 0.0 then Max(0.0, ea - alpha) <= Min(1.0, ea)
      else Max(0.0, ea) <= Min(1.0, ea - alpha)
  {
  }

  /** In the collinear cases the source handles (a != 0, or a == 0 with
      d != 0 and b == 0) the test is also complete. */
  lemma IntersectsCollinearComplete(p1: Point, p2: Point, p3: Point, p4: Point)
    requires Det(p1, p2, p3, p4) == 0
    requires p1.x != p2.x || (p4.y != p3.y && p4.x == p3.x)
    requires Meet(p1, p2, p3, p4)
    ensures Intersects(p1, p2, p3, p4)
  {
    var a, b, c, d := p1.x - p2.x, p4.x - p3.x, p1.y - p2.y, p4.y - p3.y;
    var e, f := p4.x - p2.x, p4.y - p2.y;
    var T: real, S: real :| 0.0 <= T <= 1.0 && 0.0 <= S <= 1.0 && Lerp(p2, p1, T) == Lerp(p4, p3, S);
    LerpEquation(p1, p2, p3, p4, T, S);
    if a != 0 {
      CollinearComplete(a, b, c, d, e, f, T, S);
    } else {
      assert e == 0;
      CollinearComplete(d, c, b, a, f, e, S, T);
    }
  }

  /** A one-point segment is never reported against a segment that is neither
      vertical nor horizontal: that is the branch whose ratio c / d is zero. */
  lemma PointAgainstDiagonal(p: Point, p3: Point, p4: Point)
    requires p3.x != p4.x && p3.y != p4.y
    ensures !Intersects(p, p, p3, p4)
  {
  }

  /** A vertical segment against a one-point segment is reported only when
      the point is the segment's second end p2. */
  lemma VerticalAgainstPoint(p1: Point, p2: Point, q: Point)
    requires p1.x == p2.x
    ensures Intersects(p1, p2, q, q) <==> q == p2
  {
  }

  /** Two degenerate configurations the singular branches miss: a one-point
      segment lying on a diagonal segment, and a one-point segment lying on a
      vertical one. In both the segments share a point, yet `Intersects` is false. */
  lemma IntersectsMissesDegenerate()
    ensures Meet(Point(1, 1), Point(1, 1), Point(0, 0), Point(2, 2))
    ensures !Intersects(Point(1, 1), Point(1, 1), Point(0, 0), Point(2, 2))
    ensures Meet(Point(0, 2), Point(0, 0), Point(0, 1), Point(0, 1))
    ensures !Intersects(Point(0, 2), Point(0, 0), Point(0, 1), Point(0, 1))
  {
    assert Lerp(Point(1, 1), Point(1, 1), 0.0) == Lerp(Point(2, 2), Point(0, 0), 0.5);
    assert Lerp(Point(0, 0), Point(0, 2), 0.5) == Lerp(Point(0, 1), Point(0, 1), 0.0);
  }

  /** `std::lround` of the rational n / d (d > 0): to the nearest integer,
      halves away from zero. */
  function RoundDiv(n: int, d: int): int
    requires d > 0
  {
    if n >= 0 then (2 * n + d) / (2 * d) else -((2 * -n + d) / (2 * d))
  }

  /** RoundDiv(n, d) is within one half of n / d, and a half rounds away from zero. */
  lemma RoundDivNearest(n: int, d: int)
    requires d > 0
    ensures n >= 0 ==> 2 * RoundDiv(n, d) * d - d <= 2 * n < 2 * RoundDiv(n, d) * d + d
    ensures n < 0 ==> 2 * RoundDiv(n, d) * d - d < 2 * n <= 2 * RoundDiv(n, d) * d + d
  {
    var m := if n >= 0 then n else -n;
    var q := (2 * m + d) / (2 * d);
    DivMod(2 * m + d, 2 * d);
    assert q * (2 * d) <= 2 * m + d < q * (2 * d) + 2 * d;
  }

  /** The Euclidean division facts, in the form the proofs here use. */
  lemma DivMod(x: int, y: int)
    requires y > 0
    ensures (x / y) * y <= x < (x / y) * y + y
  {
  }

  /** x / y == k as soon as k * y <= x < (k + 1) * y. */
  lemma DivBetween(x: int, y: int, k: int)
    requires y > 0 && k * y <= x < k * y + y
    ensures x / y == k
  {
    DivMod(x, y);
    var q := x / y;
    MulMonoIf(q + 1, k, y);
    MulMonoIf(k + 1, q, y);
  }

  /** MulMono as an implication, for use where the premise may or may not hold. */
  lemma MulMonoIf(u: int, v: int, y: int)
    ensures u <= v && y >= 0 ==> u * y <= v * y
  {
    if u <= v && y >= 0 {
      MulMono(u, v, y);
    }
  }

  lemma MulMono(u: int, v: int, y: int)
    requires u <= v && y >= 0
    ensures u * y <= v * y
  {
    assert v * y - u * y == (v - u) * y;
  }

  function Lo(u: nat, v: nat): nat { if u < v then u else v }
  function Hi(u: nat, v: nat): nat { if u < v then v else u }

  /** One coordinate of sample i of the segment s..e cut into `fineness`
      steps: s + i (e - s) / fineness, rounded as `std::lround` does. The
      source accumulates the step in double precision; this is the exact
      rational it approximates. With fineness 0 the only sample is s. */
  function SampleCoord(s: nat, e: nat, fineness: nat, i: nat): (r: nat)
    requires i <= fineness
    ensures Lo(s, e) <= r <= Hi(s, e)
  {
    if fineness == 0 then s
    else
      var n := s * fineness + i * (e - s);
      SampleWithin(s, e, fineness, i);
      RoundDiv(n, fineness)
  }

  lemma SampleWithin(s: nat, e: nat, fineness: nat, i: nat)
    requires 0 < fineness && i <= fineness
    ensures Lo(s, e) <= RoundDiv(s * fineness + i * (e - s), fineness) <= Hi(s, e)
  {
    ScaledBetween(s, e, fineness, i);
    RoundWithin(s * fineness + i * (e - s), fineness, Lo(s, e), Hi(s, e));
  }

  /** Before rounding, sample i lies between the endpoints (scaled by fineness). */
  lemma ScaledBetween(s: nat, e: nat, fineness: nat, i: nat)
    requires 0 < fineness && i <= fineness
    ensures Lo(s, e) * fineness <= s * fineness + i * (e - s) <= Hi(s, e) * fineness
  {
    var F := fineness;
    if s <= e {
      MulMono(0, i, e - s);
      MulMono(i, F, e - s);
      assert F * (e - s) == e * F - s * F;
    } else {
      MulMono(0, i, s - e);
      MulMono(i, F, s - e);
      assert i * (e - s) == -(i * (s - e));
      assert F * (s - e) == s * F - e * F;
    }
  }

  /** Rounding n / F stays within integer bounds lo and hi of n / F. */
  lemma RoundWithin(n: int, F: int, lo: nat, hi: int)
    requires F > 0 && lo * F <= n <= hi * F
    ensures lo <= RoundDiv(n, F) <= hi
  {
    MulMono(0, lo, F);
    var q := (2 * n + F) / (2 * F);
    assert q * (2 * F) <= 2 * n + F < (q + 1) * (2 * F) by {
      DivMod(2 * n + F, 2 * F);
    }
    assert lo <= q by {
      MulMonoIf(q + 1, lo, 2 * F);
    }
    assert q <= hi by {
      MulMonoIf(hi + 1, q, 2 * F);
    }
  }

  /** Sample i of the segment start..end. */
  function Sample(start: Point, end: Point, fineness: nat, i: nat): Point
    requires i <= fineness
  {
    Point(SampleCoord(start.x, end.x, fineness, i), SampleCoord(start.y, end.y, fineness, i))
  }

  /** The first sample is the start point and the last one the end point. */
  lemma SampleEnds(start: Point, end: Point, fineness: nat)
    ensures Sample(start, end, fineness, 0) == start
    ensures fineness > 0 ==> Sample(start, end, fineness, fineness) == end
  {
    if fineness > 0 {
      RoundExact(start.x, fineness);
      RoundExact(start.y, fineness);
      assert start.x * fineness + fineness * (end.x - start.x) == end.x * fineness;
      assert start.y * fineness + fineness * (end.y - start.y) == end.y * fineness;
      RoundExact(end.x, fineness);
      RoundExact(end.y, fineness);
    }
  }

  lemma RoundExact(m: nat, d: int)
    requires d > 0
    ensures RoundDiv(m * d, d) == m
  {
    DivBetween(2 * (m * d) + d, 2 * d, m);
  }

  /** Every sample lies in the bounding box of the two end points, so a
      segment between two cells of the grid only touches cells of the grid. */
  lemma SampleInBox(start: Point, end: Point, fineness: nat, i: nat)
    requires i <= fineness
    ensures Lo(start.x, end.x) <= Sample(start, end, fineness, i).x <= Hi(start.x, end.x)
    ensures Lo(start.y, end.y) <= Sample(start, end, fineness, i).y <= Hi(start.y, end.y)
  {
  }

  /** A segment from a point to itself samples only that point. */
  lemma SampleDegenerate(p: Point, fineness: nat, i: nat)
    requires i <= fineness
    ensures Sample(p, p, fineness, i) == p
  {
  }
}
