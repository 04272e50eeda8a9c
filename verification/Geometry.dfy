/** Edge functions, and the closed triangles they cut out of the integer plane. */
module Geometry {

  datatype Point = Point(x: int, y: int)

  /** The edge function of p and q at s: twice the signed area of the triangle they span. */
  function Edge(p: Point, q: Point, s: Point): int {
    (s.x - q.x) * (p.y - q.y) + (s.y - q.y) * -(p.x - q.x)
  }

  /** Twice the signed area, as the orientation test of raster computes it (B - A). */
  function Area2(p0: Point, p1: Point, p2: Point): int {
    p0.x * p1.y + p1.x * p2.y + p2.x * p0.y - (p1.x * p0.y + p2.x * p1.y + p0.x * p2.y)
  }

  predicate Inside(p0: Point, p1: Point, p2: Point, s: Point) {
    Edge(p0, p1, s) >= 0 && Edge(p1, p2, s) >= 0 && Edge(p2, p0, s) >= 0
  }

  /** s is the weighted mean of the corners. */
  predicate IsMean(p0: Point, p1: Point, p2: Point, s: Point, w0: nat, w1: nat, w2: nat) {
    && w0 + w1 + w2 > 0
    && (w0 + w1 + w2) * s.x == w0 * p0.x + w1 * p1.x + w2 * p2.x
    && (w0 + w1 + w2) * s.y == w0 * p0.y + w1 * p1.y + w2 * p2.y
  }

  /** The closed convex hull of three points. */
  ghost predicate InHull(p0: Point, p1: Point, p2: Point, s: Point) {
    exists w0: nat, w1: nat, w2: nat :: IsMean(p0, p1, p2, s, w0, w1, w2)
  }

  /** Swapping the endpoints of an edge negates its function. */
  lemma EdgeSwaps(p: Point, q: Point, s: Point)
    ensures Edge(q, p, s) == -Edge(p, q, s)
  {
  }

  lemma EdgesAreAreas(p0: Point, p1: Point, p2: Point)
    ensures Edge(p0, p1, p2) == Area2(p0, p1, p2)
    ensures Area2(p1, p2, p0) == Area2(p0, p1, p2)
    ensures Area2(p0, p2, p1) == -Area2(p0, p1, p2)
  {
  }

  lemma EdgeExpanded(p: Point, q: Point, s: Point)
    ensures Edge(p, q, s) == s.x * (p.y - q.y) + s.y * (q.x - p.x) + (q.y * p.x - q.x * p.y)
  {
  }

  /** One coordinate of the barycentric formula, multiplied out. */
  lemma BarycentricAxis(x0: int, y0: int, x1: int, y1: int, x2: int, y2: int, sx: int, sy: int)
    ensures (sx * (y1 - y2) + sy * (x2 - x1) + (y2 * x1 - x2 * y1)) * x0
            + (sx * (y2 - y0) + sy * (x0 - x2) + (y0 * x2 - x0 * y2)) * x1
            + (sx * (y0 - y1) + sy * (x1 - x0) + (y1 * x0 - x1 * y0)) * x2
            == ((y2 * x1 - x2 * y1) + (y0 * x2 - x0 * y2) + (y1 * x0 - x1 * y0)) * sx
  {
  }

  /** The edge functions at s are its barycentric weights. */
  lemma Barycentric(p0: Point, p1: Point, p2: Point, s: Point)
    ensures var (w0, w1, w2) := (Edge(p1, p2, s), Edge(p2, p0, s), Edge(p0, p1, s));
            && w0 + w1 + w2 == Area2(p0, p1, p2)
            && (w0 + w1 + w2) * s.x == w0 * p0.x + w1 * p1.x + w2 * p2.x
            && (w0 + w1 + w2) * s.y == w0 * p0.y + w1 * p1.y + w2 * p2.y
  {
    EdgeExpanded(p1, p2, s);
    EdgeExpanded(p2, p0, s);
    EdgeExpanded(p0, p1, s);
    BarycentricAxis(p0.x, p0.y, p1.x, p1.y, p2.x, p2.y, s.x, s.y);
    BarycentricAxis(p0.y, p0.x, p1.y, p1.x, p2.y, p2.x, s.y, s.x);
  }

  /** An edge function takes a weighted mean to the weighted mean of its values. */
  lemma EdgeOfMean(p: Point, q: Point, p0: Point, p1: Point, p2: Point, s: Point, w0: nat, w1: nat, w2: nat)
    requires IsMean(p0, p1, p2, s, w0, w1, w2)
    ensures (w0 + w1 + w2) * Edge(p, q, s) == w0 * Edge(p, q, p0) + w1 * Edge(p, q, p1) + w2 * Edge(p, q, p2)
  {
    var w, a, b := w0 + w1 + w2, p.y - q.y, -(p.x - q.x);
    assert w * Edge(p, q, s) == (w * s.x - w * q.x) * a + (w * s.y - w * q.y) * b;
  }

  lemma NonNegativeFactor(w: int, e: int)
    requires w > 0 && w * e >= 0
    ensures e >= 0
  {
    if e < 0 {
      ProductNegative(w, e);
    }
  }

  lemma ProductNegative(w: int, e: int)
    requires w > 0 && e < 0
    ensures w * e < 0
  {
  }

  lemma ProductNonNegative(w: int, a: int)
    requires w >= 0 && a >= 0
    ensures w * a >= 0
  {
  }

  /** An edge that has the corners on its left has their whole hull on its left. */
  lemma HullIsLeftOf(p: Point, q: Point, p0: Point, p1: Point, p2: Point, s: Point)
    requires InHull(p0, p1, p2, s)
    requires Edge(p, q, p0) >= 0 && Edge(p, q, p1) >= 0 && Edge(p, q, p2) >= 0
    ensures Edge(p, q, s) >= 0
  {
    var w0: nat, w1: nat, w2: nat :| IsMean(p0, p1, p2, s, w0, w1, w2);
    EdgeOfMean(p, q, p0, p1, p2, s, w0, w1, w2);
    ProductNonNegative(w0, Edge(p, q, p0));
    ProductNonNegative(w1, Edge(p, q, p1));
    ProductNonNegative(w2, Edge(p, q, p2));
    NonNegativeFactor(w0 + w1 + w2, Edge(p, q, s));
  }

  lemma EdgeAtEnds(p: Point, q: Point)
    ensures Edge(p, q, p) == 0 && Edge(p, q, q) == 0
  {
  }

  /** For a counterclockwise triangle, the three edge tests decide the closed hull. */
  lemma InsideIffInHull(p0: Point, p1: Point, p2: Point, s: Point)
    requires Area2(p0, p1, p2) > 0
    ensures Inside(p0, p1, p2, s) <==> InHull(p0, p1, p2, s)
  {
    if Inside(p0, p1, p2, s) {
      Barycentric(p0, p1, p2, s);
      assert IsMean(p0, p1, p2, s, Edge(p1, p2, s), Edge(p2, p0, s), Edge(p0, p1, s));
    }
    if InHull(p0, p1, p2, s) {
      EdgesAreAreas(p0, p1, p2);
      EdgesAreAreas(p1, p2, p0);
      EdgesAreAreas(p2, p0, p1);
      EdgeAtEnds(p0, p1);
      EdgeAtEnds(p1, p2);
      EdgeAtEnds(p2, p0);
      HullIsLeftOf(p0, p1, p0, p1, p2, s);
      HullIsLeftOf(p1, p2, p0, p1, p2, s);
      HullIsLeftOf(p2, p0, p0, p1, p2, s);
    }
  }

  /** A hull does not depend on the order of its corners. */
  lemma HullSwaps(p0: Point, p1: Point, p2: Point, s: Point)
    ensures InHull(p0, p1, p2, s) <==> InHull(p0, p2, p1, s)
    ensures InHull(p0, p1, p2, s) <==> InHull(p1, p0, p2, s)
  {
    forall w0: nat, w1: nat, w2: nat
      ensures IsMean(p0, p1, p2, s, w0, w1, w2) <==> IsMean(p0, p2, p1, s, w0, w2, w1)
      ensures IsMean(p0, p1, p2, s, w0, w1, w2) <==> IsMean(p1, p0, p2, s, w1, w0, w2)
    {
    }
  }

  function Min3(a: int, b: int, c: int): (m: int)
    ensures m <= a && m <= b && m <= c && (m == a || m == b || m == c)
  {
    if a <= b && a <= c then a else if b <= c then b else c
  }

  function Max3(a: int, b: int, c: int): (m: int)
    ensures m >= a && m >= b && m >= c && (m == a || m == b || m == c)
  {
    if a >= b && a >= c then a else if b >= c then b else c
  }

  lemma MeanBetween(w0: nat, w1: nat, w2: nat, x: int, x0: int, x1: int, x2: int)
    requires w0 + w1 + w2 > 0 && (w0 + w1 + w2) * x == w0 * x0 + w1 * x1 + w2 * x2
    ensures Min3(x0, x1, x2) <= x <= Max3(x0, x1, x2)
  {
    var lo, hi := Min3(x0, x1, x2), Max3(x0, x1, x2);
    ProductNonNegative(w0, x0 - lo);
    ProductNonNegative(w1, x1 - lo);
    ProductNonNegative(w2, x2 - lo);
    NonNegativeFactor(w0 + w1 + w2, x - lo) by {
      assert (w0 + w1 + w2) * (x - lo) == w0 * (x0 - lo) + w1 * (x1 - lo) + w2 * (x2 - lo);
    }
    ProductNonNegative(w0, hi - x0);
    ProductNonNegative(w1, hi - x1);
    ProductNonNegative(w2, hi - x2);
    NonNegativeFactor(w0 + w1 + w2, hi - x) by {
      assert (w0 + w1 + w2) * (hi - x) == w0 * (hi - x0) + w1 * (hi - x1) + w2 * (hi - x2);
    }
  }

  /** A hull lies in the bounding box of its corners. */
  lemma HullInBox(p0: Point, p1: Point, p2: Point, s: Point)
    requires InHull(p0, p1, p2, s)
    ensures Min3(p0.x, p1.x, p2.x) <= s.x <= Max3(p0.x, p1.x, p2.x)
    ensures Min3(p0.y, p1.y, p2.y) <= s.y <= Max3(p0.y, p1.y, p2.y)
  {
    var w0: nat, w1: nat, w2: nat :| IsMean(p0, p1, p2, s, w0, w1, w2);
    MeanBetween(w0, w1, w2, s.x, p0.x, p1.x, p2.x);
    MeanBetween(w0, w1, w2, s.y, p0.y, p1.y, p2.y);
  }

  /** v1, v2, v4, v3 in this order turn counterclockwise at every corner: a convex quadrilateral with v2-v3
      as a diagonal. */
  predicate Counterclockwise(v1: Point, v2: Point, v3: Point, v4: Point) {
    Area2(v1, v2, v4) > 0 && Area2(v2, v4, v3) > 0 && Area2(v4, v3, v1) > 0 && Area2(v3, v1, v2) > 0
  }

  /** A convex quadrilateral with v2-v3 as a diagonal, its corners in either direction. */
  predicate ConvexQuad(v1: Point, v2: Point, v3: Point, v4: Point) {
    Counterclockwise(v1, v2, v3, v4) || Counterclockwise(v1, v3, v2, v4)
  }

  predicate IsMeanOfFour(v1: Point, v2: Point, v3: Point, v4: Point, s: Point, w1: nat, w2: nat, w3: nat, w4: nat) {
    && w1 + w2 + w3 + w4 > 0
    && (w1 + w2 + w3 + w4) * s.x == w1 * v1.x + w2 * v2.x + w3 * v3.x + w4 * v4.x
    && (w1 + w2 + w3 + w4) * s.y == w1 * v1.y + w2 * v2.y + w3 * v3.y + w4 * v4.y
  }

  /** The closed convex hull of four points. */
  ghost predicate InHullOfFour(v1: Point, v2: Point, v3: Point, v4: Point, s: Point) {
    exists w1: nat, w2: nat, w3: nat, w4: nat :: IsMeanOfFour(v1, v2, v3, v4, s, w1, w2, w3, w4)
  }

  lemma EdgeOfMeanOfFour(p: Point, q: Point, v1: Point, v2: Point, v3: Point, v4: Point, s: Point,
                         w1: nat, w2: nat, w3: nat, w4: nat)
    requires IsMeanOfFour(v1, v2, v3, v4, s, w1, w2, w3, w4)
    ensures (w1 + w2 + w3 + w4) * Edge(p, q, s)
            == w1 * Edge(p, q, v1) + w2 * Edge(p, q, v2) + w3 * Edge(p, q, v3) + w4 * Edge(p, q, v4)
  {
    var (a, b, c) := (p.y - q.y, q.x - p.x, q.y * p.x - q.x * p.y);
    EdgeExpanded(p, q, s);
    EdgeExpanded(p, q, v1);
    EdgeExpanded(p, q, v2);
    EdgeExpanded(p, q, v3);
    EdgeExpanded(p, q, v4);
    var w := w1 + w2 + w3 + w4;
    LineScaled(w, s.x, s.y, a, b, c);
    LineScaled(w1, v1.x, v1.y, a, b, c);
    LineScaled(w2, v2.x, v2.y, a, b, c);
    LineScaled(w3, v3.x, v3.y, a, b, c);
    LineScaled(w4, v4.x, v4.y, a, b, c);
    FourScaled(w1 * v1.x, w2 * v2.x, w3 * v3.x, w4 * v4.x, a);
    FourScaled(w1 * v1.y, w2 * v2.y, w3 * v3.y, w4 * v4.y, b);
    FourScaled(w1, w2, w3, w4, c);
  }

  lemma LineScaled(w: int, x: int, y: int, a: int, b: int, c: int)
    ensures w * (x * a + y * b + c) == (w * x) * a + (w * y) * b + w * c
  {
  }

  lemma FourScaled(n1: int, n2: int, n3: int, n4: int, a: int)
    ensures (n1 + n2 + n3 + n4) * a == n1 * a + n2 * a + n3 * a + n4 * a
  {
  }

  lemma HullOfFourIsLeftOf(p: Point, q: Point, v1: Point, v2: Point, v3: Point, v4: Point, s: Point)
    requires InHullOfFour(v1, v2, v3, v4, s)
    requires Edge(p, q, v1) >= 0 && Edge(p, q, v2) >= 0 && Edge(p, q, v3) >= 0 && Edge(p, q, v4) >= 0
    ensures Edge(p, q, s) >= 0
  {
    var w1: nat, w2: nat, w3: nat, w4: nat :| IsMeanOfFour(v1, v2, v3, v4, s, w1, w2, w3, w4);
    EdgeOfMeanOfFour(p, q, v1, v2, v3, v4, s, w1, w2, w3, w4);
    ProductNonNegative(w1, Edge(p, q, v1));
    ProductNonNegative(w2, Edge(p, q, v2));
    ProductNonNegative(w3, Edge(p, q, v3));
    ProductNonNegative(w4, Edge(p, q, v4));
    NonNegativeFactor(w1 + w2 + w3 + w4, Edge(p, q, s));
  }

  /** A hull of three of the corners is part of the hull of all. */
  lemma HullGrows(v1: Point, v2: Point, v3: Point, v4: Point, s: Point)
    ensures InHull(v2, v1, v3, s) || InHull(v2, v4, v3, s) ==> InHullOfFour(v1, v2, v3, v4, s)
  {
    if w0: nat, w1: nat, w2: nat :| IsMean(v2, v1, v3, s, w0, w1, w2) {
      assert IsMeanOfFour(v1, v2, v3, v4, s, w1, w0, w2, 0);
    }
    if w0: nat, w1: nat, w2: nat :| IsMean(v2, v4, v3, s, w0, w1, w2) {
      assert IsMeanOfFour(v1, v2, v3, v4, s, 0, w0, w2, w1);
    }
  }

  lemma HullOfFourSwaps(v1: Point, v2: Point, v3: Point, v4: Point, s: Point)
    ensures InHullOfFour(v1, v2, v3, v4, s) <==> InHullOfFour(v1, v3, v2, v4, s)
  {
    forall w1: nat, w2: nat, w3: nat, w4: nat
      ensures IsMeanOfFour(v1, v2, v3, v4, s, w1, w2, w3, w4) <==> IsMeanOfFour(v1, v3, v2, v4, s, w1, w3, w2, w4)
    {
    }
  }

  /** The two triangles that quad draws cover the convex quadrilateral exactly, whichever way its corners turn: the
      diagonal they share is the same line read in opposite directions, so no point falls between them. */
  lemma QuadIsTwoTriangles(v1: Point, v2: Point, v3: Point, v4: Point, s: Point)
    requires ConvexQuad(v1, v2, v3, v4)
    ensures InHullOfFour(v1, v2, v3, v4, s) <==> InHull(v2, v1, v3, s) || InHull(v2, v4, v3, s)
  {
    HullGrows(v1, v2, v3, v4, s);
    if InHullOfFour(v1, v2, v3, v4, s) {
      if Counterclockwise(v1, v2, v3, v4) {
        QuadIsCovered(v1, v2, v3, v4, s);
      } else {
        HullOfFourSwaps(v1, v2, v3, v4, s);
        QuadIsCovered(v1, v3, v2, v4, s);
        HullTurns(v2, v1, v3, s);
        HullTurns(v2, v4, v3, s);
      }
    }
  }

  /** Neither triangle of a convex quadrilateral is flat. */
  lemma QuadHasArea(v1: Point, v2: Point, v3: Point, v4: Point)
    requires ConvexQuad(v1, v2, v3, v4)
    ensures Area2(v2, v1, v3) != 0 && Area2(v2, v4, v3) != 0
  {
    EdgesAreAreas(v1, v2, v3);
    EdgesAreAreas(v2, v3, v1);
    EdgesAreAreas(v2, v4, v3);
    EdgesAreAreas(v4, v3, v2);
    EdgesAreAreas(v3, v4, v2);
    EdgesAreAreas(v3, v1, v2);
    EdgesAreAreas(v2, v1, v3);
  }

  lemma HullTurns(p0: Point, p1: Point, p2: Point, s: Point)
    ensures InHull(p0, p1, p2, s) <==> InHull(p2, p1, p0, s)
  {
    HullSwaps(p0, p1, p2, s);
    HullSwaps(p0, p2, p1, s);
    HullSwaps(p2, p0, p1, s);
  }

  lemma QuadIsCovered(v1: Point, v2: Point, v3: Point, v4: Point, s: Point)
    requires Counterclockwise(v1, v2, v3, v4) && InHullOfFour(v1, v2, v3, v4, s)
    ensures InHull(v2, v1, v3, s) || InHull(v2, v4, v3, s)
  {
    QuadSides(v1, v2, v3, v4);
    HullOfFourIsLeftOf(v1, v2, v1, v2, v3, v4, s);
    HullOfFourIsLeftOf(v2, v4, v1, v2, v3, v4, s);
    HullOfFourIsLeftOf(v4, v3, v1, v2, v3, v4, s);
    HullOfFourIsLeftOf(v3, v1, v1, v2, v3, v4, s);
    EdgeSwaps(v2, v3, s);
    EdgesAreAreas(v1, v2, v3);
    EdgesAreAreas(v3, v1, v2);
    HullSwaps(v1, v2, v3, s);
    InsideIffInHull(v1, v2, v3, s);
    InsideIffInHull(v2, v4, v3, s);
  }

  lemma QuadSides(v1: Point, v2: Point, v3: Point, v4: Point)
    requires Counterclockwise(v1, v2, v3, v4)
    ensures Edge(v2, v4, v1) > 0 && Edge(v2, v4, v3) > 0 && Edge(v2, v4, v2) == Edge(v2, v4, v4) == 0
    ensures Edge(v4, v3, v1) > 0 && Edge(v4, v3, v2) > 0 && Edge(v4, v3, v3) == Edge(v4, v3, v4) == 0
    ensures Edge(v1, v2, v4) > 0 && Edge(v1, v2, v3) > 0 && Edge(v1, v2, v2) == Edge(v1, v2, v1) == 0
    ensures Edge(v3, v1, v2) > 0 && Edge(v3, v1, v4) > 0 && Edge(v3, v1, v3) == Edge(v3, v1, v1) == 0
  {
    EdgesAreAreas(v2, v4, v1);
    EdgesAreAreas(v1, v2, v4);
    EdgesAreAreas(v2, v4, v3);
    EdgesAreAreas(v4, v3, v1);
    EdgesAreAreas(v4, v3, v2);
    EdgesAreAreas(v1, v2, v3);
    EdgesAreAreas(v3, v1, v2);
    EdgesAreAreas(v3, v1, v4);
    EdgesAreAreas(v3, v2, v4);
    EdgesAreAreas(v1, v4, v3);
    EdgeAtEnds(v2, v4);
    EdgeAtEnds(v4, v3);
    EdgeAtEnds(v1, v2);
    EdgeAtEnds(v3, v1);
  }

  lemma OutsideBox(p0: Point, p1: Point, p2: Point, s: Point)
    requires s.x > Max3(p0.x, p1.x, p2.x) || s.y > Max3(p0.y, p1.y, p2.y)
    ensures !InHull(p0, p1, p2, s)
  {
    if InHull(p0, p1, p2, s) {
      HullInBox(p0, p1, p2, s);
    }
  }

  /** From lo through hi, and as far again. */
  function Beyond(lo: Point, hi: Point): Point { Point(2 * hi.x - lo.x, 2 * hi.y - lo.y) }

  lemma EdgeBeyond(p: Point, q: Point, lo: Point, hi: Point)
    ensures Edge(p, q, Beyond(lo, hi)) == 2 * Edge(p, q, hi) - Edge(p, q, lo)
  {
  }

  predicate IsCorner(p0: Point, p1: Point, p2: Point, c: Point) { c == p0 || c == p1 || c == p2 }

  /** The corners of a triangle without area are on all its edges. */
  lemma FlatCorner(p0: Point, p1: Point, p2: Point, c: Point)
    requires Area2(p0, p1, p2) == 0 && IsCorner(p0, p1, p2, c)
    ensures Edge(p0, p1, c) == 0 && Edge(p1, p2, c) == 0 && Edge(p2, p0, c) == 0
  {
    EdgesAreAreas(p0, p1, p2);
    EdgesAreAreas(p1, p2, p0);
    EdgesAreAreas(p2, p0, p1);
    EdgeAtEnds(p0, p1);
    EdgeAtEnds(p1, p2);
    EdgeAtEnds(p2, p0);
  }

  lemma BeyondIsInside(p0: Point, p1: Point, p2: Point, lo: Point, hi: Point)
    requires Area2(p0, p1, p2) == 0 && IsCorner(p0, p1, p2, lo) && IsCorner(p0, p1, p2, hi)
    ensures Inside(p0, p1, p2, Beyond(lo, hi))
  {
    FlatCorner(p0, p1, p2, lo);
    FlatCorner(p0, p1, p2, hi);
    EdgeBeyond(p0, p1, lo, hi);
    EdgeBeyond(p1, p2, lo, hi);
    EdgeBeyond(p2, p0, lo, hi);
  }

  lemma SinglePointTakesAll(p: Point, s: Point)
    ensures Inside(p, p, p, s)
  {
    EdgeSwaps(p, p, s);
  }

  /** Every triangle without area takes in some point outside its hull. */
  lemma FlatTriangleOverflows(p0: Point, p1: Point, p2: Point) returns (s: Point)
    requires Area2(p0, p1, p2) == 0
    ensures Inside(p0, p1, p2, s) && !InHull(p0, p1, p2, s)
  {
    if p0 == p1 == p2 {
      s := Point(p0.x + 1, p0.y);
      SinglePointTakesAll(p0, s);
    } else {
      var lo, hi := Extremes(p0, p1, p2);
      s := Beyond(lo, hi);
      BeyondIsInside(p0, p1, p2, lo, hi);
    }
    OutsideBox(p0, p1, p2, s);
  }

  /** Two corners as far apart as any along an axis on which the corners differ. */
  lemma Extremes(p0: Point, p1: Point, p2: Point) returns (lo: Point, hi: Point)
    requires !(p0 == p1 == p2)
    ensures IsCorner(p0, p1, p2, lo) && IsCorner(p0, p1, p2, hi)
    ensures Beyond(lo, hi).x > Max3(p0.x, p1.x, p2.x) || Beyond(lo, hi).y > Max3(p0.y, p1.y, p2.y)
  {
    if p0.x == p1.x == p2.x {
      lo := if p0.y == Min3(p0.y, p1.y, p2.y) then p0 else if p1.y == Min3(p0.y, p1.y, p2.y) then p1 else p2;
      hi := if p0.y == Max3(p0.y, p1.y, p2.y) then p0 else if p1.y == Max3(p0.y, p1.y, p2.y) then p1 else p2;
    } else {
      lo := if p0.x == Min3(p0.x, p1.x, p2.x) then p0 else if p1.x == Min3(p0.x, p1.x, p2.x) then p1 else p2;
      hi := if p0.x == Max3(p0.x, p1.x, p2.x) then p0 else if p1.x == Max3(p0.x, p1.x, p2.x) then p1 else p2;
    }
  }

  lemma ClockwiseIsEmpty(p0: Point, p1: Point, p2: Point)
    requires Area2(p0, p1, p2) < 0
    ensures !Inside(p0, p1, p2, p0) && InHull(p0, p1, p2, p0)
  {
    Barycentric(p0, p1, p2, p0);
    assert IsMean(p0, p1, p2, p0, 1, 0, 0);
  }

  /** The edge tests decide the closed hull of a triangle if and only if it is counterclockwise and has area. So once
      the corners are in the order that raster gives them, having area is the exact condition. */
  lemma TestsDecideHull(p0: Point, p1: Point, p2: Point)
    ensures (forall s :: Inside(p0, p1, p2, s) <==> InHull(p0, p1, p2, s)) <==> Area2(p0, p1, p2) > 0
  {
    if Area2(p0, p1, p2) > 0 {
      forall s
        ensures Inside(p0, p1, p2, s) <==> InHull(p0, p1, p2, s)
      {
        InsideIffInHull(p0, p1, p2, s);
      }
    } else if Area2(p0, p1, p2) < 0 {
      ClockwiseIsEmpty(p0, p1, p2);
    } else {
      var s := FlatTriangleOverflows(p0, p1, p2);
      assert !(Inside(p0, p1, p2, s) <==> InHull(p0, p1, p2, s));
    }
  }

  /** Exactly the points on the common line, whatever the hull, pass the tests of a flat triangle. */
  lemma FlatTriangleIsLine(p0: Point, p1: Point, p2: Point, s: Point)
    requires Area2(p0, p1, p2) == 0
    ensures Inside(p0, p1, p2, s)
            <==> Edge(p0, p1, s) == 0 && Edge(p1, p2, s) == 0 && Edge(p2, p0, s) == 0
  {
    Barycentric(p0, p1, p2, s);
  }
}
