/** The rasterisers: the reference model tb/models/gfx_pineda.py, with its frame buffer, and the one that runs
    on the host, platform/wavelet3d/host_sw/demo.c. Both walk a bounding box and update edge functions by
    addition. Coordinates are in sixteenths of a pixel, in unbounded integers. */
module Raster {
  import opened Geometry

  const W := 640
  const H := 480

  datatype Pixel = Pixel(x: int, y: int, count: nat)

  datatype Triangle = Triangle(p0: Point, p1: Point, p2: Point) {
    predicate Covers(s: Point) { Inside(p0, p1, p2, s) }
    function Twice(): int { Area2(p0, p1, p2) }
  }

  /** The walk, corner to corner, in sixteenths of a pixel. */
  datatype Box = Box(minx: int, miny: int, maxx: int, maxy: int)

  function Min(a: int, b: int): int { if a < b then a else b }
  function Max(a: int, b: int): int { if a > b then a else b }

  /** bounding: the corners' box, clamped to the screen. */
  function Bounding(t: Triangle): Box {
    Box(Max(Min3(t.p0.x, t.p1.x, t.p2.x), -W / 2 * 16),
        Max(Min3(t.p0.y, t.p1.y, t.p2.y), -H / 2 * 16),
        Min(Max3(t.p0.x, t.p1.x, t.p2.x), W / 2 * 16),
        Min(Max3(t.p0.y, t.p1.y, t.p2.y), H / 2 * 16))
  }

  /** The sample positions of a pixel, relative to its origin. */
  function Samples(msaa: bool): seq<Point> {
    if msaa then [Point(-5, 10), Point(11, 2), Point(-7, -4)] else [Point(0, 0)]
  }

  function Sample(x: int, y: int, o: Point): Point {
    Point(x + o.x, y + o.y)
  }

  /** How many of the samples of the pixel at (x, y) the triangle covers. */
  function Count(t: Triangle, x: int, y: int, samples: seq<Point>): nat {
    if samples == [] then 0
    else
      var n := |samples| - 1;
      Count(t, x, y, samples[..n]) + if t.Covers(Sample(x, y, samples[n])) then 1 else 0
  }

  /** What the walk yields at (x, y). */
  function Cell(t: Triangle, x: int, y: int, msaa: bool): seq<Pixel> {
    var count := Count(t, x, y, Samples(msaa));
    if count > 0 then [Pixel(x / 16, y / 16, if msaa then count else 3)] else []
  }

  function Column(t: Triangle, x: int, y0: int, n: nat, msaa: bool): seq<Pixel> {
    if n == 0 then [] else Column(t, x, y0, n - 1, msaa) + Cell(t, x, y0 + 16 * (n - 1), msaa)
  }

  function Grid(t: Triangle, x0: int, m: nat, y0: int, n: nat, msaa: bool): seq<Pixel> {
    if m == 0 then []
    else Grid(t, x0, m - 1, y0, n, msaa) + Column(t, x0 + 16 * (m - 1), y0, n, msaa)
  }

  /** The number of values from lo, in steps of 16, below hi. */
  function Steps(lo: int, hi: int): nat {
    if hi <= lo then 0 else (hi - lo + 15) / 16
  }

  /** What the direct test on every pixel of the walk yields. */
  function Direct(t: Triangle, x0: int, y0: int, box: Box, msaa: bool): seq<Pixel> {
    Grid(t, x0, Steps(x0, box.maxx + 16), y0, Steps(y0, box.maxy + 16), msaa)
  }

  /** edge_fn: the value at s and the increments along x and y. */
  function EdgeFn(p: Point, q: Point, s: Point): (e: (int, int, int))
    ensures e.0 == Edge(p, q, s)
  {
    (Edge(p, q, s), p.y - q.y, -(p.x - q.x))
  }

  /** An edge function is affine: it can be carried along by addition. */
  lemma EdgeMoves(p: Point, q: Point, s: Point, dx: int, dy: int)
    ensures Edge(p, q, Point(s.x + dx, s.y + dy)) == Edge(p, q, s) + (p.y - q.y) * dx + -(p.x - q.x) * dy
  {
  }

  lemma EdgeSteps(p: Point, q: Point, s: Point)
    ensures Edge(p, q, Point(s.x + 16, s.y)) == Edge(p, q, s) + (p.y - q.y) * 16
    ensures Edge(p, q, Point(s.x, s.y + 16)) == Edge(p, q, s) + -(p.x - q.x) * 16
  {
    EdgeMoves(p, q, s, 16, 0);
    EdgeMoves(p, q, s, 0, 16);
  }

  /** The inner loop over the samples of one pixel, from the three values at its origin. */
  method CountSamples(t: Triangle, x: int, y: int, samples: seq<Point>, a: int, b: int, c: int)
    returns (count: nat)
    requires a == Edge(t.p0, t.p1, Point(x, y)) && b == Edge(t.p1, t.p2, Point(x, y))
    requires c == Edge(t.p2, t.p0, Point(x, y))
    ensures count == Count(t, x, y, samples)
  {
    var (_, addXa, addYa) := EdgeFn(t.p0, t.p1, Point(x, y));
    var (_, addXb, addYb) := EdgeFn(t.p1, t.p2, Point(x, y));
    var (_, addXc, addYc) := EdgeFn(t.p2, t.p0, Point(x, y));
    count := 0;
    for k := 0 to |samples|
      invariant count == Count(t, x, y, samples[..k])
    {
      var o := samples[k];
      EdgeMoves(t.p0, t.p1, Point(x, y), o.x, o.y);
      EdgeMoves(t.p1, t.p2, Point(x, y), o.x, o.y);
      EdgeMoves(t.p2, t.p0, Point(x, y), o.x, o.y);
      if a + (addXa * o.x + addYa * o.y) >= 0 && b + (addXb * o.x + addYb * o.y) >= 0
         && c + (addXc * o.x + addYc * o.y) >= 0 {
        count := count + 1;
      }
      assert samples[..k + 1][..k] == samples[..k];
    }
    assert samples[..|samples|] == samples;
  }

  lemma StepsReached(lo: int, hi: int, i: nat)
    requires lo + 16 * i >= hi && (i == 0 || lo + 16 * (i - 1) < hi)
    ensures i == Steps(lo, hi)
  {
  }

  /** The inner loop of raster: one column, from the three values at its top. */
  method WalkColumn(t: Triangle, x: int, y0: int, stop: int, msaa: bool, baseXa: int, baseXb: int, baseXc: int)
    returns (out: seq<Pixel>)
    requires baseXa == Edge(t.p0, t.p1, Point(x, y0)) && baseXb == Edge(t.p1, t.p2, Point(x, y0))
    requires baseXc == Edge(t.p2, t.p0, Point(x, y0))
    ensures out == Column(t, x, y0, Steps(y0, stop), msaa)
  {
    var samples := Samples(msaa);
    var addYa, addYb, addYc := -(t.p0.x - t.p1.x), -(t.p1.x - t.p2.x), -(t.p2.x - t.p0.x);
    var baseYa, baseYb, baseYc, y := baseXa, baseXb, baseXc, y0;
    out := [];
    ghost var j := 0;
    while y < stop
      invariant y == y0 + 16 * j && (j == 0 || y - 16 < stop)
      invariant baseYa == Edge(t.p0, t.p1, Point(x, y))
      invariant baseYb == Edge(t.p1, t.p2, Point(x, y))
      invariant baseYc == Edge(t.p2, t.p0, Point(x, y))
      invariant out == Column(t, x, y0, j, msaa)
      decreases stop - y
    {
      var count := CountSamples(t, x, y, samples, baseYa, baseYb, baseYc);
      if count > 0 {
        out := out + [Pixel(x / 16, y / 16, if msaa then count else 3)];
      }
      EdgeSteps(t.p0, t.p1, Point(x, y));
      EdgeSteps(t.p1, t.p2, Point(x, y));
      EdgeSteps(t.p2, t.p0, Point(x, y));
      baseYa := baseYa + addYa * 16;
      baseYb := baseYb + addYb * 16;
      baseYc := baseYc + addYc * 16;
      y := y + 16;
      j := j + 1;
    }
    StepsReached(y0, stop, j);
  }

  /** The walk of raster: edge values kept by addition yield what the direct test yields. */
  method Walk(t: Triangle, x0: int, y0: int, box: Box, msaa: bool) returns (out: seq<Pixel>)
    ensures out == Direct(t, x0, y0, box, msaa)
  {
    var s := Point(x0, y0);
    var (baseXa, addXa, _) := EdgeFn(t.p0, t.p1, s);
    var (baseXb, addXb, _) := EdgeFn(t.p1, t.p2, s);
    var (baseXc, addXc, _) := EdgeFn(t.p2, t.p0, s);
    out := [];
    var x := x0;
    ghost var m, n := 0, Steps(y0, box.maxy + 16);
    while x < box.maxx + 16
      invariant x == x0 + 16 * m && (m == 0 || x - 16 < box.maxx + 16)
      invariant baseXa == Edge(t.p0, t.p1, Point(x, y0))
      invariant baseXb == Edge(t.p1, t.p2, Point(x, y0))
      invariant baseXc == Edge(t.p2, t.p0, Point(x, y0))
      invariant out == Grid(t, x0, m, y0, n, msaa)
      decreases box.maxx + 16 - x
    {
      var column := WalkColumn(t, x, y0, box.maxy + 16, msaa, baseXa, baseXb, baseXc);
      out := out + column;
      EdgeSteps(t.p0, t.p1, Point(x, y0));
      EdgeSteps(t.p1, t.p2, Point(x, y0));
      EdgeSteps(t.p2, t.p0, Point(x, y0));
      baseXa := baseXa + addXa * 16;
      baseXb := baseXb + addXb * 16;
      baseXc := baseXc + addXc * 16;
      x := x + 16;
      m := m + 1;
    }
    StepsReached(x0, box.maxx + 16, m);
  }

  /** The triangle with its corners counterclockwise, as raster arranges them. */
  function Oriented(v0: Point, v1: Point, v2: Point): Triangle {
    var a := v1.x * v0.y + v2.x * v1.y + v0.x * v2.y;
    var b := v0.x * v1.y + v1.x * v2.y + v2.x * v0.y;
    if a > b then Triangle(v0, v2, v1) else Triangle(v0, v1, v2)
  }

  lemma OrientedFacts(v0: Point, v1: Point, v2: Point, s: Point)
    requires Area2(v0, v1, v2) != 0
    ensures Oriented(v0, v1, v2).Twice() > 0
    ensures Oriented(v0, v1, v2).Covers(s) <==> InHull(v0, v1, v2, s)
  {
    EdgesAreAreas(v0, v1, v2);
    HullSwaps(v0, v1, v2, s);
    var t := Oriented(v0, v1, v2);
    InsideIffInHull(t.p0, t.p1, t.p2, s);
  }

  /** Rounding down, as Python's // does, and toward zero, as C's / does. */
  function FloorStart(v: int): int { v / 16 * 16 }
  function TruncatedStart(v: int): int { if v < 0 then -(-v / 16 * 16) else v / 16 * 16 }

  /** raster of gfx_pineda.py */
  method RasterModel(v0: Point, v1: Point, v2: Point, msaa: bool) returns (out: seq<Pixel>)
    ensures out == Rastered(v0, v1, v2, msaa)
  {
    var t := Oriented(v0, v1, v2);
    var box := Bounding(t);
    out := Walk(t, FloorStart(box.minx), FloorStart(box.miny), box, msaa);
  }

  function Rastered(v0: Point, v1: Point, v2: Point, msaa: bool): seq<Pixel> {
    var t := Oriented(v0, v1, v2);
    var box := Bounding(t);
    Direct(t, FloorStart(box.minx), FloorStart(box.miny), box, msaa)
  }

  predicate OnScreen(px: int, py: int) {
    -W / 2 <= px < W / 2 && -H / 2 <= py < H / 2
  }

  /** How many of the samples lie in the closed hull of the corners. */
  ghost function HullCount(v0: Point, v1: Point, v2: Point, x: int, y: int, samples: seq<Point>): nat {
    if samples == [] then 0
    else
      var n := |samples| - 1;
      HullCount(v0, v1, v2, x, y, samples[..n]) + if InHull(v0, v1, v2, Sample(x, y, samples[n])) then 1 else 0
  }

  lemma {:induction false} CountIsHullCount(v0: Point, v1: Point, v2: Point, x: int, y: int, samples: seq<Point>)
    requires Area2(v0, v1, v2) != 0
    ensures Count(Oriented(v0, v1, v2), x, y, samples) == HullCount(v0, v1, v2, x, y, samples)
  {
    if samples != [] {
      var n := |samples| - 1;
      CountIsHullCount(v0, v1, v2, x, y, samples[..n]);
      OrientedFacts(v0, v1, v2, Sample(x, y, samples[n]));
    }
  }

  lemma {:induction false} ColumnMember(t: Triangle, x: int, y0: int, n: nat, msaa: bool, q: Pixel) returns (j: nat)
    requires q in Column(t, x, y0, n, msaa)
    ensures j < n && q in Cell(t, x, y0 + 16 * j, msaa)
  {
    if q in Column(t, x, y0, n - 1, msaa) {
      j := ColumnMember(t, x, y0, n - 1, msaa, q);
    } else {
      j := n - 1;
    }
  }

  lemma {:induction false} ColumnIncludes(t: Triangle, x: int, y0: int, n: nat, msaa: bool, q: Pixel, j: nat)
    requires j < n && q in Cell(t, x, y0 + 16 * j, msaa)
    ensures q in Column(t, x, y0, n, msaa)
  {
    if j < n - 1 {
      ColumnIncludes(t, x, y0, n - 1, msaa, q, j);
    }
  }

  lemma InEither(q: Pixel, a: seq<Pixel>, b: seq<Pixel>)
    requires q in a + b
    ensures q in a || q in b
  {
  }

  /** A pixel of a walk is in its last column or before it. */
  lemma LastColumn(t: Triangle, x0: int, m: nat, y0: int, n: nat, msaa: bool, q: Pixel)
    requires q in Grid(t, x0, m, y0, n, msaa)
    ensures m > 0
    ensures q in Grid(t, x0, m - 1, y0, n, msaa) || q in Column(t, x0 + 16 * (m - 1), y0, n, msaa)
  {
    if m > 0 {
      InEither(q, Grid(t, x0, m - 1, y0, n, msaa), Column(t, x0 + 16 * (m - 1), y0, n, msaa));
    }
  }

  lemma {:induction false} GridMember(t: Triangle, x0: int, m: nat, y0: int, n: nat, msaa: bool, q: Pixel)
    returns (i: nat, j: nat)
    requires q in Grid(t, x0, m, y0, n, msaa)
    ensures i < m && j < n && q in Cell(t, x0 + 16 * i, y0 + 16 * j, msaa)
  {
    LastColumn(t, x0, m, y0, n, msaa, q);
    if q in Grid(t, x0, m - 1, y0, n, msaa) {
      i, j := GridMember(t, x0, m - 1, y0, n, msaa, q);
    } else {
      i := m - 1;
      j := ColumnMember(t, x0 + 16 * i, y0, n, msaa, q);
    }
  }

  lemma {:induction false} GridIncludes(t: Triangle, x0: int, m: nat, y0: int, n: nat, msaa: bool, q: Pixel,
                                        i: nat, j: nat)
    requires i < m && j < n && q in Cell(t, x0 + 16 * i, y0 + 16 * j, msaa)
    ensures q in Grid(t, x0, m, y0, n, msaa)
  {
    var front, last := Grid(t, x0, m - 1, y0, n, msaa), Column(t, x0 + 16 * (m - 1), y0, n, msaa);
    assert Grid(t, x0, m, y0, n, msaa) == front + last;
    if i < m - 1 {
      GridIncludes(t, x0, m - 1, y0, n, msaa, q, i, j);
    } else {
      ColumnIncludes(t, x0 + 16 * i, y0, n, msaa, q, j);
    }
  }

  /** No pixel twice. */
  predicate Once(out: seq<Pixel>) {
    forall i, j :: 0 <= i < j < |out| ==> out[i].x != out[j].x || out[i].y != out[j].y
  }

  lemma OnceJoins(a: seq<Pixel>, b: seq<Pixel>)
    requires Once(a) && Once(b)
    requires forall i, j :: 0 <= i < |a| && 0 <= j < |b| ==> a[i].x != b[j].x || a[i].y != b[j].y
    ensures Once(a + b)
  {
  }

  lemma CellShape(t: Triangle, x: int, y: int, msaa: bool)
    ensures |Cell(t, x, y, msaa)| <= 1
    ensures forall i :: 0 <= i < |Cell(t, x, y, msaa)| ==>
              Cell(t, x, y, msaa)[i].x == x / 16 && Cell(t, x, y, msaa)[i].y == y / 16
  {
  }

  lemma {:induction false} ColumnOnce(t: Triangle, x: int, y0: int, n: nat, msaa: bool)
    ensures Once(Column(t, x, y0, n, msaa))
    ensures forall i :: 0 <= i < |Column(t, x, y0, n, msaa)| ==>
              Column(t, x, y0, n, msaa)[i].x == x / 16 && Column(t, x, y0, n, msaa)[i].y < y0 / 16 + n
  {
    if n > 0 {
      ColumnOnce(t, x, y0, n - 1, msaa);
      CellShape(t, x, y0 + 16 * (n - 1), msaa);
      OnceJoins(Column(t, x, y0, n - 1, msaa), Cell(t, x, y0 + 16 * (n - 1), msaa));
    }
  }

  lemma {:induction false} GridOnce(t: Triangle, x0: int, m: nat, y0: int, n: nat, msaa: bool)
    ensures Once(Grid(t, x0, m, y0, n, msaa))
    ensures forall i :: 0 <= i < |Grid(t, x0, m, y0, n, msaa)| ==> Grid(t, x0, m, y0, n, msaa)[i].x < x0 / 16 + m
  {
    if m > 0 {
      GridOnce(t, x0, m - 1, y0, n, msaa);
      ColumnOnce(t, x0 + 16 * (m - 1), y0, n, msaa);
      OnceJoins(Grid(t, x0, m - 1, y0, n, msaa), Column(t, x0 + 16 * (m - 1), y0, n, msaa));
    }
  }

  /** A counted pixel has a covered sample. */
  lemma {:induction false} SomeSample(t: Triangle, x: int, y: int, samples: seq<Point>) returns (o: Point)
    requires Count(t, x, y, samples) > 0
    ensures o in samples && t.Covers(Sample(x, y, o))
  {
    var n := |samples| - 1;
    if Count(t, x, y, samples[..n]) > 0 {
      o := SomeSample(t, x, y, samples[..n]);
    } else {
      o := samples[n];
    }
  }

  /** A start from which a walk in steps of 16 misses no multiple of 16 whose samples reach v. */
  predicate GoodStart(start: int, v: int, msaa: bool) {
    start % 16 == 0 && (if msaa then start <= v else start < v + 16)
  }

  /** Along one axis: a pixel within the screen, half-width half, whose sample at offset o lies between the
      corners' extremes lo and hi, is on the walk. */
  lemma AxisReaches(start: int, lo: int, hi: int, half: int, p: int, o: int, msaa: bool) returns (i: nat)
    requires GoodStart(start, Max(lo, -half * 16), msaa)
    requires -half <= p < half && lo <= 16 * p + o <= hi && -16 < o < 16 && (!msaa ==> o == 0)
    ensures i < Steps(start, Min(hi, half * 16) + 16) && 16 * p == start + 16 * i
  {
    var k := start / 16;
    assert start == 16 * k;
    assert p >= k;
    i := p - k;
  }

  lemma SampleOffsets(o: Point, msaa: bool)
    requires o in Samples(msaa)
    ensures -16 < o.x < 16 && -16 < o.y < 16 && (!msaa ==> o.x == o.y == 0)
  {
  }

  /** The bounding walk misses no pixel of the screen that has a covered sample. */
  lemma WalkReaches(t: Triangle, x0: int, y0: int, box: Box, msaa: bool, px: int, py: int) returns (i: nat, j: nat)
    requires t.Twice() > 0 && box == Bounding(t) && OnScreen(px, py)
    requires GoodStart(x0, box.minx, msaa) && GoodStart(y0, box.miny, msaa)
    requires Count(t, 16 * px, 16 * py, Samples(msaa)) > 0
    ensures i < Steps(x0, box.maxx + 16) && 16 * px == x0 + 16 * i
    ensures j < Steps(y0, box.maxy + 16) && 16 * py == y0 + 16 * j
  {
    var o := SomeSample(t, 16 * px, 16 * py, Samples(msaa));
    SampleOffsets(o, msaa);
    CoveredInBox(t, Sample(16 * px, 16 * py, o));
    i := AxisReaches(x0, Min3(t.p0.x, t.p1.x, t.p2.x), Max3(t.p0.x, t.p1.x, t.p2.x), W / 2, px, o.x, msaa);
    j := AxisReaches(y0, Min3(t.p0.y, t.p1.y, t.p2.y), Max3(t.p0.y, t.p1.y, t.p2.y), H / 2, py, o.y, msaa);
  }

  lemma CoveredInBox(t: Triangle, s: Point)
    requires t.Twice() > 0 && t.Covers(s)
    ensures Min3(t.p0.x, t.p1.x, t.p2.x) <= s.x <= Max3(t.p0.x, t.p1.x, t.p2.x)
    ensures Min3(t.p0.y, t.p1.y, t.p2.y) <= s.y <= Max3(t.p0.y, t.p1.y, t.p2.y)
  {
    InsideIffInHull(t.p0, t.p1, t.p2, s);
    HullInBox(t.p0, t.p1, t.p2, s);
  }

  /** What one pixel of the screen should show: the number of samples in the closed triangle, or full. */
  ghost function Wanted(v0: Point, v1: Point, v2: Point, px: int, py: int, msaa: bool): nat {
    var count := HullCount(v0, v1, v2, 16 * px, 16 * py, Samples(msaa));
    if count > 0 && !msaa then 3 else count
  }

  /** What the cell of a pixel holds is that pixel, if some sample of it is covered. */
  lemma CellOfPixel(t: Triangle, px: int, py: int, msaa: bool, q: Pixel)
    ensures q in Cell(t, 16 * px, 16 * py, msaa)
            <==> var count := Count(t, 16 * px, 16 * py, Samples(msaa));
                 count > 0 && q == Pixel(px, py, if msaa then count else 3)
  {
  }

  lemma DirectYields(t: Triangle, x0: int, y0: int, box: Box, msaa: bool, q: Pixel)
    requires x0 % 16 == 0 && y0 % 16 == 0 && q in Direct(t, x0, y0, box, msaa)
    ensures q in Cell(t, 16 * q.x, 16 * q.y, msaa)
  {
    var i, j := GridMember(t, x0, Steps(x0, box.maxx + 16), y0, Steps(y0, box.maxy + 16), msaa, q);
    CellPlace(t, x0 + 16 * i, y0 + 16 * j, msaa, q);
    WholePixel(x0, i);
    WholePixel(y0, j);
  }

  lemma CellPlace(t: Triangle, x: int, y: int, msaa: bool, q: Pixel)
    requires q in Cell(t, x, y, msaa)
    ensures q.x == x / 16 && q.y == y / 16
  {
  }

  lemma WholePixel(start: int, i: int)
    requires start % 16 == 0
    ensures 16 * ((start + 16 * i) / 16) == start + 16 * i
  {
  }

  /** Any good start makes the walk yield exactly the covered pixels of the screen, with their counts. */
  lemma DirectCovers(v0: Point, v1: Point, v2: Point, x0: int, y0: int, msaa: bool, q: Pixel)
    requires Area2(v0, v1, v2) != 0 && OnScreen(q.x, q.y)
    requires var box := Bounding(Oriented(v0, v1, v2));
             GoodStart(x0, box.minx, msaa) && GoodStart(y0, box.miny, msaa)
    ensures q in Direct(Oriented(v0, v1, v2), x0, y0, Bounding(Oriented(v0, v1, v2)), msaa)
            <==> q.count == Wanted(v0, v1, v2, q.x, q.y, msaa) > 0
  {
    var t := Oriented(v0, v1, v2);
    var box := Bounding(t);
    CountIsHullCount(v0, v1, v2, 16 * q.x, 16 * q.y, Samples(msaa));
    OrientedFacts(v0, v1, v2, v0);
    CellOfPixel(t, q.x, q.y, msaa, q);
    if q in Direct(t, x0, y0, box, msaa) {
      DirectYields(t, x0, y0, box, msaa, q);
    }
    if q in Cell(t, 16 * q.x, 16 * q.y, msaa) {
      DirectReaches(t, x0, y0, box, msaa, q);
    }
  }

  lemma DirectReaches(t: Triangle, x0: int, y0: int, box: Box, msaa: bool, q: Pixel)
    requires t.Twice() > 0 && box == Bounding(t) && OnScreen(q.x, q.y)
    requires GoodStart(x0, box.minx, msaa) && GoodStart(y0, box.miny, msaa)
    requires q in Cell(t, 16 * q.x, 16 * q.y, msaa)
    ensures q in Direct(t, x0, y0, box, msaa)
  {
    var i, j := WalkReaches(t, x0, y0, box, msaa, q.x, q.y);
    GridIncludes(t, x0, Steps(x0, box.maxx + 16), y0, Steps(y0, box.maxy + 16), msaa, q, i, j);
  }

  /** For every triangle with area, the reference model yields, on the screen, exactly the pixels with some
      sample in the closed hull of the corners, each with the number of such samples (3 without
      multisampling). */
  lemma RasterCovers(v0: Point, v1: Point, v2: Point, msaa: bool, q: Pixel)
    requires Area2(v0, v1, v2) != 0 && OnScreen(q.x, q.y)
    ensures q in Rastered(v0, v1, v2, msaa) <==> q.count == Wanted(v0, v1, v2, q.x, q.y, msaa) > 0
  {
    var box := Bounding(Oriented(v0, v1, v2));
    FloorStartIsGood(box.minx, msaa);
    FloorStartIsGood(box.miny, msaa);
    DirectCovers(v0, v1, v2, FloorStart(box.minx), FloorStart(box.miny), msaa, q);
  }

  lemma FloorStartIsGood(v: int, msaa: bool)
    ensures GoodStart(FloorStart(v), v, msaa)
  {
  }

  /** The reference model yields no pixel twice. */
  lemma EachPixelOnce(v0: Point, v1: Point, v2: Point, msaa: bool)
    ensures Once(Rastered(v0, v1, v2, msaa))
  {
    var box := Bounding(Oriented(v0, v1, v2));
    var x0, y0 := FloorStart(box.minx), FloorStart(box.miny);
    GridOnce(Oriented(v0, v1, v2), x0, Steps(x0, box.maxx + 16), y0, Steps(y0, box.maxy + 16), msaa);
  }

  lemma {:induction false} HullCountSwaps(v0: Point, v1: Point, v2: Point, x: int, y: int, samples: seq<Point>)
    ensures HullCount(v0, v1, v2, x, y, samples) == HullCount(v0, v2, v1, x, y, samples)
    ensures HullCount(v0, v1, v2, x, y, samples) == HullCount(v1, v0, v2, x, y, samples)
  {
    if samples != [] {
      var n := |samples| - 1;
      HullCountSwaps(v0, v1, v2, x, y, samples[..n]);
      HullSwaps(v0, v1, v2, Sample(x, y, samples[n]));
    }
  }

  /** The two swaps generate all six orders of the corners, so every order draws the same pixels. */
  lemma OrderDoesNotMatter(v0: Point, v1: Point, v2: Point, msaa: bool, q: Pixel)
    requires Area2(v0, v1, v2) != 0 && OnScreen(q.x, q.y)
    ensures q in Rastered(v0, v1, v2, msaa) <==> q in Rastered(v0, v2, v1, msaa)
    ensures q in Rastered(v0, v1, v2, msaa) <==> q in Rastered(v1, v0, v2, msaa)
  {
    RasterCovers(v0, v1, v2, msaa, q);
    RasterCovers(v0, v2, v1, msaa, q);
    RasterCovers(v1, v0, v2, msaa, q);
    HullCountSwaps(v0, v1, v2, 16 * q.x, 16 * q.y, Samples(msaa));
  }

  /** The cell of the frame buffer that shows a pixel of the screen. */
  function Index(px: int, py: int): (k: nat)
    requires OnScreen(px, py)
    ensures k < W * H
  {
    (H / 2 - py - 1) * W + (px + W / 2)
  }

  lemma IndexInjective(px: int, py: int, qx: int, qy: int)
    requires OnScreen(px, py) && OnScreen(qx, qy) && Index(px, py) == Index(qx, qy)
    ensures px == qx && py == qy
  {
  }

  /** The level of each channel of the pixel written for a count. */
  function Shade(count: nat): nat { 255 * count / 3 }

  function One(b: bool): nat { if b then 1 else 0 }

  /** How many of the three sample points of a pixel are in the closed hull of the corners. */
  ghost function SamplesInHull(v0: Point, v1: Point, v2: Point, px: int, py: int): nat {
    One(InHull(v0, v1, v2, Point(16 * px - 5, 16 * py + 10)))
    + One(InHull(v0, v1, v2, Point(16 * px + 11, 16 * py + 2)))
    + One(InHull(v0, v1, v2, Point(16 * px - 7, 16 * py - 4)))
  }

  lemma WantedSamples(v0: Point, v1: Point, v2: Point, px: int, py: int)
    ensures Wanted(v0, v1, v2, px, py, true) == SamplesInHull(v0, v1, v2, px, py) <= 3
  {
    CountOfThree(v0, v1, v2, 16 * px, 16 * py, Point(-5, 10), Point(11, 2), Point(-7, -4));
  }

  lemma CountOfThree(v0: Point, v1: Point, v2: Point, x: int, y: int, a: Point, b: Point, c: Point)
    ensures HullCount(v0, v1, v2, x, y, [a, b, c])
            == One(InHull(v0, v1, v2, Point(x + a.x, y + a.y))) + One(InHull(v0, v1, v2, Point(x + b.x, y + b.y)))
               + One(InHull(v0, v1, v2, Point(x + c.x, y + c.y)))
  {
    assert HullCount(v0, v1, v2, x, y, []) == 0;
    CountNext(v0, v1, v2, x, y, [], a);
    CountNext(v0, v1, v2, x, y, [a], b);
    CountNext(v0, v1, v2, x, y, [a, b], c);
    assert [] + [a] == [a] && [a] + [b] == [a, b] && [a, b] + [c] == [a, b, c];
  }

  lemma CountNext(v0: Point, v1: Point, v2: Point, x: int, y: int, samples: seq<Point>, o: Point)
    ensures HullCount(v0, v1, v2, x, y, samples + [o])
            == HullCount(v0, v1, v2, x, y, samples) + One(InHull(v0, v1, v2, Point(x + o.x, y + o.y)))
  {
    assert (samples + [o])[..|samples|] == samples;
  }

  lemma ShadeIs(count: nat)
    ensures Shade(count) == 85 * count
  {
  }

  /** The pixel that a cell of the frame buffer shows: rows go down the screen. */
  lemma CellShows(k: nat)
    requires k < 640 * 480
    ensures OnScreen(k % 640 - 320, 239 - k / 640) && Index(k % 640 - 320, 239 - k / 640) == k
  {
  }

  /** backend of gfx_pineda.py: each cell of the frame buffer, row by row from the top of the screen, shows the samples
      of its pixel that the triangle covers, or what it showed before. */
  method Backend(v0: Point, v1: Point, v2: Point, fb: array<nat>)
    requires fb.Length == 640 * 480
    modifies fb
    ensures Area2(v0, v1, v2) != 0 ==>
              forall k :: 0 <= k < 640 * 480 ==>
                fb[k] == var count := SamplesInHull(v0, v1, v2, k % 640 - 320, 239 - k / 640);
                         if count > 0 then 85 * count else old(fb[k])
  {
    DrawPixels(v0, v1, v2, fb);
    if Area2(v0, v1, v2) != 0 {
      forall k | 0 <= k < 640 * 480
        ensures fb[k] == var count := SamplesInHull(v0, v1, v2, k % 640 - 320, 239 - k / 640);
                         if count > 0 then 85 * count else old(fb[k])
      {
        var px, py := k % 640 - 320, 239 - k / 640;
        CellShows(k);
        WantedSamples(v0, v1, v2, px, py);
        ShadeIs(SamplesInHull(v0, v1, v2, px, py));
        assert fb[Index(px, py)] == fb[k];
      }
    }
  }

  /** From the fixed-point corners on: the pixels that raster yields, written to the frame buffer where they are on
      the screen. */
  method DrawPixels(v0: Point, v1: Point, v2: Point, fb: array<nat>)
    requires fb.Length == W * H
    modifies fb
    ensures Area2(v0, v1, v2) != 0 ==>
              forall px, py | OnScreen(px, py) ::
                fb[Index(px, py)] == var count := Wanted(v0, v1, v2, px, py, true);
                                     if count > 0 then Shade(count) else old(fb[Index(px, py)])
  {
    var out := RasterModel(v0, v1, v2, true);
    for k := 0 to |out|
      invariant forall px, py | OnScreen(px, py) ::
                  if exists i :: 0 <= i < k && out[i].x == px && out[i].y == py
                  then exists i :: 0 <= i < k && out[i].x == px && out[i].y == py
                                   && fb[Index(px, py)] == Shade(out[i].count)
                  else fb[Index(px, py)] == old(fb[Index(px, py)])
    {
      var q := out[k];
      if OnScreen(q.x, q.y) {
        fb[Index(q.x, q.y)] := Shade(q.count);
        forall px, py | OnScreen(px, py) && (px != q.x || py != q.y)
          ensures Index(px, py) != Index(q.x, q.y)
        {
          if Index(px, py) == Index(q.x, q.y) {
            IndexInjective(px, py, q.x, q.y);
          }
        }
      }
    }
    if Area2(v0, v1, v2) != 0 {
      forall px, py | OnScreen(px, py)
        ensures fb[Index(px, py)] == var count := Wanted(v0, v1, v2, px, py, true);
                                     if count > 0 then Shade(count) else old(fb[Index(px, py)])
      {
        var count := Wanted(v0, v1, v2, px, py, true);
        RasterCovers(v0, v1, v2, true, Pixel(px, py, count));
        if i :| 0 <= i < |out| && out[i].x == px && out[i].y == py && fb[Index(px, py)] == Shade(out[i].count) {
          RasterCovers(v0, v1, v2, true, out[i]);
        }
      }
    }
  }

  /** raster of demo.c, up to the depth test: one sample a pixel, a start rounded toward zero, and the screen
      test in the loop. What it returns are the buffer positions (column, row) it goes on to draw. */
  method RasterHost(v0: Point, v1: Point, v2: Point) returns (out: seq<(int, int)>)
    ensures Area2(v0, v1, v2) != 0 ==>
              forall c, r | 0 <= c < 640 && 0 <= r < 480 ::
                (c, r) in out <==> InHull(v0, v1, v2, Point(16 * (c - 320), 16 * (239 - r)))
    ensures forall c | c in out :: 0 <= c.0 < 640 && 0 <= c.1 < 480
  {
    var t := Oriented(v0, v1, v2);
    var box := Bounding(t);
    var x0, y0 := TruncatedStart(box.minx), TruncatedStart(box.miny);
    var walked := Walk(t, x0, y0, box, false);
    out := [];
    for k := 0 to |walked|
      invariant forall c, r | 0 <= c < 640 && 0 <= r < 480 ::
                  (c, r) in out <==> exists i :: 0 <= i < k && walked[i].x == c - 320 && walked[i].y == 239 - r
      invariant forall c | c in out :: 0 <= c.0 < 640 && 0 <= c.1 < 480
    {
      var q := walked[k];
      if OnScreen(q.x, q.y) {
        out := out + [(q.x + W / 2, H / 2 - q.y - 1)];
      }
    }
    if Area2(v0, v1, v2) != 0 {
      forall c, r | 0 <= c < 640 && 0 <= r < 480
        ensures (c, r) in out <==> InHull(v0, v1, v2, Point(16 * (c - 320), 16 * (239 - r)))
      {
        HostPixel(v0, v1, v2, c - 320, 239 - r, x0, y0, walked);
      }
    }
  }

  /** quad of demo.c, from the fixed-point corners on: two triangles. Whichever way a convex quadrilateral turns,
      they pass on exactly the pixels whose origin is in the closed hull of its four corners. */
  method Quad(v1: Point, v2: Point, v3: Point, v4: Point) returns (first: seq<(int, int)>, second: seq<(int, int)>)
    ensures ConvexQuad(v1, v2, v3, v4) ==>
              forall c, r | 0 <= c < 640 && 0 <= r < 480 ::
                ((c, r) in first || (c, r) in second)
                <==> InHullOfFour(v1, v2, v3, v4, Point(16 * (c - 320), 16 * (239 - r)))
  {
    first := RasterHost(v2, v1, v3);
    second := RasterHost(v2, v4, v3);
    if ConvexQuad(v1, v2, v3, v4) {
      QuadHasArea(v1, v2, v3, v4);
      forall c, r | 0 <= c < 640 && 0 <= r < 480
        ensures ((c, r) in first || (c, r) in second)
                <==> InHullOfFour(v1, v2, v3, v4, Point(16 * (c - 320), 16 * (239 - r)))
      {
        QuadIsTwoTriangles(v1, v2, v3, v4, Point(16 * (c - 320), 16 * (239 - r)));
      }
    }
  }

  lemma TruncatedStartIsGood(v: int)
    ensures GoodStart(TruncatedStart(v), v, false)
  {
  }

  lemma HostPixel(v0: Point, v1: Point, v2: Point, px: int, py: int, x0: int, y0: int, walked: seq<Pixel>)
    requires Area2(v0, v1, v2) != 0 && OnScreen(px, py)
    requires var box := Bounding(Oriented(v0, v1, v2));
             && x0 == TruncatedStart(box.minx) && y0 == TruncatedStart(box.miny)
             && walked == Direct(Oriented(v0, v1, v2), x0, y0, box, false)
    ensures (exists i :: 0 <= i < |walked| && walked[i].x == px && walked[i].y == py)
            <==> InHull(v0, v1, v2, Point(16 * px, 16 * py))
  {
    var box := Bounding(Oriented(v0, v1, v2));
    TruncatedStartIsGood(box.minx);
    TruncatedStartIsGood(box.miny);
    var wanted := Wanted(v0, v1, v2, px, py, false);
    WantedWithoutSamples(v0, v1, v2, px, py);
    DirectCovers(v0, v1, v2, x0, y0, false, Pixel(px, py, wanted));
    if i :| 0 <= i < |walked| && walked[i].x == px && walked[i].y == py {
      assert walked[i] in walked;
      DirectCovers(v0, v1, v2, x0, y0, false, walked[i]);
    }
  }

  lemma WantedWithoutSamples(v0: Point, v1: Point, v2: Point, px: int, py: int)
    ensures Wanted(v0, v1, v2, px, py, false) == if InHull(v0, v1, v2, Point(16 * px, 16 * py)) then 3 else 0
  {
    var samples := Samples(false);
    assert samples[..0] == [] && Sample(16 * px, 16 * py, samples[0]) == Point(16 * px, 16 * py);
    assert HullCount(v0, v1, v2, 16 * px, 16 * py, []) == 0;
  }
}
