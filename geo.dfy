/**
 * The spatial half of the rebuild (backend/app/geo.py): the fixed region
 * rectangle, the lattice points strictly inside it, and the per-point heat
 * values drawn from a freshly seeded generator.
 */
module Geo {
  import opened Numerics
  import opened Outcomes

  /** A (longitude, latitude) pair. */
  type Point = (real, real)

  /** `Polygon.bounds`: (minx, miny, maxx, maxy). */
  datatype Bounds = Bounds(minx: real, miny: real, maxx: real, maxy: real)

  function Min(a: real, b: real): real { if a <= b then a else b }
  function Max(a: real, b: real): real { if a >= b then a else b }

  /** `Polygon.bounds`: the running minima and maxima of the vertex coordinates. */
  function PolygonBounds(poly: seq<Point>): Bounds
    requires poly != []
  {
    var p := poly[|poly| - 1];
    if |poly| == 1 then Bounds(p.0, p.1, p.0, p.1)
    else
      var b := PolygonBounds(poly[..|poly| - 1]);
      Bounds(Min(b.minx, p.0), Min(b.miny, p.1), Max(b.maxx, p.0), Max(b.maxy, p.1))
  }

  /** The bounds are the smallest axis-aligned box holding every vertex: each side touches a vertex. */
  lemma {:induction false} PolygonBoundsTight(poly: seq<Point>)
    requires poly != []
    ensures var b := PolygonBounds(poly);
      && (forall p :: p in poly ==> b.minx <= p.0 <= b.maxx && b.miny <= p.1 <= b.maxy)
      && (exists p :: p in poly && p.0 == b.minx) && (exists p :: p in poly && p.0 == b.maxx)
      && (exists p :: p in poly && p.1 == b.miny) && (exists p :: p in poly && p.1 == b.maxy)
  {
    if |poly| > 1 {
      var front := poly[..|poly| - 1];
      var p := poly[|poly| - 1];
      assert poly == front + [p];
      assert forall q :: q in poly <==> q in front || q == p;
      PolygonBoundsTight(front);
    }
  }

  /** The four corners of a box, counter-clockwise from the lower left. */
  function Corners(b: Bounds): seq<Point>
  {
    [(b.minx, b.miny), (b.maxx, b.miny), (b.maxx, b.maxy), (b.minx, b.maxy)]
  }

  /** The bounds of the region: longitudes 88.0 to 92.8, latitudes 20.5 to 26.8. */
  const RegionBox: Bounds := Bounds(88.0, 20.5, 92.8, 26.8)

  /** `bd_bbox_polygon`: the region is exactly the rectangle with corners (88.0, 20.5) and (92.8, 26.8). */
  function BdBboxPolygon(): (poly: seq<Point>)
    ensures poly != [] && PolygonBounds(poly) == RegionBox
    ensures poly == Corners(PolygonBounds(poly))
  {
    RegionBounds();
    RegionVertices()
  }

  function RegionVertices(): seq<Point>
  {
    [(88.0, 20.5), (92.8, 20.5), (92.8, 26.8), (88.0, 26.8)]
  }

  lemma RegionBounds()
    ensures PolygonBounds(RegionVertices()) == RegionBox
  {
    var v0, v1, v2, v3 := (88.0, 20.5), (92.8, 20.5), (92.8, 26.8), (88.0, 26.8);
    assert [v0] + [v1] == [v0, v1];
    assert [v0, v1] + [v2] == [v0, v1, v2];
    assert [v0, v1, v2] + [v3] == RegionVertices();
    PolygonBoundsSnoc([v0], v1);
    PolygonBoundsSnoc([v0, v1], v2);
    PolygonBoundsSnoc([v0, v1, v2], v3);
  }

  /** Appending a vertex widens the bounds just enough to cover it. */
  lemma PolygonBoundsSnoc(front: seq<Point>, p: Point)
    requires front != []
    ensures var b := PolygonBounds(front);
      PolygonBounds(front + [p]) == Bounds(Min(b.minx, p.0), Min(b.miny, p.1), Max(b.maxx, p.0), Max(b.maxy, p.1))
  {
    assert (front + [p])[..|front|] == front;
  }

  /**
   * `poly.contains(p)` for an axis-aligned rectangle: the interior only, so
   * points on the boundary are not contained.
   */
  predicate StrictlyInside(b: Bounds, p: Point)
  {
    b.minx < p.0 < b.maxx && b.miny < p.1 < b.maxy
  }

  // ---------------------------------------------------------------------------
  // The lattice: np.arange over real numbers

  /** The least integer at or above `q`. */
  function Ceil(q: real): int
  {
    -((-q).Floor)
  }

  lemma CeilBounds(q: real)
    ensures Ceil(q) as real - 1.0 < q <= Ceil(q) as real
  {
  }

  /** The lattice value `start + i * step`. */
  function Tick(start: real, step: real, i: nat): real
  {
    start + i as real * step
  }

  /** `len(np.arange(start, stop, step))`: ceil((stop - start) / step), or 0 if that is not positive. */
  function ArangeLength(start: real, stop: real, step: real): nat
    requires step != 0.0
  {
    var q := (stop - start) / step;
    if q <= 0.0 then 0
    else
      CeilBounds(q);
      Ceil(q)
  }

  /** `np.arange(start, stop, step)` computed exactly. */
  function Arange(start: real, stop: real, step: real): (xs: seq<real>)
    requires step != 0.0
    ensures |xs| == ArangeLength(start, stop, step)
    ensures forall i :: 0 <= i < |xs| ==> xs[i] == Tick(start, step, i)
  {
    seq(ArangeLength(start, stop, step), i requires 0 <= i => Tick(start, step, i))
  }

  /** For a positive step, index i is in range exactly when its value stays below `stop`. */
  lemma ArangeExact(start: real, stop: real, step: real, i: nat)
    requires step > 0.0
    ensures i < |Arange(start, stop, step)| <==> Tick(start, step, i) < stop
  {
    var q := (stop - start) / step;
    assert q * step == stop - start;
    var n := ArangeLength(start, stop, step);
    if i < n {
      CeilBounds(q);
      assert (i as real) < q;
      ScaledLess(step, i as real, q);
    }
  }

  lemma ArangeIncreasing(start: real, stop: real, step: real)
    requires step > 0.0
    ensures Increasing(Arange(start, stop, step))
  {
    var xs := Arange(start, stop, step);
    forall a, c | 0 <= a < c < |xs| ensures xs[a] < xs[c] {
      ScaledLess(step, a as real, c as real);
    }
  }

  /** With a negative step every lattice value is at or below the start. */
  lemma ArangeNegativeStep(start: real, stop: real, step: real)
    requires step < 0.0
    ensures forall i :: 0 <= i < |Arange(start, stop, step)| ==> Arange(start, stop, step)[i] <= start
  {
    var xs := Arange(start, stop, step);
    forall i | 0 <= i < |xs| ensures xs[i] <= start {
      ScaledAtMost(-step, 0.0, i as real);
      assert i as real * step == -(i as real * -step);
    }
  }

  // ---------------------------------------------------------------------------
  // grid_points_within

  /** The contained points of one lattice row, x increasing. */
  function Row(b: Bounds, xs: seq<real>, y: real): seq<Point>
  {
    if xs == [] then []
    else
      var p := (xs[|xs| - 1], y);
      Row(b, xs[..|xs| - 1], y) + (if StrictlyInside(b, p) then [p] else [])
  }

  /** The contained lattice points, row by row (y outer, x inner). */
  function Grid(b: Bounds, xs: seq<real>, ys: seq<real>): seq<Point>
  {
    if ys == [] then []
    else Grid(b, xs, ys[..|ys| - 1]) + Row(b, xs, ys[|ys| - 1])
  }

  /** The rebuild's grid: the lattice scan of the region's bounds. */
  lemma RegionLattice(step: real)
    requires step != 0.0
    ensures LatticePointsWithin(BdBboxPolygon(), step) == Ok(LatticeGrid(RegionBox, step))
  {
  }

  /** The polygon is an axis-aligned rectangle, listed counter-clockwise from its lower-left corner. */
  predicate IsBox(poly: seq<Point>)
  {
    && |poly| == 4
    && poly[0].0 <= poly[2].0 && poly[0].1 <= poly[2].1
    && poly == Corners(Bounds(poly[0].0, poly[0].1, poly[2].0, poly[2].1))
  }

  /** The bounds of a rectangle's corners are the rectangle itself. */
  lemma CornersBounds(b: Bounds)
    requires b.minx <= b.maxx && b.miny <= b.maxy
    ensures PolygonBounds(Corners(b)) == b
  {
    var v0, v1, v2, v3 := (b.minx, b.miny), (b.maxx, b.miny), (b.maxx, b.maxy), (b.minx, b.maxy);
    assert [v0] + [v1] == [v0, v1];
    assert [v0, v1] + [v2] == [v0, v1, v2];
    assert [v0, v1, v2] + [v3] == Corners(b);
    PolygonBoundsSnoc([v0], v1);
    PolygonBoundsSnoc([v0, v1], v2);
    PolygonBoundsSnoc([v0, v1, v2], v3);
  }

  /** What `grid_points_within` returns for a rectangle, or the error np.arange raises on a zero step. */
  function LatticePointsWithin(poly: seq<Point>, step: real): Result<seq<Point>>
    requires poly != []
  {
    if step == 0.0 then Err(ZeroStep) else Ok(LatticeGrid(PolygonBounds(poly), step))
  }

  /** The contained points of the lattice np.arange(minx, maxx + step, step) x np.arange(miny, maxy + step, step). */
  function LatticeGrid(b: Bounds, step: real): seq<Point>
    requires step != 0.0
  {
    Grid(b, Arange(b.minx, b.maxx + step, step), Arange(b.miny, b.maxy + step, step))
  }

  /**
   * `grid_points_within` for an axis-aligned rectangle: walks the lattice
   * row-major and keeps the points the rectangle contains.
   */
  method GridPointsWithin(poly: seq<Point>, step: real) returns (r: Result<seq<Point>>)
    requires IsBox(poly)
    ensures r == LatticePointsWithin(poly, step)
  {
    if step == 0.0 {
      return Err(ZeroStep);
    }
    // The rectangle `contains` tests against, and the bounds the lattice spans: one and the same box.
    var box := Bounds(poly[0].0, poly[0].1, poly[2].0, poly[2].1);
    var b := PolygonBounds(poly);
    CornersBounds(box);
    var xs := Arange(b.minx, b.maxx + step, step);
    var ys := Arange(b.miny, b.maxy + step, step);
    var pts := ScanLattice(box, xs, ys);
    assert pts == LatticeGrid(b, step);
    return Ok(pts);
  }

  /** The two nested loops of `grid_points_within`: y outer, x inner, keeping contained points. */
  method ScanLattice(b: Bounds, xs: seq<real>, ys: seq<real>) returns (pts: seq<Point>)
    ensures pts == Grid(b, xs, ys)
  {
    pts := [];
    var j := 0;
    while j < |ys|
      invariant 0 <= j <= |ys|
      invariant pts == Grid(b, xs, ys[..j])
    {
      var y := ys[j];
      var i := 0;
      while i < |xs|
        invariant 0 <= i <= |xs|
        invariant pts == Grid(b, xs, ys[..j]) + Row(b, xs[..i], y)
      {
        var p := (xs[i], y);
        if StrictlyInside(b, p) {
          pts := pts + [p];
        }
        assert xs[..i + 1][..i] == xs[..i];
        i := i + 1;
      }
      assert xs[..|xs|] == xs;
      assert ys[..j + 1][..j] == ys[..j];
      j := j + 1;
    }
    assert ys[..|ys|] == ys;
  }

  predicate Increasing(s: seq<real>)
  {
    forall a, c :: 0 <= a < c < |s| ==> s[a] < s[c]
  }

  /** `p` comes before `q` in row-major order: lower y, or the same y and lower x. */
  predicate RowMajorBefore(p: Point, q: Point)
  {
    p.1 < q.1 || (p.1 == q.1 && p.0 < q.0)
  }

  predicate RowMajorSorted(pts: seq<Point>)
  {
    forall a, c :: 0 <= a < c < |pts| ==> RowMajorBefore(pts[a], pts[c])
  }

  lemma {:induction false} RowMembership(b: Bounds, xs: seq<real>, y: real, p: Point)
    ensures p in Row(b, xs, y) <==> exists i :: 0 <= i < |xs| && p == (xs[i], y) && StrictlyInside(b, p)
  {
    if xs != [] {
      var n := |xs|;
      var front := xs[..n - 1];
      RowMembership(b, front, y, p);
      if exists i :: 0 <= i < |front| && p == (front[i], y) && StrictlyInside(b, p) {
        var i :| 0 <= i < |front| && p == (front[i], y) && StrictlyInside(b, p);
        assert xs[i] == front[i];
      }
      if exists i :: 0 <= i < n && p == (xs[i], y) && StrictlyInside(b, p) {
        var i :| 0 <= i < n && p == (xs[i], y) && StrictlyInside(b, p);
        if i < n - 1 {
          assert front[i] == xs[i];
        }
      }
    }
  }

  lemma {:induction false} GridMembership(b: Bounds, xs: seq<real>, ys: seq<real>, p: Point)
    ensures p in Grid(b, xs, ys) <==>
      exists i, j :: 0 <= i < |xs| && 0 <= j < |ys| && p == (xs[i], ys[j]) && StrictlyInside(b, p)
  {
    if ys != [] {
      var n := |ys|;
      var front := ys[..n - 1];
      GridMembership(b, xs, front, p);
      RowMembership(b, xs, ys[n - 1], p);
      if exists i, j :: 0 <= i < |xs| && 0 <= j < |front| && p == (xs[i], front[j]) && StrictlyInside(b, p) {
        var i, j :| 0 <= i < |xs| && 0 <= j < |front| && p == (xs[i], front[j]) && StrictlyInside(b, p);
        assert ys[j] == front[j];
      }
      if exists i, j :: 0 <= i < |xs| && 0 <= j < n && p == (xs[i], ys[j]) && StrictlyInside(b, p) {
        var i, j :| 0 <= i < |xs| && 0 <= j < n && p == (xs[i], ys[j]) && StrictlyInside(b, p);
        if j < n - 1 {
          assert front[j] == ys[j];
        }
      }
    }
  }

  lemma {:induction false} RowSorted(b: Bounds, xs: seq<real>, y: real)
    requires Increasing(xs)
    ensures RowMajorSorted(Row(b, xs, y))
    ensures forall p :: p in Row(b, xs, y) ==> p.1 == y
  {
    if xs != [] {
      var n := |xs|;
      var front := xs[..n - 1];
      RowSorted(b, front, y);
      var row := Row(b, xs, y);
      var head := Row(b, front, y);
      forall p | p in head ensures p.0 < xs[n - 1] && p.1 == y {
        RowMembership(b, front, y, p);
      }
      forall p | p in row ensures p.1 == y {
        RowMembership(b, xs, y, p);
      }
      forall a, c | 0 <= a < c < |row| ensures RowMajorBefore(row[a], row[c]) {
        if c >= |head| {
          assert row[a] in head;
        }
      }
    }
  }

  lemma {:induction false} GridSorted(b: Bounds, xs: seq<real>, ys: seq<real>)
    requires Increasing(xs) && Increasing(ys)
    ensures RowMajorSorted(Grid(b, xs, ys))
  {
    if ys != [] {
      var n := |ys|;
      var front := ys[..n - 1];
      GridSorted(b, xs, front);
      RowSorted(b, xs, ys[n - 1]);
      var grid := Grid(b, xs, ys);
      var head := Grid(b, xs, front);
      forall p | p in head ensures p.1 < ys[n - 1] {
        GridMembership(b, xs, front, p);
      }
      forall a, c | 0 <= a < c < |grid| ensures RowMajorBefore(grid[a], grid[c]) {
        if a < |head| && c >= |head| {
          assert grid[a] in head;
          assert grid[c] in Row(b, xs, ys[n - 1]);
        }
      }
    }
  }

  /** The lattice point with indices (i, j). */
  function LatticePoint(b: Bounds, step: real, i: nat, j: nat): Point
  {
    (Tick(b.minx, step, i), Tick(b.miny, step, j))
  }

  /**
   * For a positive step, the lattice scan holds exactly the points
   * (minx + i*step, miny + j*step) strictly inside the box, in strictly
   * increasing row-major order, so without duplicates.
   */
  lemma LatticeExact(b: Bounds, step: real)
    requires step > 0.0
    ensures RowMajorSorted(LatticeGrid(b, step))
    ensures forall p :: p in LatticeGrid(b, step) <==>
      exists i: nat, j: nat :: p == LatticePoint(b, step, i, j) && StrictlyInside(b, p)
  {
    LatticeSorted(b, step);
    forall p ensures p in LatticeGrid(b, step) <==> exists i: nat, j: nat :: p == LatticePoint(b, step, i, j) && StrictlyInside(b, p) {
      LatticeMember(b, step, p);
    }
  }

  /** With a positive step the kept points come out in row-major order. */
  lemma LatticeSorted(b: Bounds, step: real)
    requires step > 0.0
    ensures RowMajorSorted(LatticeGrid(b, step))
  {
    var xs := Arange(b.minx, b.maxx + step, step);
    var ys := Arange(b.miny, b.maxy + step, step);
    ArangeIncreasing(b.minx, b.maxx + step, step);
    ArangeIncreasing(b.miny, b.maxy + step, step);
    GridSorted(b, xs, ys);
  }

  lemma LatticeMember(b: Bounds, step: real, p: Point)
    requires step > 0.0
    ensures p in LatticeGrid(b, step) <==>
      exists i: nat, j: nat :: p == LatticePoint(b, step, i, j) && StrictlyInside(b, p)
  {
    if p in LatticeGrid(b, step) {
      LatticeMemberSound(b, step, p);
    }
    if exists i: nat, j: nat :: p == LatticePoint(b, step, i, j) && StrictlyInside(b, p) {
      var i: nat, j: nat :| p == LatticePoint(b, step, i, j) && StrictlyInside(b, p);
      LatticeMemberComplete(b, step, i, j);
    }
  }

  lemma LatticeMemberSound(b: Bounds, step: real, p: Point)
    requires step > 0.0 && p in LatticeGrid(b, step)
    ensures exists i: nat, j: nat :: p == LatticePoint(b, step, i, j) && StrictlyInside(b, p)
  {
    var xs := Arange(b.minx, b.maxx + step, step);
    var ys := Arange(b.miny, b.maxy + step, step);
    GridMembership(b, xs, ys, p);
    var i, j :| 0 <= i < |xs| && 0 <= j < |ys| && p == (xs[i], ys[j]) && StrictlyInside(b, p);
    assert xs[i] == Tick(b.minx, step, i) && ys[j] == Tick(b.miny, step, j);
    assert p == LatticePoint(b, step, i, j);
  }

  lemma LatticeMemberComplete(b: Bounds, step: real, i: nat, j: nat)
    requires step > 0.0 && StrictlyInside(b, LatticePoint(b, step, i, j))
    ensures LatticePoint(b, step, i, j) in LatticeGrid(b, step)
  {
    var p := LatticePoint(b, step, i, j);
    var xs := Arange(b.minx, b.maxx + step, step);
    var ys := Arange(b.miny, b.maxy + step, step);
    GridMembership(b, xs, ys, p);
    ArangeExact(b.minx, b.maxx + step, step, i);
    ArangeExact(b.miny, b.maxy + step, step, j);
    assert p == (xs[i], ys[j]);
  }

  /** The first lattice column and row lie on the boundary, so none of their points is kept. */
  lemma BoundaryLinesExcluded(b: Bounds, step: real, k: nat)
    requires step != 0.0
    ensures LatticePoint(b, step, 0, k) !in LatticeGrid(b, step)
    ensures LatticePoint(b, step, k, 0) !in LatticeGrid(b, step)
  {
    var xs := Arange(b.minx, b.maxx + step, step);
    var ys := Arange(b.miny, b.maxy + step, step);
    GridMembership(b, xs, ys, LatticePoint(b, step, 0, k));
    GridMembership(b, xs, ys, LatticePoint(b, step, k, 0));
  }

  /** A negative step yields no point: every lattice value is at or below the box minimum. */
  lemma NegativeStepEmpty(b: Bounds, step: real)
    requires step < 0.0
    ensures LatticeGrid(b, step) == []
  {
    var xs := Arange(b.minx, b.maxx + step, step);
    var ys := Arange(b.miny, b.maxy + step, step);
    ArangeNegativeStep(b.minx, b.maxx + step, step);
    var grid := Grid(b, xs, ys);
    if grid != [] {
      GridMembership(b, xs, ys, grid[0]);
      assert false;
    }
  }

  // ---------------------------------------------------------------------------
  // make_heat_values

  /** The centre of the spatial bump, and the spread of the per-point noise. */
  const CenterLon: real := 90.35
  const CenterLat: real := 23.8
  const NoiseScale: real := 0.03

  /** `np.exp` as the heat field uses it: on non-positive arguments its value lies in (0, 1]. */
  type ExpFn = f: real -> real | forall x :: x <= 0.0 ==> 0.0 < f(x) <= 1.0
    witness (x: real) => 1.0

  /** numpy's standard-normal stream: the k-th draw (from 0) of a generator seeded with `seed`. */
  type NormalDraws = (int, nat) -> real

  /** `np.random.default_rng(seed)`: a generator that knows how many draws it has handed out. */
  class Rng {
    const seed: int
    const draws: NormalDraws
    var drawn: nat

    constructor (seed: int, draws: NormalDraws)
      ensures this.seed == seed && this.draws == draws && drawn == 0
    {
      this.seed := seed;
      this.draws := draws;
      drawn := 0;
    }

    /** `rng.normal(loc, scale)`: the next standard draw, scaled and shifted. */
    method Normal(loc: real, scale: real) returns (x: real)
      modifies this
      ensures drawn == old(drawn) + 1
      ensures x == loc + scale * draws(seed, old(drawn))
    {
      x := loc + scale * draws(seed, drawn);
      drawn := drawn + 1;
    }
  }

  /** `d ** 2` for the distance `d` from the centre. */
  function SquaredDistance(p: Point): (d2: real)
    ensures d2 >= 0.0
  {
    SquareNonNegative(p.0 - CenterLon);
    SquareNonNegative(p.1 - CenterLat);
    (p.0 - CenterLon) * (p.0 - CenterLon) + (p.1 - CenterLat) * (p.1 - CenterLat)
  }

  lemma SquareNonNegative(x: real)
    ensures x * x >= 0.0
  {
    if x < 0.0 {
      var y := -x;
      ProductPositive(y, y);
      assert y * y == x * x;
    }
  }

  /** `exp(-(d ** 2) / 1.2)`: a bump in (0, 1]. */
  function Spatial(p: Point, exp: ExpFn): (s: real)
    ensures 0.0 < s <= 1.0
  {
    exp(-SquaredDistance(p) / 1.2)
  }

  /** The noise of the k-th point: `rng.normal(0, 0.03)` as the k-th draw of the stream. */
  function Noise(draws: NormalDraws, seed: int, k: nat): real
  {
    0.0 + NoiseScale * draws(seed, k)
  }

  /**
   * One heat value: the year's index plus a quarter of the centred bump
   * plus noise, clipped to [-0.5, 0.5]; a NaN year value stays NaN.
   */
  function HeatValue(p: Point, yearValue: Float, noise: real, exp: ExpFn): (v: Float)
    ensures v.NaN? <==> yearValue.NaN?
    ensures v.Finite? <==> !yearValue.NaN?
    ensures v.Finite? ==> -0.5 <= v.v <= 0.5
  {
    ClipF(Plus(Plus(yearValue, 0.25 * (Spatial(p, exp) - 0.4)), noise), -0.5, 0.5)
  }

  /** The values `make_heat_values` returns: the k-th point takes the k-th draw. */
  function HeatValues(points: seq<Point>, yearValue: Float, seed: int, draws: NormalDraws, exp: ExpFn): (vals: seq<Float>)
    ensures |vals| == |points|
  {
    seq(|points|, k requires 0 <= k < |points| => HeatValue(points[k], yearValue, Noise(draws, seed, k), exp))
  }

  /** `make_heat_values`: a fresh generator, one draw per point, in order. */
  method MakeHeatValues(points: seq<Point>, yearValue: Float, seed: int, draws: NormalDraws, exp: ExpFn)
    returns (vals: seq<Float>)
    ensures vals == HeatValues(points, yearValue, seed, draws, exp)
  {
    var rng := new Rng(seed, draws);
    vals := [];
    var k := 0;
    while k < |points|
      invariant 0 <= k <= |points| && rng.drawn == k
      invariant |vals| == k
      invariant forall t :: 0 <= t < k ==> vals[t] == HeatValue(points[t], yearValue, Noise(draws, seed, t), exp)
    {
      var noise := rng.Normal(0.0, NoiseScale);
      assert noise == Noise(draws, seed, k);
      vals := vals + [HeatValue(points[k], yearValue, noise, exp)];
      k := k + 1;
    }
  }

  /**
   * The values are finite and within [-0.5, 0.5] exactly when the year value
   * is not NaN, and all NaN otherwise.
   */
  lemma HeatValuesBounded(points: seq<Point>, yearValue: Float, seed: int, draws: NormalDraws, exp: ExpFn)
    ensures var vals := HeatValues(points, yearValue, seed, draws, exp);
      forall k :: 0 <= k < |vals| ==>
        (vals[k].Finite? <==> !yearValue.NaN?) &&
        (vals[k].Finite? ==> -0.5 <= vals[k].v <= 0.5) &&
        (vals[k].NaN? <==> yearValue.NaN?)
  {
  }

  /**
   * The generator restarts from the same seed on every call, so two point
   * lists that agree on a prefix get the same values there.
   */
  lemma {:induction false} HeatValuesPrefix(points: seq<Point>, more: seq<Point>, yearValue: Float, seed: int, draws: NormalDraws, exp: ExpFn)
    ensures HeatValues(points + more, yearValue, seed, draws, exp)[..|points|] ==
      HeatValues(points, yearValue, seed, draws, exp)
  {
    var whole := HeatValues(points + more, yearValue, seed, draws, exp);
    forall k | 0 <= k < |points| ensures whole[k] == HeatValues(points, yearValue, seed, draws, exp)[k] {
      assert (points + more)[k] == points[k];
    }
  }

  /**
   * Without noise the value falls with the distance from the centre: a
   * point closer to (90.35, 23.8) gets at least the value of one farther
   * away, given an increasing exp.
   */
  lemma HeatValueCloserIsHotter(p: Point, q: Point, yearValue: real, exp: ExpFn)
    requires forall x, y :: x <= y ==> exp(x) <= exp(y)
    requires SquaredDistance(p) <= SquaredDistance(q)
    ensures HeatValue(q, Finite(yearValue), 0.0, exp).v <= HeatValue(p, Finite(yearValue), 0.0, exp).v
  {
    assert -SquaredDistance(q) / 1.2 <= -SquaredDistance(p) / 1.2;
  }
}
