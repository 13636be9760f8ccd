/**
 * Step [2] of the driver: the bounding box of the point cloud. One pass keeps
 * running minima and maxima of x, y and z (z only for samples that are not
 * no-data markers), and all six bounds are then pushed outwards by a border.
 */
module BoundingBox {
  import opened Dataset

  /** Margin added on every side of the raw extent. */
  const Border: real := 10.0

  /** Heights with an absolute value at or above this are no-data markers (e.g. 1e38). */
  const NoDataLimit: real := 1000000.0

  datatype Box = Box(minX: real, maxX: real, minY: real, maxY: real, minZ: real, maxZ: real)

  datatype Axis = X | Y | Z

  function Coord(p: Point, a: Axis): (c: real) {
    match a
    case X => p.x
    case Y => p.y
    case Z => p.z
  }

  /** A height that takes part in the z range: strictly inside (-1e6, 1e6). */
  predicate HasHeight(p: Point) {
    -NoDataLimit < p.z < NoDataLimit
  }

  /** Whether `p` is visited by the accumulators of axis `a`. */
  predicate Counted(p: Point, a: Axis) {
    a != Z || HasHeight(p)
  }

  /** Every coordinate is a finite double. */
  predicate Finite(p: Point) {
    -DoubleMax <= p.x <= DoubleMax && -DoubleMax <= p.y <= DoubleMax && -DoubleMax <= p.z <= DoubleMax
  }

  /** `keep_max(v, t)`: replace the accumulator only by a strictly larger value. */
  function KeepMax(v: real, t: real): (r: real)
    ensures r >= v && r >= t
    ensures r == v || r == t
  {
    if t > v then t else v
  }

  /** `keep_min(v, t)`: replace the accumulator only by a strictly smaller value. */
  function KeepMin(v: real, t: real): (r: real)
    ensures r <= v && r <= t
    ensures r == v || r == t
  {
    if t < v then t else v
  }

  /** The minimum accumulator of axis `a` after visiting `pts` in order, started at DBL_MAX. */
  function Lower(pts: seq<Point>, a: Axis): (lo: real)
    decreases |pts|
  {
    if pts == [] then DoubleMax
    else
      var rest := Lower(pts[..|pts| - 1], a);
      var p := pts[|pts| - 1];
      if Counted(p, a) then KeepMin(rest, Coord(p, a)) else rest
  }

  /** The maximum accumulator of axis `a` after visiting `pts` in order, started at -DBL_MAX. */
  function Upper(pts: seq<Point>, a: Axis): (hi: real)
    decreases |pts|
  {
    if pts == [] then -DoubleMax
    else
      var rest := Upper(pts[..|pts| - 1], a);
      var p := pts[|pts| - 1];
      if Counted(p, a) then KeepMax(rest, Coord(p, a)) else rest
  }

  /** The six accumulators after the scan, before the border is added. */
  function RawExtent(pts: seq<Point>): (b: Box) {
    Box(Lower(pts, X), Upper(pts, X), Lower(pts, Y), Upper(pts, Y), Lower(pts, Z), Upper(pts, Z))
  }

  function Widen(b: Box, m: real): (w: Box) {
    Box(b.minX - m, b.maxX + m, b.minY - m, b.maxY + m, b.minZ - m, b.maxZ + m)
  }

  /** Every visited coordinate lies between the accumulators, which never pass their sentinels. */
  lemma {:induction false} ExtentContains(pts: seq<Point>, a: Axis)
    ensures Lower(pts, a) <= DoubleMax && -DoubleMax <= Upper(pts, a)
    ensures forall k :: 0 <= k < |pts| && Counted(pts[k], a) ==>
              Lower(pts, a) <= Coord(pts[k], a) <= Upper(pts, a)
    decreases |pts|
  {
    if pts != [] {
      var init := pts[..|pts| - 1];
      ExtentContains(init, a);
      forall k | 0 <= k < |pts| - 1
        ensures pts[k] == init[k]
      {
      }
    }
  }

  /**
   * When some visited coordinate exists (and all are finite doubles), each
   * accumulator equals one of them; when none exists, both keep their sentinels.
   */
  lemma {:induction false} ExtentAttained(pts: seq<Point>, a: Axis)
    requires forall k :: 0 <= k < |pts| ==> Finite(pts[k])
    ensures (exists k :: 0 <= k < |pts| && Counted(pts[k], a)) ==>
              (exists k :: 0 <= k < |pts| && Counted(pts[k], a) && Coord(pts[k], a) == Lower(pts, a)) &&
              (exists k :: 0 <= k < |pts| && Counted(pts[k], a) && Coord(pts[k], a) == Upper(pts, a))
    ensures (forall k :: 0 <= k < |pts| ==> !Counted(pts[k], a)) ==>
              Lower(pts, a) == DoubleMax && Upper(pts, a) == -DoubleMax
    decreases |pts|
  {
    if pts != [] {
      var n := |pts| - 1;
      var init := pts[..n];
      ExtentAttained(init, a);
      assert forall k :: 0 <= k < n ==> init[k] == pts[k];
      var p := pts[n];
      if exists k :: 0 <= k < n && Counted(init[k], a) {
        var i :| 0 <= i < n && Counted(init[i], a) && Coord(init[i], a) == Lower(init, a);
        var j :| 0 <= j < n && Counted(init[j], a) && Coord(init[j], a) == Upper(init, a);
        if Counted(p, a) && Coord(p, a) < Lower(init, a) {
          assert Coord(pts[n], a) == Lower(pts, a);
        } else {
          assert Coord(pts[i], a) == Lower(pts, a);
        }
        if Counted(p, a) && Coord(p, a) > Upper(init, a) {
          assert Coord(pts[n], a) == Upper(pts, a);
        } else {
          assert Coord(pts[j], a) == Upper(pts, a);
        }
      } else if Counted(p, a) {
        assert Coord(pts[n], a) == Lower(pts, a);
        assert Coord(pts[n], a) == Upper(pts, a);
      } else {
        assert forall k :: 0 <= k < |pts| ==> !Counted(pts[k], a);
      }
    }
  }

  /**
   * The scan of `dem_gmrf_main` (src/dem-gmrf_main.cpp:89-109): after it, every point lies at least `Border` inside
   * the x and y bounds, every point with a usable height at least `Border`
   * inside the z bounds, and with no usable height the z bounds are the
   * sentinels shifted by the border.
   */
  method ScanBoundingBox(pts: seq<Point>) returns (b: Box)
    ensures b == Widen(RawExtent(pts), Border)
    ensures forall k :: 0 <= k < |pts| ==>
              b.minX + Border <= pts[k].x <= b.maxX - Border &&
              b.minY + Border <= pts[k].y <= b.maxY - Border
    ensures forall k :: 0 <= k < |pts| && HasHeight(pts[k]) ==>
              b.minZ + Border <= pts[k].z <= b.maxZ - Border
    ensures (forall k :: 0 <= k < |pts| ==> !HasHeight(pts[k])) ==>
              b.minZ == DoubleMax - Border && b.maxZ == -DoubleMax + Border
  {
    var minx, miny, minz := DoubleMax, DoubleMax, DoubleMax;
    var maxx, maxy, maxz := -DoubleMax, -DoubleMax, -DoubleMax;
    var i := 0;
    while i < |pts|
      invariant 0 <= i <= |pts|
      invariant minx == Lower(pts[..i], X) && maxx == Upper(pts[..i], X)
      invariant miny == Lower(pts[..i], Y) && maxy == Upper(pts[..i], Y)
      invariant minz == Lower(pts[..i], Z) && maxz == Upper(pts[..i], Z)
    {
      var pt := pts[i];
      assert pts[..i + 1][..i] == pts[..i];
      maxx := KeepMax(maxx, pt.x); minx := KeepMin(minx, pt.x);
      maxy := KeepMax(maxy, pt.y); miny := KeepMin(miny, pt.y);
      if -NoDataLimit < pt.z < NoDataLimit {
        maxz := KeepMax(maxz, pt.z); minz := KeepMin(minz, pt.z);
      }
      i := i + 1;
    }
    assert pts[..i] == pts;
    minx, maxx := minx - Border, maxx + Border;
    miny, maxy := miny - Border, maxy + Border;
    minz, maxz := minz - Border, maxz + Border;
    b := Box(minx, maxx, miny, maxy, minz, maxz);
    ExtentContains(pts, X);
    ExtentContains(pts, Y);
    ExtentContains(pts, Z);
    NoHeightKeepsSentinels(pts);
  }

  /** With no usable height, the z accumulators never move from their sentinels. */
  lemma {:induction false} NoHeightKeepsSentinels(pts: seq<Point>)
    ensures (forall k :: 0 <= k < |pts| ==> !HasHeight(pts[k])) ==>
              Lower(pts, Z) == DoubleMax && Upper(pts, Z) == -DoubleMax
    decreases |pts|
  {
    if pts != [] {
      var init := pts[..|pts| - 1];
      NoHeightKeepsSentinels(init);
      assert forall k :: 0 <= k < |init| ==> init[k] == pts[k];
    }
  }

  /**
   * The widened box is tight: when there is at least one point, some point lies
   * exactly `Border` inside each x and y bound, and when some point has a
   * usable height, some usable height lies exactly `Border` inside each z bound.
   */
  lemma BoxIsTight(pts: seq<Point>)
    requires forall k :: 0 <= k < |pts| ==> Finite(pts[k])
    ensures var b := Widen(RawExtent(pts), Border);
      (|pts| > 0 ==>
        (exists k :: 0 <= k < |pts| && pts[k].x == b.minX + Border) &&
        (exists k :: 0 <= k < |pts| && pts[k].x == b.maxX - Border) &&
        (exists k :: 0 <= k < |pts| && pts[k].y == b.minY + Border) &&
        (exists k :: 0 <= k < |pts| && pts[k].y == b.maxY - Border)) &&
      ((exists k :: 0 <= k < |pts| && HasHeight(pts[k])) ==>
        (exists k :: 0 <= k < |pts| && HasHeight(pts[k]) && pts[k].z == b.minZ + Border) &&
        (exists k :: 0 <= k < |pts| && HasHeight(pts[k]) && pts[k].z == b.maxZ - Border))
  {
    if |pts| > 0 {
      assert Counted(pts[0], X) && Counted(pts[0], Y);
    }
    ExtentAttained(pts, X);
    ExtentAttained(pts, Y);
    ExtentAttained(pts, Z);
  }

  /**
   * A no-data height never widens the z range: once one usable height exists,
   * the widened z bounds stay within (-1e6 - Border, 1e6 + Border), however
   * large the no-data markers are.
   */
  lemma ZRangeIgnoresNoData(pts: seq<Point>)
    requires forall k :: 0 <= k < |pts| ==> Finite(pts[k])
    requires exists k :: 0 <= k < |pts| && HasHeight(pts[k])
    ensures var b := Widen(RawExtent(pts), Border);
      -NoDataLimit - Border < b.minZ <= b.maxZ < NoDataLimit + Border
  {
    ExtentAttained(pts, Z);
    ExtentContains(pts, Z);
  }
}
