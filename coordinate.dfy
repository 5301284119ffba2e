/**
 * Coordinate conversions and the point-in-polygon test of the coordinate utilities:
 * longitude/latitude to a point on a sphere, longitude/latitude to Web-Mercator
 * metres, and the even-odd ray-casting containment test.
 */
module Coordinate {
  import opened JsMath
  import opened Plane
  import opened Reals

  /** A 3D point `{x, y, z}` in the renderer's frame. */
  datatype Vec3 = Vec3(x: real, y: real, z: real)

  /** The sentinel `{x: 0, y: 0, z: 0}` returned on invalid input. */
  const Origin: Vec3 := Vec3(0.0, 0.0, 0.0)

  /** Degrees to radians, as `(deg * Math.PI) / 180`. */
  function Radians(deg: real): real
  {
    (deg * Pi) / 180.0
  }

  // ---------------------------------------------------------------------------
  // lngLatToXYZ
  // ---------------------------------------------------------------------------

  /**
   * Longitude/latitude in degrees to a point on the sphere of the given radius.
   * A zero radius is rejected first, a coordinate array that does not hold
   * exactly two numbers second; both return the origin. Longitude is negated
   * so that the renderer's z axis points to longitude -90 degrees.
   */
  function LngLatToXYZ(lngLat: seq<real>, radius: real, m: MathLib): (p: Vec3)
    ensures radius == 0.0 ==> p == Origin
    ensures |lngLat| != 2 ==> p == Origin
  {
    if radius == 0.0 then Origin
    else if |lngLat| != 2 then Origin
    else
      var lng := Radians(lngLat[0]);
      var lat := Radians(lngLat[1]);
      var threeLng := -lng;
      Vec3(radius * m.cos(lat) * m.cos(threeLng),
           radius * m.sin(lat),
           radius * m.cos(lat) * m.sin(threeLng))
  }

  function NormSquared(p: Vec3): real
  {
    p.x * p.x + p.y * p.y + p.z * p.z
  }

  /** On valid input the result lies on the sphere of radius `radius` about the origin. */
  lemma XYZOnSphere(lngLat: seq<real>, radius: real, m: MathLib)
    requires PythagoreanIdentity(m)
    requires |lngLat| == 2
    ensures NormSquared(LngLatToXYZ(lngLat, radius, m)) == radius * radius
  {
    if radius != 0.0 {
      var lat := Radians(lngLat[1]);
      var t := -Radians(lngLat[0]);
      var p := LngLatToXYZ(lngLat, radius, m);
      var rc := radius * m.cos(lat);
      assert p == Vec3(rc * m.cos(t), radius * m.sin(lat), rc * m.sin(t));
      assert m.sin(t) * m.sin(t) + m.cos(t) * m.cos(t) == 1.0;
      assert m.sin(lat) * m.sin(lat) + m.cos(lat) * m.cos(lat) == 1.0;
      calc {
        NormSquared(p);
        (rc * m.cos(t)) * (rc * m.cos(t)) + (radius * m.sin(lat)) * (radius * m.sin(lat)) + (rc * m.sin(t)) * (rc * m.sin(t));
        rc * rc * (m.sin(t) * m.sin(t) + m.cos(t) * m.cos(t)) + radius * radius * (m.sin(lat) * m.sin(lat));
        rc * rc + radius * radius * (m.sin(lat) * m.sin(lat));
        radius * radius * (m.cos(lat) * m.cos(lat) + m.sin(lat) * m.sin(lat));
        radius * radius;
      }
    }
  }

  /**
   * The origin is returned exactly on invalid input: for a non-zero radius and
   * two coordinates the result is on a sphere of positive radius.
   */
  lemma XYZSentinelIffInvalid(lngLat: seq<real>, radius: real, m: MathLib)
    requires PythagoreanIdentity(m)
    ensures LngLatToXYZ(lngLat, radius, m) == Origin <==> (radius == 0.0 || |lngLat| != 2)
  {
    if radius != 0.0 && |lngLat| == 2 {
      var lat := Radians(lngLat[1]);
      var t := -Radians(lngLat[0]);
      assert m.sin(lat) * m.sin(lat) + m.cos(lat) * m.cos(lat) == 1.0;
      assert m.sin(t) * m.sin(t) + m.cos(t) * m.cos(t) == 1.0;
      SphericalPointIsNotOrigin(radius, m.sin(lat), m.cos(lat), m.sin(t), m.cos(t));
    }
  }

  /** A point (r c1 c2, r s1, r c1 s2) built from unit (cos, sin) pairs and a non-zero r is not the origin. */
  lemma SphericalPointIsNotOrigin(r: real, s1: real, c1: real, s2: real, c2: real)
    requires r != 0.0
    requires s1 * s1 + c1 * c1 == 1.0 && s2 * s2 + c2 * c2 == 1.0
    ensures Vec3(r * c1 * c2, r * s1, r * c1 * s2) != Origin
  {
    if r * s1 == 0.0 {
      assert s1 == 0.0;
      assert c1 != 0.0;
      if r * c1 * c2 == 0.0 && r * c1 * s2 == 0.0 {
        assert false;
      }
    }
  }

  /**
   * The result is the textbook spherical-to-Cartesian conversion
   * (r cos(lat) cos(lng), r sin(lat), r cos(lat) sin(lng)) with the z axis flipped.
   */
  lemma XYZIsStandardWithZFlipped(lng: real, lat: real, radius: real, m: MathLib)
    requires Parity(m)
    ensures LngLatToXYZ([lng, lat], radius, m)
         == Vec3(radius * m.cos(Radians(lat)) * m.cos(Radians(lng)),
                 radius * m.sin(Radians(lat)),
                 -(radius * m.cos(Radians(lat)) * m.sin(Radians(lng))))
  {
    if radius != 0.0 {
      var t := Radians(lng);
      assert m.sin(-t) == -m.sin(t);
      assert m.cos(-t) == m.cos(t);
    }
  }

  /** Trigonometric values at 0 and at a right angle. */
  ghost predicate RightAngleValues(m: MathLib)
  {
    m.sin(0.0) == 0.0 && m.cos(0.0) == 1.0 && m.sin(Pi / 2.0) == 1.0 && m.cos(Pi / 2.0) == 0.0
  }

  /**
   * The axis convention: longitude 0 on the equator is the +x axis, longitude
   * -90 on the equator is the +z axis, the north pole is the +y axis.
   */
  lemma XYZAxisConvention(radius: real, m: MathLib)
    requires RightAngleValues(m)
    ensures LngLatToXYZ([0.0, 0.0], radius, m) == Vec3(radius, 0.0, 0.0)
    ensures LngLatToXYZ([-90.0, 0.0], radius, m) == Vec3(0.0, 0.0, radius)
    ensures LngLatToXYZ([0.0, 90.0], radius, m) == Vec3(0.0, radius, 0.0)
  {
    assert Radians(0.0) == 0.0 && -0.0 == 0.0;
    assert Radians(-90.0) == -(Pi / 2.0) && Radians(90.0) == Pi / 2.0;
    assert -Radians(-90.0) == Pi / 2.0;
  }

  // ---------------------------------------------------------------------------
  // lngLatToMercator
  // ---------------------------------------------------------------------------

  /** The Earth's radius in metres. */
  const EarthRadius: real := 6371393.0

  /** Half the Earth's circumference: the Mercator x of longitude 180. */
  const HalfPerimeter: real := Pi * EarthRadius

  /**
   * Longitude/latitude in degrees to Mercator metres. No input is checked.
   * The result is the textbook projection x = R * lng, y = R * ln(tan(pi/4 + lat/2)),
   * with the angles in radians.
   */
  function LngLatToMercator(lngLat: seq<real>, m: MathLib): (r: Point2)
    requires |lngLat| >= 2
    ensures r.x == EarthRadius * Radians(lngLat[0])
    ensures r.y == EarthRadius * m.log(m.tan(Pi / 4.0 + Radians(lngLat[1]) / 2.0))
  {
    var e := lngLat[0];
    var n := lngLat[1];
    var x := (e * HalfPerimeter) / 180.0;
    assert (90.0 + n) * Pi / 360.0 == Pi / 4.0 + Radians(n) / 2.0;
    var yLog := m.log(m.tan(((90.0 + n) * Pi) / 360.0)) / (Pi / 180.0);
    var y := (yLog * HalfPerimeter) / 180.0;
    Point2(x, y)
  }

  /** The longitude back from a Mercator x. */
  function MercatorLongitude(x: real): real
  {
    (x * 180.0) / HalfPerimeter
  }

  /** Mercator x is invertible: the longitude is recovered from it. */
  lemma MercatorLongitudeRoundTrip(lngLat: seq<real>, m: MathLib)
    requires |lngLat| >= 2
    ensures MercatorLongitude(LngLatToMercator(lngLat, m).x) == lngLat[0]
  {
    var x := LngLatToMercator(lngLat, m).x;
    assert x == lngLat[0] * HalfPerimeter / 180.0;
    assert HalfPerimeter > 0.0;
    calc {
      MercatorLongitude(x);
      (lngLat[0] * HalfPerimeter / 180.0) * 180.0 / HalfPerimeter;
      lngLat[0] * (HalfPerimeter / HalfPerimeter);
      lngLat[0];
    }
  }

  /** Mercator x at the prime meridian and at the antimeridian. */
  lemma MercatorXAtKeyLongitudes(lat: real, m: MathLib)
    ensures LngLatToMercator([0.0, lat], m).x == 0.0
    ensures LngLatToMercator([180.0, lat], m).x == HalfPerimeter
    ensures LngLatToMercator([-180.0, lat], m).x == -HalfPerimeter
  {
  }

  /** Mercator x grows strictly with longitude (by `LngLatToMercator`'s first ensures it does not depend on latitude). */
  lemma MercatorXStrictlyIncreasing(p: seq<real>, q: seq<real>, m: MathLib)
    requires |p| >= 2 && |q| >= 2
    requires p[0] < q[0]
    ensures LngLatToMercator(p, m).x < LngLatToMercator(q, m).x
  {
    assert EarthRadius * Radians(p[0]) < EarthRadius * Radians(q[0]);
  }

  /** With tan(pi/4) == 1 and log(1) == 0, longitude/latitude (0, 0) maps to the origin. */
  lemma MercatorOrigin(m: MathLib)
    requires m.tan(Pi / 4.0) == 1.0 && m.log(1.0) == 0.0
    ensures LngLatToMercator([0.0, 0.0], m) == Point2(0.0, 0.0)
  {
    assert Pi / 4.0 + Radians(0.0) / 2.0 == Pi / 4.0;
  }

  // ---------------------------------------------------------------------------
  // pointInPolygon
  // ---------------------------------------------------------------------------

  /**
   * The edge from vertex `vi` back to vertex `vj` crosses the horizontal ray
   * going right from `p`: the edge's end heights lie on different sides of
   * `p.y` (one above, the other at or below), and the edge meets the line
   * y == p.y strictly to the right of `p`. The division is only evaluated
   * when the first conjunct holds, which rules out vi.y == vj.y.
   */
  predicate Crosses(p: Point2, vi: Point2, vj: Point2)
  {
    (vi.y > p.y) != (vj.y > p.y) && p.x < EdgeXAtHeight(vi, vj, p.y)
  }

  /**
   * The x at which the line through `vi` and `vj` reaches height `y`,
   * `((xj - xi) * (y - yi)) / (yj - yi) + xi`; it divides by yj - yi, so the
   * edge must not be horizontal.
   */
  function EdgeXAtHeight(vi: Point2, vj: Point2, y: real): real
    requires vi.y != vj.y
  {
    ((vj.x - vi.x) * (y - vi.y)) / (vj.y - vi.y) + vi.x
  }

  /** The point (EdgeXAtHeight(vi, vj, y), y) lies on the line through vi and vj. */
  lemma EdgeXOnEdgeLine(vi: Point2, vj: Point2, y: real)
    requires vi.y != vj.y
    ensures (EdgeXAtHeight(vi, vj, y) - vi.x) * (vj.y - vi.y) == (vj.x - vi.x) * (y - vi.y)
  {
  }

  /** The index paired with `i`: the previous vertex, wrapping from 0 to the last one. */
  function Prev(n: nat, i: nat): nat
    requires i < n
  {
    if i == 0 then n - 1 else i - 1
  }

  /** 1 when edge `i` of the implicitly closed ring crosses the ray from `p`. */
  function EdgeCrossing(p: Point2, polygon: seq<Point2>, i: nat): nat
    requires i < |polygon|
  {
    if Crosses(p, polygon[i], polygon[Prev(|polygon|, i)]) then 1 else 0
  }

  /** The number of crossing edges among edges 0 .. k-1. */
  function Crossings(p: Point2, polygon: seq<Point2>, k: nat): nat
    requires k <= |polygon|
  {
    if k == 0 then 0 else Crossings(p, polygon, k - 1) + EdgeCrossing(p, polygon, k - 1)
  }

  /** The even-odd rule: inside when an odd number of edges cross the ray. */
  predicate InsideByParity(p: Point2, polygon: seq<Point2>)
  {
    Crossings(p, polygon, |polygon|) % 2 == 1
  }

  /**
   * Ray casting over the ring, with `j` trailing `i` by one and starting at the
   * last vertex; `inside` is toggled at every crossing edge.
   */
  method PointInPolygon(point: Point2, polygon: seq<Point2>) returns (inside: bool)
    ensures inside <==> InsideByParity(point, polygon)
    ensures |polygon| < 3 ==> !inside
  {
    var x := point.x;
    var y := point.y;
    inside := false;
    var i: int := 0;
    var j: int := |polygon| - 1;
    while i < |polygon|
      invariant 0 <= i <= |polygon|
      invariant i == 0 ==> j == |polygon| - 1
      invariant i > 0 ==> j == i - 1
      invariant inside <==> Crossings(point, polygon, i) % 2 == 1
    {
      var yi := polygon[i].y;
      var yj := polygon[j].y;
      var intersect := (yi > y) != (yj > y) && x < EdgeXAtHeight(polygon[i], polygon[j], y);
      assert j == Prev(|polygon|, i);
      if intersect {
        inside := !inside;
      }
      j, i := i, i + 1;
    }
    if |polygon| < 3 {
      FewerThanThreeVerticesOutside(point, polygon);
    }
  }

  /** A crossing edge is never horizontal, so the quotient in `Crosses` never divides by zero. */
  lemma CrossingEdgeIsNotHorizontal(p: Point2, vi: Point2, vj: Point2)
    requires Crosses(p, vi, vj)
    ensures vi.y != vj.y
  {
  }

  /**
   * Where an edge meets the line of the ray lies within the edge's horizontal
   * extent, so a crossing edge has an end strictly to the right of `p`.
   */
  lemma CrossingHasVertexToTheRight(p: Point2, vi: Point2, vj: Point2)
    requires Crosses(p, vi, vj)
    ensures p.x < vi.x || p.x < vj.x
  {
    var t := (p.y - vi.y) / (vj.y - vi.y);
    if vi.y > p.y {
      QuotientInUnitInterval(vi.y - p.y, vi.y - vj.y);
      assert t == (vi.y - p.y) / (vi.y - vj.y);
    } else {
      QuotientInUnitInterval(p.y - vi.y, vj.y - vi.y);
    }
    var ix := EdgeXAtHeight(vi, vj, p.y);
    assert ix == (1.0 - t) * vi.x + t * vj.x;
    if vi.x <= p.x && vj.x <= p.x {
      MulNonNegative(1.0 - t, p.x - vi.x);
      MulNonNegative(t, p.x - vj.x);
      assert false;
    }
  }

  /** When no edge among the first k crosses, the count is zero. */
  lemma {:induction false} NoCrossingEdgesCountZero(p: Point2, polygon: seq<Point2>, k: nat)
    requires k <= |polygon|
    requires forall i :: 0 <= i < k ==> !Crosses(p, polygon[i], polygon[Prev(|polygon|, i)])
    ensures Crossings(p, polygon, k) == 0
  {
    if k > 0 {
      NoCrossingEdgesCountZero(p, polygon, k - 1);
    }
  }

  /**
   * A point at or right of every vertex, at or above every vertex, or below
   * every vertex is outside: no edge can cross its ray.
   */
  lemma OutsideBeyondAllVertices(p: Point2, polygon: seq<Point2>)
    requires (forall k :: 0 <= k < |polygon| ==> polygon[k].x <= p.x)
          || (forall k :: 0 <= k < |polygon| ==> polygon[k].y <= p.y)
          || (forall k :: 0 <= k < |polygon| ==> polygon[k].y > p.y)
    ensures Crossings(p, polygon, |polygon|) == 0
    ensures !InsideByParity(p, polygon)
  {
    var n := |polygon|;
    forall i | 0 <= i < n
      ensures !Crosses(p, polygon[i], polygon[Prev(n, i)])
    {
      if Crosses(p, polygon[i], polygon[Prev(n, i)]) {
        CrossingHasVertexToTheRight(p, polygon[i], polygon[Prev(n, i)]);
      }
    }
    NoCrossingEdgesCountZero(p, polygon, n);
  }

  /**
   * The two edges of a two-vertex ring, a to b and b to a, meet any horizontal
   * line at the same x.
   */
  lemma ReversedEdgeMeetsAtSameX(a: Point2, b: Point2, y: real)
    requires a.y != b.y
    ensures EdgeXAtHeight(b, a, y) == EdgeXAtHeight(a, b, y)
  {
    var d := a.y - b.y;
    var q1 := EdgeXAtHeight(b, a, y) - b.x;
    var q2 := EdgeXAtHeight(a, b, y) - a.x;
    assert q1 * d == (a.x - b.x) * (y - b.y);
    assert q2 * (-d) == (b.x - a.x) * (y - a.y);
    var e := q1 - q2 - (a.x - b.x);
    assert e * d == 0.0;
    assert e == (e * d) / d;
  }

  /**
   * A ring of fewer than three vertices is never inside: one vertex gives an
   * edge from the vertex to itself, which never straddles the ray, and two
   * vertices give the same edge twice, so the count is 0 or 2.
   */
  lemma FewerThanThreeVerticesOutside(p: Point2, polygon: seq<Point2>)
    requires |polygon| < 3
    ensures !InsideByParity(p, polygon)
  {
    if |polygon| == 2 {
      var a, b := polygon[0], polygon[1];
      assert Crossings(p, polygon, 1) == EdgeCrossing(p, polygon, 0);
      assert Crossings(p, polygon, 2) == EdgeCrossing(p, polygon, 0) + EdgeCrossing(p, polygon, 1);
      if (a.y > p.y) != (b.y > p.y) {
        ReversedEdgeMeetsAtSameX(a, b, p.y);
      }
      assert EdgeCrossing(p, polygon, 0) == EdgeCrossing(p, polygon, 1);
    } else if |polygon| == 1 {
      assert !Crosses(p, polygon[0], polygon[0]);
      assert Crossings(p, polygon, 1) == EdgeCrossing(p, polygon, 0);
    }
  }

  /** The ring with its first vertex moved to the end: the same closed polygon. */
  function RotateLeft(polygon: seq<Point2>): (r: seq<Point2>)
    requires |polygon| > 0
    ensures |r| == |polygon|
  {
    polygon[1..] + [polygon[0]]
  }

  /**
   * The first k edges of the rotated ring are edges 1 .. k of the original;
   * adding edge 0 gives the original's first k + 1 edges.
   */
  lemma {:induction false} RotatedPrefixCrossings(p: Point2, polygon: seq<Point2>, k: nat)
    requires 0 < |polygon| && k < |polygon|
    ensures Crossings(p, RotateLeft(polygon), k) + EdgeCrossing(p, polygon, 0)
         == Crossings(p, polygon, k + 1)
  {
    var n := |polygon|;
    var r := RotateLeft(polygon);
    if k > 0 {
      RotatedPrefixCrossings(p, polygon, k - 1);
      assert r[k - 1] == polygon[k];
      assert r[Prev(n, k - 1)] == polygon[Prev(n, k)];
      assert EdgeCrossing(p, r, k - 1) == EdgeCrossing(p, polygon, k);
    }
  }

  /**
   * Starting the ring at its second vertex (the first moved to the end) keeps
   * the same set of edges, so the count and the answer are unchanged; see
   * AnyRotationPreservesInside for every start vertex.
   */
  lemma RotationPreservesInside(p: Point2, polygon: seq<Point2>)
    requires |polygon| > 0
    ensures Crossings(p, RotateLeft(polygon), |polygon|) == Crossings(p, polygon, |polygon|)
    ensures InsideByParity(p, RotateLeft(polygon)) <==> InsideByParity(p, polygon)
  {
    var n := |polygon|;
    var r := RotateLeft(polygon);
    RotatedPrefixCrossings(p, polygon, n - 1);
    assert r[n - 1] == polygon[0];
    assert r[Prev(n, n - 1)] == polygon[Prev(n, 0)] by {
      if n > 1 {
        assert Prev(n, n - 1) == n - 2 && r[n - 2] == polygon[n - 1];
      }
    }
    assert EdgeCrossing(p, r, n - 1) == EdgeCrossing(p, polygon, 0);
  }

  /** The ring started at vertex k: vertices k .. n-1 followed by 0 .. k-1. */
  function RotateBy(polygon: seq<Point2>, k: nat): (r: seq<Point2>)
    requires k <= |polygon|
    ensures |r| == |polygon|
  {
    polygon[k..] + polygon[..k]
  }

  /** Starting the ring at any vertex changes neither the crossing count nor the answer. */
  lemma {:induction false} AnyRotationPreservesInside(p: Point2, polygon: seq<Point2>, k: nat)
    requires k <= |polygon|
    ensures Crossings(p, RotateBy(polygon, k), |polygon|) == Crossings(p, polygon, |polygon|)
    ensures InsideByParity(p, RotateBy(polygon, k)) <==> InsideByParity(p, polygon)
  {
    if k == 0 {
      assert RotateBy(polygon, 0) == polygon;
    } else {
      AnyRotationPreservesInside(p, polygon, k - 1);
      RotationPreservesInside(p, RotateBy(polygon, k - 1));
      assert RotateLeft(RotateBy(polygon, k - 1)) == RotateBy(polygon, k);
    }
  }

  /** The axis-aligned rectangle with corners (x0, y0) and (x1, y1), listed counter-clockwise. */
  function Rectangle(x0: real, y0: real, x1: real, y1: real): (r: seq<Point2>)
    ensures |r| == 4
  {
    [Point2(x0, y0), Point2(x1, y0), Point2(x1, y1), Point2(x0, y1)]
  }

  /**
   * A point strictly inside a rectangle is inside by the even-odd rule: only
   * the right side crosses its ray. (The unit square and (0.5, 0.5) is one case.)
   */
  lemma RectangleContainsInterior(x0: real, y0: real, x1: real, y1: real, p: Point2)
    requires x0 < p.x < x1 && y0 < p.y < y1
    ensures Crossings(p, Rectangle(x0, y0, x1, y1), 4) == 1
    ensures InsideByParity(p, Rectangle(x0, y0, x1, y1))
  {
    var r := Rectangle(x0, y0, x1, y1);
    assert EdgeXAtHeight(r[0], r[3], p.y) == x0;
    assert EdgeXAtHeight(r[2], r[1], p.y) == x1;
    assert EdgeCrossing(p, r, 0) == 0;
    assert EdgeCrossing(p, r, 1) == 0;
    assert EdgeCrossing(p, r, 2) == 1;
    assert EdgeCrossing(p, r, 3) == 0;
    assert Crossings(p, r, 1) == 0;
    assert Crossings(p, r, 2) == 0;
    assert Crossings(p, r, 3) == 1;
  }

  /** A point above and to the right of a rectangle, such as (2, 2) for the unit square, is outside. */
  lemma RectangleExcludesPointBeyondCorner(x0: real, y0: real, x1: real, y1: real, p: Point2)
    requires x0 <= x1 && y0 <= y1
    requires x1 <= p.x
    ensures !InsideByParity(p, Rectangle(x0, y0, x1, y1))
  {
    OutsideBeyondAllVertices(p, Rectangle(x0, y0, x1, y1));
  }
}
