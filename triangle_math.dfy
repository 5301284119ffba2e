/**
 * The triangle incircle computation of the math utilities: the incenter as the
 * average of the vertices weighted by the opposite side lengths, and the
 * inradius as twice Heron's area over the perimeter.
 */
module TriangleMath {
  import opened JsMath
  import opened Plane
  import opened Reals

  /** The result record `{point, radius}`. */
  datatype InnerCircle = InnerCircle(point: Point2, radius: real)

  /** `Math.pow(q[0] - p[0], 2) + Math.pow(q[1] - p[1], 2)`: the squared distance from p to q. */
  function SquaredDistance(p: Point2, q: Point2, m: MathLib): real
  {
    m.pow(q.x - p.x, 2.0) + m.pow(q.y - p.y, 2.0)
  }

  /** The length of the segment from `p` to `q`, through `Math.sqrt`. */
  function SideLength(p: Point2, q: Point2, m: MathLib): real
  {
    m.sqrt(SquaredDistance(p, q, m))
  }

  /** |BC| + |AC| + |AB|, the divisor of every quotient in the computation. */
  function Perimeter(a: Point2, b: Point2, c: Point2, m: MathLib): real
  {
    SideLength(b, c, m) + SideLength(a, c, m) + SideLength(a, b, m)
  }

  /** Heron's radicand `p * (p - a) * (p - b) * (p - c)` for semiperimeter p and sides a, b, c. */
  function HeronProduct(p: real, sa: real, sb: real, sc: real): real
  {
    p * (p - sa) * (p - sb) * (p - sc)
  }

  /** Heron's formula, through `Math.sqrt`, for the area of a triangle with sides sa, sb and sc. */
  function HeronArea(sa: real, sb: real, sc: real, m: MathLib): real
  {
    m.sqrt(HeronProduct((sa + sb + sc) / 2.0, sa, sb, sc))
  }

  /** `(2 * triangleArea) / (bc + ac + ab)`: twice the area over the perimeter. */
  function InRadius(sa: real, sb: real, sc: real, m: MathLib): (r: real)
    requires sa + sb + sc != 0.0
    ensures r * (sa + sb + sc) == 2.0 * HeronArea(sa, sb, sc, m)
  {
    (2.0 * HeronArea(sa, sb, sc, m)) / (sa + sb + sc)
  }

  /** The average of a, b and c weighted by wa, wb and wc. */
  function WeightedCenter(a: Point2, b: Point2, c: Point2, wa: real, wb: real, wc: real): (r: Point2)
    requires wa + wb + wc != 0.0
    ensures r.x * (wa + wb + wc) == wa * a.x + wb * b.x + wc * c.x
    ensures r.y * (wa + wb + wc) == wa * a.y + wb * b.y + wc * c.y
  {
    Point2((wa * a.x + wb * b.x + wc * c.x) / (wa + wb + wc), (wa * a.y + wb * b.y + wc * c.y) / (wa + wb + wc))
  }

  /**
   * The incircle of triangle abc: each vertex weighted by the length of the
   * side opposite it, and the radius from Heron's area. Every quotient divides
   * by the perimeter, so a perimeter of zero, which happens exactly when the
   * three vertices coincide (CoincidentVerticesHaveZeroPerimeter), is excluded.
   */
  function GetTriangleInnerCircle(a: Point2, b: Point2, c: Point2, m: MathLib): InnerCircle
    requires Perimeter(a, b, c, m) != 0.0
  {
    var bc, ac, ab := SideLength(b, c, m), SideLength(a, c, m), SideLength(a, b, m);
    InnerCircle(WeightedCenter(a, b, c, bc, ac, ab), InRadius(bc, ac, ab, m))
  }

  /**
   * The cross product (b - a) x (q - a), twice the signed area of triangle a b q,
   * written as a part linear in q minus a part that does not depend on q.
   */
  function Cross(a: Point2, b: Point2, q: Point2): real
  {
    Turn(b.x - a.x, b.y - a.y, q) - Turn(b.x - a.x, b.y - a.y, a)
  }

  /** The cross product of the direction (dx, dy) with the position of q. */
  function Turn(dx: real, dy: real, q: Point2): real
  {
    dx * q.y - dy * q.x
  }

  /** The absolute value. */
  function Abs(v: real): (r: real)
    ensures 0.0 <= r && (r == v || r == -v)
  {
    if v < 0.0 then -v else v
  }

  /** The least of three numbers. */
  function Min3(u: real, v: real, w: real): (r: real)
    ensures r <= u && r <= v && r <= w && (r == u || r == v || r == w)
  {
    if u <= v && u <= w then u else if v <= w then v else w
  }

  /** The greatest of three numbers. */
  function Max3(u: real, v: real, w: real): (r: real)
    ensures u <= r && v <= r && w <= r && (r == u || r == v || r == w)
  {
    if u >= v && u >= w then u else if v >= w then v else w
  }

  // ---------------------------------------------------------------------------
  // Facts about the reals that the lemmas below instantiate
  // ---------------------------------------------------------------------------

  /**
   * A weighted average with non-negative weights of positive total lies
   * between the least and the greatest of the averaged values.
   */
  lemma WeightedAverageBetween(wa: real, wb: real, wc: real, u: real, v: real, w: real, avg: real)
    requires 0.0 <= wa && 0.0 <= wb && 0.0 <= wc && 0.0 < wa + wb + wc
    requires avg == (wa * u + wb * v + wc * w) / (wa + wb + wc)
    ensures Min3(u, v, w) <= avg <= Max3(u, v, w)
  {
    var lo, hi, t := Min3(u, v, w), Max3(u, v, w), wa + wb + wc;
    var n := wa * u + wb * v + wc * w;
    assert avg * t == n;
    assert (avg - lo) * t == wa * (u - lo) + wb * (v - lo) + wc * (w - lo);
    assert (hi - avg) * t == wa * (hi - u) + wb * (hi - v) + wc * (hi - w);
    MulNonNegative(wa, u - lo);
    MulNonNegative(wb, v - lo);
    MulNonNegative(wc, w - lo);
    MulNonNegative(wa, hi - u);
    MulNonNegative(wb, hi - v);
    MulNonNegative(wc, hi - w);
    NonNegativeFactor(avg - lo, t);
    NonNegativeFactor(hi - avg, t);
  }

  /** The weighted average does not depend on the order in which the weighted values are listed. */
  lemma WeightedAverageReordered(wa: real, wb: real, wc: real, u: real, v: real, w: real)
    requires wa + wb + wc != 0.0
    ensures (wb * v + wc * w + wa * u) / (wb + wc + wa) == (wa * u + wb * v + wc * w) / (wa + wb + wc)
    ensures (wa * u + wc * w + wb * v) / (wa + wc + wb) == (wa * u + wb * v + wc * w) / (wa + wb + wc)
  {
  }

  /** Heron's radicand does not depend on the order of the sides. */
  lemma HeronProductReordered(p: real, sa: real, sb: real, sc: real)
    ensures HeronProduct(p, sb, sc, sa) == HeronProduct(p, sa, sb, sc)
    ensures HeronProduct(p, sa, sc, sb) == HeronProduct(p, sa, sb, sc)
  {
    assert (p - sb) * (p - sc) * (p - sa) == (p - sa) * (p - sb) * (p - sc);
  }

  /** Two ways of writing twice a quantity over the perimeter, as the radius and area steps need them. */
  lemma TwiceOverDivisor(x: real, d: real)
    requires d != 0.0
    ensures (2.0 * x) / d == x / (d / 2.0)
    ensures (2.0 * (x / 2.0)) / d == x / d
  {
  }

  /** Sixteen times Heron's radicand is the product of the perimeter and the three differences. */
  lemma HeronRadicandDoubled(sa: real, sb: real, sc: real)
    ensures 16.0 * HeronProduct((sa + sb + sc) / 2.0, sa, sb, sc)
         == (sa + sb + sc) * (sb + sc - sa) * (sa + sc - sb) * (sa + sb - sc)
  {
    var p := (sa + sb + sc) / 2.0;
    calc {
      16.0 * HeronProduct(p, sa, sb, sc);
      (2.0 * p) * (2.0 * p - 2.0 * sa) * (2.0 * p - 2.0 * sb) * (2.0 * p - 2.0 * sc);
    }
  }

  /** The four factors of Heron's product, paired into two differences of squares. */
  lemma HeronRadicandGrouped(sa: real, sb: real, sc: real)
    ensures (sa + sb + sc) * (sb + sc - sa) * (sa + sc - sb) * (sa + sb - sc)
         == ((sb + sc) * (sb + sc) - sa * sa) * (sa * sa - (sb - sc) * (sb - sc))
  {
  }

  /** The two differences of squares multiplied out into the squared sides. */
  lemma HeronRadicandMultipliedOut(sa: real, sb: real, sc: real)
    ensures ((sb + sc) * (sb + sc) - sa * sa) * (sa * sa - (sb - sc) * (sb - sc))
         == 2.0 * (sa * sa) * (sb * sb) + 2.0 * (sb * sb) * (sc * sc) + 2.0 * (sc * sc) * (sa * sa)
            - (sa * sa) * (sa * sa) - (sb * sb) * (sb * sb) - (sc * sc) * (sc * sc)
  {
  }

  /** Heron's radicand, multiplied out, in terms of the squared sides. */
  lemma HeronExpansion(sa: real, sb: real, sc: real)
    ensures 16.0 * HeronProduct((sa + sb + sc) / 2.0, sa, sb, sc)
         == 2.0 * (sa * sa) * (sb * sb) + 2.0 * (sb * sb) * (sc * sc) + 2.0 * (sc * sc) * (sa * sa)
            - (sa * sa) * (sa * sa) - (sb * sb) * (sb * sb) - (sc * sc) * (sc * sc)
  {
    HeronRadicandDoubled(sa, sb, sc);
    HeronRadicandGrouped(sa, sb, sc);
    HeronRadicandMultipliedOut(sa, sb, sc);
  }

  /** The exact squared distance, without `Math.pow`. */
  function Dist2(p: Point2, q: Point2): (d: real)
    ensures 0.0 <= d
  {
    (q.x - p.x) * (q.x - p.x) + (q.y - p.y) * (q.y - p.y)
  }

  /**
   * The squared side lengths of a triangle determine its squared double area,
   * the polynomial form of Heron's formula.
   */
  lemma SquaredSidesIdentity(a: Point2, b: Point2, c: Point2)
    ensures var qa, qb, qc := Dist2(b, c), Dist2(a, c), Dist2(a, b);
      2.0 * qa * qb + 2.0 * qb * qc + 2.0 * qc * qa - qa * qa - qb * qb - qc * qc
      == 4.0 * (Cross(a, b, c) * Cross(a, b, c))
  {
    var ux, uy, vx, vy := b.x - a.x, b.y - a.y, c.x - a.x, c.y - a.y;
    var qa, qb, qc := Dist2(b, c), Dist2(a, c), Dist2(a, b);
    var d := ux * vx + uy * vy;
    assert qb == vx * vx + vy * vy;
    assert qc == ux * ux + uy * uy;
    assert qa == qb + qc - 2.0 * d;
    assert 2.0 * qa * qb + 2.0 * qb * qc + 2.0 * qc * qa - qa * qa - qb * qb - qc * qc
        == 4.0 * (qb * qc - d * d);
    assert qb * qc - d * d == (ux * vy - uy * vx) * (ux * vy - uy * vx);
  }

  /** Heron's radicand of sides whose squares are the exact squared distances is a quarter of the squared cross product. */
  lemma HeronRadicandOfSides(a: Point2, b: Point2, c: Point2, sa: real, sb: real, sc: real)
    requires sa * sa == Dist2(b, c) && sb * sb == Dist2(a, c) && sc * sc == Dist2(a, b)
    ensures 4.0 * HeronProduct((sa + sb + sc) / 2.0, sa, sb, sc) == Cross(a, b, c) * Cross(a, b, c)
  {
    var qa, qb, qc := Dist2(b, c), Dist2(a, c), Dist2(a, b);
    HeronExpansion(sa, sb, sc);
    SquaredSidesIdentity(a, b, c);
    assert 16.0 * HeronProduct((sa + sb + sc) / 2.0, sa, sb, sc)
        == 2.0 * qa * qb + 2.0 * qb * qc + 2.0 * qc * qa - qa * qa - qb * qb - qc * qc;
  }

  /** Turn of a point whose coordinates share a divisor is the Turn of the numerators over that divisor. */
  lemma LinearOfQuotients(dx: real, dy: real, nx: real, ny: real, w: real)
    requires w != 0.0
    ensures dx * (ny / w) - dy * (nx / w) == (dx * ny - dy * nx) / w
  {
  }

  /** Turn of a weighted sum of points is the weighted sum of their Turns. */
  lemma LinearOfCombination(dx: real, dy: real, a: Point2, b: Point2, c: Point2, wa: real, wb: real, wc: real)
    ensures dx * (wa * a.y + wb * b.y + wc * c.y) - dy * (wa * a.x + wb * b.x + wc * c.x)
         == wa * Turn(dx, dy, a) + wb * Turn(dx, dy, b) + wc * Turn(dx, dy, c)
  {
  }

  /** Turn is linear in its point, so it commutes with a weighted average. */
  lemma TurnOfWeightedCenter(dx: real, dy: real, a: Point2, b: Point2, c: Point2, wa: real, wb: real, wc: real)
    requires wa + wb + wc != 0.0
    ensures Turn(dx, dy, WeightedCenter(a, b, c, wa, wb, wc))
         == (wa * Turn(dx, dy, a) + wb * Turn(dx, dy, b) + wc * Turn(dx, dy, c)) / (wa + wb + wc)
  {
    LinearOfQuotients(dx, dy, wa * a.x + wb * b.x + wc * c.x, wa * a.y + wb * b.y + wc * c.y, wa + wb + wc);
    LinearOfCombination(dx, dy, a, b, c, wa, wb, wc);
  }

  /** Subtracting a constant from every term of a weighted average subtracts it from the average. */
  lemma AverageMinusConstant(la: real, lb: real, lc: real, k: real, ca: real, cb: real, cc: real, wa: real, wb: real, wc: real)
    requires wa + wb + wc != 0.0
    requires ca == la - k && cb == lb - k && cc == lc - k
    ensures (wa * la + wb * lb + wc * lc) / (wa + wb + wc) - k == (wa * ca + wb * cb + wc * cc) / (wa + wb + wc)
  {
    var w := wa + wb + wc;
    assert wa * ca + wb * cb + wc * cc == (wa * la + wb * lb + wc * lc) - k * w;
  }

  /** The cross product against a weighted average of points is the weighted average of the cross products. */
  lemma CrossOfWeightedAverage(u: Point2, v: Point2, a: Point2, b: Point2, c: Point2, wa: real, wb: real, wc: real)
    requires wa + wb + wc != 0.0
    ensures Cross(u, v, WeightedCenter(a, b, c, wa, wb, wc))
         == (wa * Cross(u, v, a) + wb * Cross(u, v, b) + wc * Cross(u, v, c)) / (wa + wb + wc)
  {
    var dx, dy := v.x - u.x, v.y - u.y;
    TurnOfWeightedCenter(dx, dy, a, b, c, wa, wb, wc);
    AverageMinusConstant(Turn(dx, dy, a), Turn(dx, dy, b), Turn(dx, dy, c), Turn(dx, dy, u),
      Cross(u, v, a), Cross(u, v, b), Cross(u, v, c), wa, wb, wc);
  }

  /**
   * The cross product of edge ab with the point weighted by the side lengths:
   * the weight of c (the side opposite c) times the triangle's cross product,
   * over the total weight. The other two edges follow by relabelling.
   */
  lemma WeightedCenterCrossAB(a: Point2, b: Point2, c: Point2, sa: real, sb: real, sc: real)
    requires sa + sb + sc != 0.0
    ensures Cross(a, b, WeightedCenter(a, b, c, sa, sb, sc)) == (sc * Cross(a, b, c)) / (sa + sb + sc)
  {
    assert Cross(a, b, a) == 0.0 && Cross(a, b, b) == 0.0;
    CrossOfWeightedAverage(a, b, a, b, c, sa, sb, sc);
  }

  /** The absolute value of s * k / w, and of its negation, with s non-negative and w positive, is |k| / w times s. */
  lemma AbsOfScaledQuotient(s: real, k: real, w: real)
    requires 0.0 <= s && 0.0 < w
    ensures Abs((s * k) / w) == (Abs(k) / w) * s
    ensures Abs(-(s * k) / w) == (Abs(k) / w) * s
  {
    if k < 0.0 {
      assert (s * k) / w == -((Abs(k) / w) * s);
    } else {
      assert (s * k) / w == (Abs(k) / w) * s;
    }
  }

  /** The step from a cross product against the incenter to its distance from the side line. */
  lemma DistanceToSideLine(cq: real, s: real, k: real, w: real, r: real)
    requires 0.0 <= s && 0.0 < w
    requires cq == (s * k) / w || cq == -(s * k) / w
    requires r == Abs(k) / w
    ensures Abs(cq) == r * s
  {
    AbsOfScaledQuotient(s, k, w);
  }

  /** Half of |k|, squared, is a quarter of k squared: the square that SqrtOfQuarterSquare takes the root of. */
  lemma HalfAbsSquared(k: real)
    ensures (Abs(k) / 2.0) * (Abs(k) / 2.0) == (k * k) / 4.0
  {
  }

  /** With an exact `Math.sqrt`, the root of a quarter of k squared is half of |k|. */
  lemma SqrtOfQuarterSquare(m: MathLib, h: real, k: real)
    requires SqrtIsExact(m)
    requires 4.0 * h == k * k
    ensures m.sqrt(h) == Abs(k) / 2.0
  {
    HalfAbsSquared(k);
    SqrtOfSquare(m, Abs(k) / 2.0, h);
  }

  // ---------------------------------------------------------------------------
  // Side lengths
  // ---------------------------------------------------------------------------

  /** With an exact `Math.pow`, the squared distance is the Euclidean one. */
  lemma SquaredDistanceIsExact(p: Point2, q: Point2, m: MathLib)
    requires SquareIsExact(m)
    ensures SquaredDistance(p, q, m) == Dist2(p, q)
  {
    assert m.pow(q.x - p.x, 2.0) == (q.x - p.x) * (q.x - p.x);
    assert m.pow(q.y - p.y, 2.0) == (q.y - p.y) * (q.y - p.y);
  }

  /** With an exact `Math.pow` and `Math.sqrt`, a side length is the non-negative root of the squared distance. */
  lemma SideLengthIsExact(p: Point2, q: Point2, m: MathLib)
    requires SquareIsExact(m) && SqrtIsExact(m)
    ensures 0.0 <= SideLength(p, q, m)
    ensures SideLength(p, q, m) * SideLength(p, q, m) == Dist2(p, q)
  {
    SquaredDistanceIsExact(p, q, m);
  }

  /** The length of a side does not depend on the direction it is measured in. */
  lemma SideLengthSymmetric(p: Point2, q: Point2, m: MathLib)
    requires SquareIsExact(m)
    ensures SideLength(q, p, m) == SideLength(p, q, m)
  {
    SquaredDistanceIsExact(p, q, m);
    SquaredDistanceIsExact(q, p, m);
    assert Dist2(q, p) == Dist2(p, q);
  }

  /** A side from a point to itself has length zero. */
  lemma SideLengthOfSamePoint(p: Point2, m: MathLib)
    requires SquareIsExact(m) && SqrtIsExact(m)
    ensures SideLength(p, p, m) == 0.0
  {
    SquaredDistanceIsExact(p, p, m);
    SqrtZeroIffZero(m, 0.0);
  }

  /** Two points at squared distance zero are the same point. */
  lemma Dist2Zero(p: Point2, q: Point2)
    requires Dist2(p, q) == 0.0
    ensures p == q
  {
    SquareNonNegative(q.x - p.x);
    SquareNonNegative(q.y - p.y);
    SquareZero(q.x - p.x);
    SquareZero(q.y - p.y);
  }

  /**
   * The perimeter is never negative, and it is zero exactly when the three
   * vertices coincide: then every quotient of the computation divides by zero.
   */
  lemma CoincidentVerticesHaveZeroPerimeter(a: Point2, b: Point2, c: Point2, m: MathLib)
    requires SquareIsExact(m) && SqrtIsExact(m)
    ensures 0.0 <= Perimeter(a, b, c, m)
    ensures a == b && b == c <==> Perimeter(a, b, c, m) == 0.0
  {
    SideLengthIsExact(b, c, m);
    SideLengthIsExact(a, c, m);
    SideLengthIsExact(a, b, m);
    if a == b && b == c {
      SideLengthOfSamePoint(a, m);
    } else if Perimeter(a, b, c, m) == 0.0 {
      assert SideLength(a, b, m) == 0.0 && SideLength(b, c, m) == 0.0;
      assert Dist2(a, b) == 0.0;
      assert Dist2(b, c) == 0.0;
      Dist2Zero(a, b);
      Dist2Zero(b, c);
    }
  }

  // ---------------------------------------------------------------------------
  // The incenter
  // ---------------------------------------------------------------------------

  /** A point weighted by non-negative weights of positive total lies in the bounding box of the weighted points. */
  lemma WeightedCenterInBoundingBox(a: Point2, b: Point2, c: Point2, wa: real, wb: real, wc: real)
    requires 0.0 <= wa && 0.0 <= wb && 0.0 <= wc && 0.0 < wa + wb + wc
    ensures Min3(a.x, b.x, c.x) <= WeightedCenter(a, b, c, wa, wb, wc).x <= Max3(a.x, b.x, c.x)
    ensures Min3(a.y, b.y, c.y) <= WeightedCenter(a, b, c, wa, wb, wc).y <= Max3(a.y, b.y, c.y)
  {
    WeightedAverageBetween(wa, wb, wc, a.x, b.x, c.x, WeightedCenter(a, b, c, wa, wb, wc).x);
    WeightedAverageBetween(wa, wb, wc, a.y, b.y, c.y, WeightedCenter(a, b, c, wa, wb, wc).y);
  }

  /** The incenter is a convex combination of the vertices, so it lies in their bounding box. */
  lemma IncenterInBoundingBox(a: Point2, b: Point2, c: Point2, m: MathLib)
    requires SquareIsExact(m) && SqrtIsExact(m)
    requires Perimeter(a, b, c, m) != 0.0
    ensures Min3(a.x, b.x, c.x) <= GetTriangleInnerCircle(a, b, c, m).point.x <= Max3(a.x, b.x, c.x)
    ensures Min3(a.y, b.y, c.y) <= GetTriangleInnerCircle(a, b, c, m).point.y <= Max3(a.y, b.y, c.y)
  {
    SideLengthIsExact(b, c, m);
    SideLengthIsExact(a, c, m);
    SideLengthIsExact(a, b, m);
    WeightedCenterInBoundingBox(a, b, c, SideLength(b, c, m), SideLength(a, c, m), SideLength(a, b, m));
  }

  /** Listing the weighted points in another order, each with its own weight, gives the same average. */
  lemma WeightedCenterRelabelled(a: Point2, b: Point2, c: Point2, wa: real, wb: real, wc: real)
    requires wa + wb + wc != 0.0
    ensures WeightedCenter(b, c, a, wb, wc, wa) == WeightedCenter(a, b, c, wa, wb, wc)
    ensures WeightedCenter(a, c, b, wa, wc, wb) == WeightedCenter(a, b, c, wa, wb, wc)
  {
    WeightedAverageReordered(wa, wb, wc, a.x, b.x, c.x);
    WeightedAverageReordered(wa, wb, wc, a.y, b.y, c.y);
  }

  /** The inradius formula does not depend on the order of the sides. */
  lemma InRadiusReordered(sa: real, sb: real, sc: real, m: MathLib)
    requires sa + sb + sc != 0.0
    ensures InRadius(sb, sc, sa, m) == InRadius(sa, sb, sc, m)
    ensures InRadius(sa, sc, sb, m) == InRadius(sa, sb, sc, m)
  {
    HeronProductReordered((sa + sb + sc) / 2.0, sa, sb, sc);
    assert (sb + sc + sa) / 2.0 == (sa + sb + sc) / 2.0;
    assert (sa + sc + sb) / 2.0 == (sa + sb + sc) / 2.0;
  }

  /** Naming the vertices b, c, a instead of a, b, c changes neither the incenter nor the radius. */
  lemma InnerCircleCyclic(a: Point2, b: Point2, c: Point2, m: MathLib)
    requires SquareIsExact(m)
    requires Perimeter(a, b, c, m) != 0.0
    ensures Perimeter(b, c, a, m) != 0.0
    ensures GetTriangleInnerCircle(b, c, a, m) == GetTriangleInnerCircle(a, b, c, m)
  {
    SideLengthSymmetric(a, c, m);
    SideLengthSymmetric(a, b, m);
    WeightedCenterRelabelled(a, b, c, SideLength(b, c, m), SideLength(a, c, m), SideLength(a, b, m));
    InRadiusReordered(SideLength(b, c, m), SideLength(a, c, m), SideLength(a, b, m), m);
  }

  /** Naming the vertices a, c, b instead of a, b, c changes neither the incenter nor the radius. */
  lemma InnerCircleMirrored(a: Point2, b: Point2, c: Point2, m: MathLib)
    requires SquareIsExact(m)
    requires Perimeter(a, b, c, m) != 0.0
    ensures Perimeter(a, c, b, m) != 0.0
    ensures GetTriangleInnerCircle(a, c, b, m) == GetTriangleInnerCircle(a, b, c, m)
  {
    SideLengthSymmetric(b, c, m);
    WeightedCenterRelabelled(a, b, c, SideLength(b, c, m), SideLength(a, c, m), SideLength(a, b, m));
    InRadiusReordered(SideLength(b, c, m), SideLength(a, c, m), SideLength(a, b, m), m);
  }

  // ---------------------------------------------------------------------------
  // The radius
  // ---------------------------------------------------------------------------

  /** Heron's formula over the exact side lengths gives half the absolute cross product: the triangle's area. */
  lemma HeronAreaIsHalfAbsCross(a: Point2, b: Point2, c: Point2, m: MathLib)
    requires SquareIsExact(m) && SqrtIsExact(m)
    ensures HeronArea(SideLength(b, c, m), SideLength(a, c, m), SideLength(a, b, m), m) == Abs(Cross(a, b, c)) / 2.0
  {
    SideLengthIsExact(b, c, m);
    SideLengthIsExact(a, c, m);
    SideLengthIsExact(a, b, m);
    HeronRadicandOfSides(a, b, c, SideLength(b, c, m), SideLength(a, c, m), SideLength(a, b, m));
    SqrtOfQuarterSquare(m, HeronProduct((SideLength(b, c, m) + SideLength(a, c, m) + SideLength(a, b, m)) / 2.0,
      SideLength(b, c, m), SideLength(a, c, m), SideLength(a, b, m)), Cross(a, b, c));
  }

  /** A quotient of a non-negative number by a positive one is non-negative, and zero only for a zero numerator. */
  lemma NonNegativeQuotient(n: real, d: real, r: real)
    requires 0.0 <= n && 0.0 < d && r == n / d
    ensures 0.0 <= r
    ensures r == 0.0 <==> n == 0.0
  {
    assert r * d == n;
  }

  /**
   * The radius is the absolute cross product over the perimeter. So it is never
   * negative, and it is zero exactly when the three vertices lie on one line.
   */
  lemma InRadiusOfCross(a: Point2, b: Point2, c: Point2, m: MathLib)
    requires SquareIsExact(m) && SqrtIsExact(m)
    requires Perimeter(a, b, c, m) != 0.0
    ensures GetTriangleInnerCircle(a, b, c, m).radius == Abs(Cross(a, b, c)) / Perimeter(a, b, c, m)
    ensures 0.0 <= GetTriangleInnerCircle(a, b, c, m).radius
    ensures GetTriangleInnerCircle(a, b, c, m).radius == 0.0 <==> Cross(a, b, c) == 0.0
  {
    HeronAreaIsHalfAbsCross(a, b, c, m);
    TwiceOverDivisor(Abs(Cross(a, b, c)), Perimeter(a, b, c, m));
    CoincidentVerticesHaveZeroPerimeter(a, b, c, m);
    NonNegativeQuotient(Abs(Cross(a, b, c)), Perimeter(a, b, c, m), GetTriangleInnerCircle(a, b, c, m).radius);
  }

  /**
   * What the returned record holds, without the divisions: times the perimeter,
   * the point is the vertices weighted by the opposite side lengths, and the
   * radius is twice Heron's area.
   */
  lemma InnerCircleEquations(a: Point2, b: Point2, c: Point2, m: MathLib)
    requires Perimeter(a, b, c, m) != 0.0
    ensures GetTriangleInnerCircle(a, b, c, m).point.x * Perimeter(a, b, c, m)
         == SideLength(b, c, m) * a.x + SideLength(a, c, m) * b.x + SideLength(a, b, m) * c.x
    ensures GetTriangleInnerCircle(a, b, c, m).point.y * Perimeter(a, b, c, m)
         == SideLength(b, c, m) * a.y + SideLength(a, c, m) * b.y + SideLength(a, b, m) * c.y
    ensures GetTriangleInnerCircle(a, b, c, m).radius * Perimeter(a, b, c, m)
         == 2.0 * HeronArea(SideLength(b, c, m), SideLength(a, c, m), SideLength(a, b, m), m)
  {
    assert Perimeter(a, b, c, m) == SideLength(b, c, m) + SideLength(a, c, m) + SideLength(a, b, m);
    assert GetTriangleInnerCircle(a, b, c, m).point
        == WeightedCenter(a, b, c, SideLength(b, c, m), SideLength(a, c, m), SideLength(a, b, m));
    assert GetTriangleInnerCircle(a, b, c, m).radius
        == InRadius(SideLength(b, c, m), SideLength(a, c, m), SideLength(a, b, m), m);
  }

  /** The incenter's cross product with side ab, as the weighted average gives it. */
  lemma IncenterCrossAB(a: Point2, b: Point2, c: Point2, m: MathLib)
    requires Perimeter(a, b, c, m) != 0.0
    ensures Cross(a, b, GetTriangleInnerCircle(a, b, c, m).point)
         == (SideLength(a, b, m) * Cross(a, b, c)) / Perimeter(a, b, c, m)
  {
    WeightedCenterCrossAB(a, b, c, SideLength(b, c, m), SideLength(a, c, m), SideLength(a, b, m));
  }

  /**
   * A circle touches the line through p and q, at distance |cross| / length from
   * its center, when len is the length of pq.
   */
  predicate TouchesLine(p: Point2, q: Point2, len: real, r: InnerCircle)
  {
    Abs(Cross(p, q, r.point)) == r.radius * len
  }

  /** A circle of radius |k| / w touches the line pq when its center's cross product with pq is len * k / w. */
  lemma TouchesByCross(p: Point2, q: Point2, len: real, r: InnerCircle, k: real, w: real)
    requires 0.0 <= len && 0.0 < w
    requires Cross(p, q, r.point) == (len * k) / w
    requires r.radius == Abs(k) / w
    ensures TouchesLine(p, q, len, r)
  {
    DistanceToSideLine(Cross(p, q, r.point), len, k, w, r.radius);
  }

  /** The incircle touches the line through a and b. */
  lemma IncircleTouchesSideAB(a: Point2, b: Point2, c: Point2, m: MathLib)
    requires SquareIsExact(m) && SqrtIsExact(m)
    requires Perimeter(a, b, c, m) != 0.0
    ensures TouchesLine(a, b, SideLength(a, b, m), GetTriangleInnerCircle(a, b, c, m))
  {
    InRadiusOfCross(a, b, c, m);
    CoincidentVerticesHaveZeroPerimeter(a, b, c, m);
    SideLengthIsExact(a, b, m);
    IncenterCrossAB(a, b, c, m);
    TouchesByCross(a, b, SideLength(a, b, m), GetTriangleInnerCircle(a, b, c, m), Cross(a, b, c), Perimeter(a, b, c, m));
  }

  /** The incircle touches all three side lines, by relabelling the vertices. */
  lemma IncircleTouchesEverySide(a: Point2, b: Point2, c: Point2, m: MathLib)
    requires SquareIsExact(m) && SqrtIsExact(m)
    requires Perimeter(a, b, c, m) != 0.0
    ensures TouchesLine(a, b, SideLength(a, b, m), GetTriangleInnerCircle(a, b, c, m))
    ensures TouchesLine(b, c, SideLength(b, c, m), GetTriangleInnerCircle(a, b, c, m))
    ensures TouchesLine(a, c, SideLength(a, c, m), GetTriangleInnerCircle(a, b, c, m))
  {
    IncircleTouchesSideAB(a, b, c, m);
    InnerCircleCyclic(a, b, c, m);
    IncircleTouchesSideAB(b, c, a, m);
    InnerCircleMirrored(a, b, c, m);
    IncircleTouchesSideAB(a, c, b, m);
  }

  /** A quotient s * k / w with s non-negative and w positive has the sign of k. */
  lemma SignOfScaledQuotient(s: real, k: real, w: real, r: real)
    requires 0.0 <= s && 0.0 < w && r == (s * k) / w
    ensures 0.0 <= k ==> 0.0 <= r
    ensures k <= 0.0 ==> r <= 0.0
  {
    assert r * w == s * k;
    if 0.0 <= k {
      MulNonNegative(s, k);
      NonNegativeFactor(r, w);
    } else {
      MulNonNegative(s, -k);
      NonNegativeFactor(-r, w);
    }
  }

  /** The point o lies on the same side of the line through p and q as the vertex v, or on the line. */
  predicate OnSideOf(p: Point2, q: Point2, v: Point2, o: Point2)
  {
    (0.0 <= Cross(p, q, v) ==> 0.0 <= Cross(p, q, o)) && (Cross(p, q, v) <= 0.0 ==> Cross(p, q, o) <= 0.0)
  }

  /** The incenter lies on the side of line ab where c lies. */
  lemma IncenterOnInnerSideAB(a: Point2, b: Point2, c: Point2, m: MathLib)
    requires SquareIsExact(m) && SqrtIsExact(m)
    requires Perimeter(a, b, c, m) != 0.0
    ensures OnSideOf(a, b, c, GetTriangleInnerCircle(a, b, c, m).point)
  {
    CoincidentVerticesHaveZeroPerimeter(a, b, c, m);
    SideLengthIsExact(a, b, m);
    IncenterCrossAB(a, b, c, m);
    assert 0.0 < Perimeter(a, b, c, m);
    assert 0.0 <= SideLength(a, b, m);
    assert Cross(a, b, GetTriangleInnerCircle(a, b, c, m).point)
        == (SideLength(a, b, m) * Cross(a, b, c)) / Perimeter(a, b, c, m);
    SignOfScaledQuotient(SideLength(a, b, m), Cross(a, b, c), Perimeter(a, b, c, m),
      Cross(a, b, GetTriangleInnerCircle(a, b, c, m).point));
  }

  /** The incenter lies in the closed triangle: on the inner side of each of the three side lines. */
  lemma IncenterInsideTriangle(a: Point2, b: Point2, c: Point2, m: MathLib)
    requires SquareIsExact(m) && SqrtIsExact(m)
    requires Perimeter(a, b, c, m) != 0.0
    ensures OnSideOf(a, b, c, GetTriangleInnerCircle(a, b, c, m).point)
    ensures OnSideOf(b, c, a, GetTriangleInnerCircle(a, b, c, m).point)
    ensures OnSideOf(a, c, b, GetTriangleInnerCircle(a, b, c, m).point)
  {
    IncenterOnInnerSideAB(a, b, c, m);
    InnerCircleCyclic(a, b, c, m);
    IncenterOnInnerSideAB(b, c, a, m);
    InnerCircleMirrored(a, b, c, m);
    IncenterOnInnerSideAB(a, c, b, m);
  }

  // ---------------------------------------------------------------------------
  // A worked example
  // ---------------------------------------------------------------------------

  /** The right triangle with legs 4 and 3 has its incircle of radius 1 centered at (1, 1). */
  lemma RightTriangleInnerCircle(m: MathLib)
    requires SquareIsExact(m) && SqrtIsExact(m)
    ensures Perimeter(Point2(0.0, 0.0), Point2(4.0, 0.0), Point2(0.0, 3.0), m) == 12.0
    ensures GetTriangleInnerCircle(Point2(0.0, 0.0), Point2(4.0, 0.0), Point2(0.0, 3.0), m)
         == InnerCircle(Point2(1.0, 1.0), 1.0)
  {
    var a, b, c := Point2(0.0, 0.0), Point2(4.0, 0.0), Point2(0.0, 3.0);
    SquaredDistanceIsExact(b, c, m);
    SquaredDistanceIsExact(a, c, m);
    SquaredDistanceIsExact(a, b, m);
    SqrtOfSquare(m, 5.0, 25.0);
    SqrtOfSquare(m, 3.0, 9.0);
    SqrtOfSquare(m, 4.0, 16.0);
    assert HeronProduct(6.0, 5.0, 3.0, 4.0) == 36.0;
    SqrtOfSquare(m, 6.0, 36.0);
  }
}
