# Geometry utilities of the 3D visualisation demos

This project models the small, stateless geometry core behind the demos' geospatial overlays, and proves properties of that model:

- `src/utils/coordinate.ts`:
  - `lngLatToXYZ` maps longitude/latitude in degrees to a point on a sphere. The renderer's z axis points to longitude -90 degrees.
  - The constants `earthRadius` and `halfPerimeter`.
  - `lngLatToMercator` maps longitude/latitude to Web-Mercator metres.
  - `pointInPolygon` is the even-odd ray-casting containment test over an implicitly closed ring.
- `src/utils/math.ts`:
  - `getTriangleInnerCircle` returns the incentre and in-radius of a triangle, as an `innerCircle` record.
  - The incentre is the average of the vertices, each weighted by the length of the opposite side.
  - The radius is twice Heron's area divided by the perimeter.

Modules:

- `JsMath` (`jsmath.dfy`): `Math.PI` as the exact double value, and the `Math` functions used (`sin`, `cos`, `tan`, `log`, `sqrt`, `pow`) as fields of a `MathLib` value. Every operation that calls a `Math` function takes a `MathLib` as a parameter. The identities a proof needs are stated as predicates on that value:
  - `PythagoreanIdentity`: sin² + cos² = 1;
  - `Parity`: sine is odd and cosine is even;
  - `SqrtIsExact`: `sqrt` returns the non-negative square root;
  - `SquareIsExact`: `pow(v, 2) == v * v`.
  Lemmas name the identities they need in their `requires`. Two lemmas also assume the values of the functions at particular angles (see "## Left out"):
  - `RightAngleValues`, required by `XYZAxisConvention`: sin 0 = 0, cos 0 = 1, sin(π/2) = 1 and cos(π/2) = 0;
  - `MercatorOrigin` requires tan(π/4) = 1 and log 1 = 0.
- `Plane` (`plane.dfy`): the 2D point record.
- `Reals` (`reals.dfy`): three facts about signs of products and quotients.
- `Coordinate` (`coordinate.dfy`): `coordinate.ts`. `pointInPolygon` updates a flag in a loop, so it is a method. Its loop is proved against `InsideByParity`, a function counting the edges that cross the ray.
- `TriangleMath` (`triangle_math.dfy`): `math.ts`. `getTriangleInnerCircle` is a pure computation, so it is a function.

Each computation of `getTriangleInnerCircle` has its own function:

- `SideLength` is one `Math.sqrt(Math.pow(..) + Math.pow(..))`.
- `WeightedCenter` is the incentre quotient.
- `HeronArea` computes the semi-perimeter and Heron's area, and `InRadius` computes the radius from them.

The main results about the triangle:

- Heron's area is half the absolute cross product of two sides.
- The circle's centre lies at distance `radius` from each of the three side lines.
- The centre lies on the inner side of each side line.
- The result does not depend on how the vertices are labelled.

## Model

| member | source | states |
|---|---|---|
| Coordinate.LngLatToXYZ | src/utils/coordinate.ts:8-38 | a zero radius, or a coordinate array that does not hold exactly two numbers, yields the origin sentinel |
| Coordinate.XYZSentinelIffInvalid | src/utils/coordinate.ts:16-32 | the result is the origin exactly when the radius is zero or the array length is not 2; a valid input never lands on the origin |
| Coordinate.XYZOnSphere | src/utils/coordinate.ts:24-32 | for a two-element input, x² + y² + z² equals radius² |
| Coordinate.XYZIsStandardWithZFlipped | src/utils/coordinate.ts:16-32 | for every two-element input and every radius (zero included), the result is the textbook spherical-to-Cartesian point (r·cos lat·cos lng, r·sin lat, −r·cos lat·sin lng): the negated longitude flips only the z coordinate |
| Coordinate.XYZAxisConvention | src/utils/coordinate.ts:16-32 | for every radius (zero included), (0°,0°) maps to +x, longitude −90° on the equator maps to +z, and the north pole maps to +y |
| Coordinate.LngLatToMercator | src/utils/coordinate.ts:52-67 | x is the earth radius times the longitude in radians; y is the earth radius times log(tan(π/4 + lat/2)) |
| Coordinate.MercatorLongitudeRoundTrip | src/utils/coordinate.ts:58-60 | the longitude is recovered from x by inverting the scale halfPerimeter/180 |
| Coordinate.MercatorXAtKeyLongitudes | src/utils/coordinate.ts:52-60 | longitude 0 maps to x = 0 and ±180° to ±halfPerimeter, for any latitude |
| Coordinate.MercatorXStrictlyIncreasing | src/utils/coordinate.ts:60 | a larger longitude gives a strictly larger x |
| Coordinate.MercatorOrigin | src/utils/coordinate.ts:58-62 | (0,0) maps to (0,0) when tan(π/4) = 1 and log 1 = 0 |
| Coordinate.PointInPolygon | src/utils/coordinate.ts:75-89 | the returned flag is true exactly when an odd number of ring edges (vertex i paired with vertex i−1, wrapping to the last) cross the rightward ray from the point; a ring of fewer than three vertices gives false |
| Coordinate.Crosses | src/utils/coordinate.ts:84-85 | the `intersect` test of one edge: its ends lie on different sides of the point's height, and its line meets that height strictly right of the point (a predicate; `CrossingEdgeIsNotHorizontal` and `CrossingHasVertexToTheRight` state its properties) |
| Coordinate.EdgeXAtHeight | src/utils/coordinate.ts:85 | the x at which the edge's line reaches the point's height; it has no contract of its own, and `EdgeXOnEdgeLine` states what it means |
| Coordinate.EdgeXOnEdgeLine | src/utils/coordinate.ts:85 | the point at that x and the given height lies on the line through the edge's two vertices |
| Coordinate.CrossingEdgeIsNotHorizontal | src/utils/coordinate.ts:84-85 | an edge that passes the height test is never horizontal, so the quotient never divides by zero |
| Coordinate.CrossingHasVertexToTheRight | src/utils/coordinate.ts:84-85 | a crossing edge has an endpoint strictly to the right of the point |
| Coordinate.NoCrossingEdgesCountZero | src/utils/coordinate.ts:79-87 | if no edge in a prefix crosses, that prefix toggles the flag zero times |
| Coordinate.ReversedEdgeMeetsAtSameX | src/utils/coordinate.ts:85 | the edge from a to b and the edge from b to a meet every horizontal line at the same x |
| Coordinate.FewerThanThreeVerticesOutside | src/utils/coordinate.ts:75-89 | a ring of zero, one or two vertices is never inside: one vertex gives no crossing, two vertices give the same edge twice |
| Coordinate.OutsideBeyondAllVertices | src/utils/coordinate.ts:75-89 | a point at or right of every vertex, at or above every vertex, or strictly below every vertex is outside |
| Coordinate.RotationPreservesInside | src/utils/coordinate.ts:79-87 | starting the ring at its second vertex (the first moved to the end) changes neither the crossing count nor the answer |
| Coordinate.AnyRotationPreservesInside | src/utils/coordinate.ts:79-87 | starting the ring at any vertex k changes neither the crossing count nor the answer |
| Coordinate.RectangleContainsInterior | src/utils/coordinate.ts:75-89 | a point strictly inside an axis-aligned rectangle is crossed by exactly one edge and is inside |
| Coordinate.RectangleExcludesPointBeyondCorner | src/utils/coordinate.ts:75-89 | a point at or right of the rectangle's right side is outside |
| TriangleMath.GetTriangleInnerCircle | src/utils/math.ts:8-36 | the incircle record: the side-weighted average of the vertices and twice Heron's area over the perimeter. It requires a non-zero perimeter and has no ensures of its own; its promises are `InnerCircleEquations`, `InRadiusOfCross`, `IncircleTouchesEverySide`, `IncenterInsideTriangle`, `IncenterInBoundingBox`, `InnerCircleCyclic` and `InnerCircleMirrored` |
| TriangleMath.InnerCircleEquations | src/utils/math.ts:22-31 | times the perimeter, the returned point equals the vertices weighted by the opposite side lengths, and the returned radius equals twice Heron's area |
| TriangleMath.SideLength | src/utils/math.ts:13-21 | one side length, `Math.sqrt` of the two `Math.pow` terms; no contract of its own; `SideLengthIsExact`, `SideLengthSymmetric` and `SideLengthOfSamePoint` state its properties |
| TriangleMath.WeightedCenter | src/utils/math.ts:22-28 | the weighted average of the three vertices; its ensures only clears the division, and its meaning is stated by `WeightedCenterInBoundingBox` (non-negative weights keep it in the bounding box) and `WeightedCenterRelabelled` (it does not depend on the order of the vertices) |
| TriangleMath.HeronArea | src/utils/math.ts:29-30 | Heron's area from the semi-perimeter; no contract of its own, `HeronAreaIsHalfAbsCross` states what it equals |
| TriangleMath.InRadius | src/utils/math.ts:31 | twice Heron's area over the perimeter; its ensures only clears the division, and its meaning is stated by `InRadiusOfCross` (the absolute cross product over the perimeter, non-negative, zero exactly when the vertices are collinear) and `InRadiusReordered` (symmetric in the three sides) |
| TriangleMath.SquaredDistanceIsExact | src/utils/math.ts:13-21 | the sum of the two `Math.pow(.., 2)` terms is the squared Euclidean distance |
| TriangleMath.SideLengthIsExact | src/utils/math.ts:13-21 | a side length is non-negative and its square is the squared distance |
| TriangleMath.SideLengthSymmetric | src/utils/math.ts:13-21 | the side length does not depend on the order of its endpoints |
| TriangleMath.SideLengthOfSamePoint | src/utils/math.ts:13-21 | the side length from a point to itself is zero |
| TriangleMath.Dist2Zero | src/utils/math.ts:13-21 | two points at squared distance zero are the same point |
| TriangleMath.CoincidentVerticesHaveZeroPerimeter | src/utils/math.ts:13-31 | the perimeter is non-negative, and it is zero exactly when all three vertices coincide, which is the only input whose divisions divide by zero |
| TriangleMath.WeightedCenterInBoundingBox | src/utils/math.ts:22-28 | with non-negative weights of positive sum, the weighted centre lies in the vertices' bounding box |
| TriangleMath.IncenterInBoundingBox | src/utils/math.ts:22-28 | the returned point lies in the triangle's bounding box |
| TriangleMath.WeightedCenterRelabelled | src/utils/math.ts:22-28 | permuting the vertices together with their weights leaves the weighted centre unchanged |
| TriangleMath.InRadiusReordered | src/utils/math.ts:29-31 | the radius formula is symmetric in the three side lengths |
| TriangleMath.InnerCircleCyclic | src/utils/math.ts:8-36 | rotating the vertex labels (a,b,c) to (b,c,a) returns the same circle |
| TriangleMath.InnerCircleMirrored | src/utils/math.ts:8-36 | swapping b and c returns the same circle |
| TriangleMath.HeronAreaIsHalfAbsCross | src/utils/math.ts:29-30 | Heron's area from the three side lengths equals half the absolute cross product, the shoelace area |
| TriangleMath.InRadiusOfCross | src/utils/math.ts:29-31 | the radius is the absolute cross product over the perimeter; it is non-negative and is zero exactly when the vertices are collinear |
| TriangleMath.IncenterCrossAB | src/utils/math.ts:22-28 | the incentre's cross product against side ab is that side's length times the triangle's cross product, over the perimeter |
| TriangleMath.IncircleTouchesSideAB | src/utils/math.ts:8-36 | the distance from the returned point to the line ab equals the returned radius |
| TriangleMath.IncircleTouchesEverySide | src/utils/math.ts:8-36 | the returned circle is tangent to all three side lines: its centre is at distance `radius` from each |
| TriangleMath.IncenterOnInnerSideAB | src/utils/math.ts:22-28 | the returned point is on the same side of line ab as c, or on the line |
| TriangleMath.IncenterInsideTriangle | src/utils/math.ts:22-28 | the returned point is on the inner side of all three side lines, so it lies in the closed triangle |
| TriangleMath.RightTriangleInnerCircle | src/utils/math.ts:8-36 | the right triangle (0,0), (4,0), (0,3) has perimeter 12, incentre (1,1) and in-radius 1 |

## Left out

- Floating point is not modelled. Numbers are exact reals, with no rounding, NaN or Infinity. `Math.PI` is the exact value of the double.
- `sin`, `cos`, `tan`, `log`, `sqrt` and `pow` are parameters. The four identities listed above hold of the exact functions and are assumed only by the lemmas that name them in their `requires`.
- `XYZAxisConvention` is idealised. It requires `RightAngleValues`: sin and cos take their exact values at 0 and at `Pi / 2`. `Pi` is the double nearest π, so this holds neither of the exact functions nor of IEEE-754 `Math`, where `Math.cos(Math.PI / 2)` is about 6.12e-17.
- `MercatorOrigin` is idealised. It requires tan(`Pi / 4`) = 1 and log 1 = 0, but `Math.tan(Math.PI / 4)` is 0.9999999999999999, so the source's y at latitude 0 is a tiny negative number rather than exactly 0.
- `FewerThanThreeVerticesOutside` holds of exact arithmetic. With rounding, the two quotients that `coordinate.ts:85` computes for the edges a to b and b to a can differ, so the source itself can answer `true` for a two-vertex ring.
- `console.error` is left out. The diagnostic is I/O; the returned sentinel is modelled.
- `LngLatToXYZ` treats a "falsy" radius as radius == 0. NaN and a missing radius are not reals.
- `LngLatToXYZ` does not reject a longitude or latitude of exactly 0, because `coordinate.ts` does not either. The array-length test on line 20 is the only coordinate check.
- The alternative colatitude formula that is commented out at `coordinate.ts:39-45` is not modelled.
- Coordinates and points are records (`seq<real>` for `lngLat`, `Point2` for 2D points), not JavaScript arrays. A shorter array would read `undefined` and give NaN; that path is not modelled.
- `LngLatToMercator` requires at least two elements, because it reads `lngLat[0]` and `lngLat[1]` without a check. The source's NaN result for a shorter array is not modelled.
- `LngLatToMercator` does not model the divergence at latitude ±90°, since tan and log are parameters.
- `GetTriangleInnerCircle` requires a non-zero perimeter. The source divides by the perimeter, which gives NaN when all three vertices coincide. By `CoincidentVerticesHaveZeroPerimeter` that is the only input the requires excludes.
- No circumcircle function is modelled, because `math.ts` defines only `getTriangleInnerCircle`.
- The route table (`src/router/index.ts`), the shader snippet (`src/components/17/modify_shader/city_gradient.ts`) and the GeoJSON type declarations (`src/types/geoJson.d.ts`) are UI and rendering glue. They are not part of this model.
