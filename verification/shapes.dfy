/**
 * The geometric records the octree works with (three.js `Box3`, `Triangle`, `Plane`,
 * `Sphere`, `Ray` and the addon `Capsule`), the small closed-form operations on them
 * that the collision code relies on, and the foreign three.js routines it calls,
 * gathered in `Kernel` as uninterpreted functions.
 */
module Shapes {

  import opened Wrappers
  import opened Vectors

  /**
   * The owning mesh of a triangle; the collision code reads only its uuid and name. The
   * uuid is absent for triangles built by `getMeshTriangles`, which record only the
   * mesh's name (Octree.ts:619).
   */
  datatype Mesh = Mesh(uuid: Option<string>, name: string)

  /**
   * A world-space triangle tagged with its mesh. The source deduplicates triangles by
   * object identity (`indexOf`); `id` stands for that identity, so two records are the
   * same triangle exactly when they are equal.
   */
  datatype Triangle = Triangle(id: nat, a: Vec3, b: Vec3, c: Vec3, mesh: Mesh)

  /** An axis-aligned box (`Box3`). */
  datatype Box = Box(min: Vec3, max: Vec3)

  /** A plane `dot(normal, p) + constant == 0`. */
  datatype Plane = Plane(normal: Vec3, constant: real)

  datatype Sphere = Sphere(center: Vec3, radius: real)

  /** The segment from `start` to `end` swept by a ball of `radius`. */
  datatype Capsule = Capsule(start: Vec3, end: Vec3, radius: real)

  datatype Ray = Ray(origin: Vec3, direction: Vec3)

  /**
   * The three.js routines the octree calls but does not define, and `Math.sqrt`.
   * Nothing is assumed about them except where a property says so (`IsSqrt`).
   */
  datatype Kernel = Kernel(
    sqrt: real -> real,                                    // Math.sqrt
    boxTriangle: (Box, Triangle) -> bool,                  // Box3.intersectsTriangle
    boxBox: (Box, Box) -> bool,                            // Box3.intersectsBox
    sphereBox: (Sphere, Box) -> bool,                      // Sphere.intersectsBox
    capsuleBox: (Capsule, Box) -> bool,                    // Capsule.intersectsBox
    rayBox: (Ray, Box) -> bool,                            // Ray.intersectsBox
    rayTriangle: (Ray, Triangle) -> Option<Vec3>,          // Ray.intersectTriangle(a, b, c, true)
    closestOnSegment: (Vec3, Vec3, Vec3) -> Vec3,          // Line3(s, e).closestPointToPoint(p, true)
    segmentPair: (Vec3, Vec3, Vec3, Vec3) -> (Vec3, Vec3)) // Capsule.lineLineMinimumPoints

  /** `p` lies in the closed box. */
  predicate InBox(p: Vec3, box: Box)
  {
    && box.min.x <= p.x <= box.max.x
    && box.min.y <= p.y <= box.max.y
    && box.min.z <= p.z <= box.max.z
  }

  /** The closed box `inner` lies inside `outer`. */
  predicate BoxWithin(inner: Box, outer: Box)
  {
    && outer.min.x <= inner.min.x && inner.max.x <= outer.max.x
    && outer.min.y <= inner.min.y && inner.max.y <= outer.max.y
    && outer.min.z <= inner.min.z && inner.max.z <= outer.max.z
  }

  /** All three vertices of `t` lie in `box`. */
  predicate Encloses(box: Box, t: Triangle)
  {
    InBox(t.a, box) && InBox(t.b, box) && InBox(t.c, box)
  }

  /** The un-normalised face normal `(c - b) × (a - b)` used by three.js for planes and normals. */
  function FaceCross(a: Vec3, b: Vec3, c: Vec3): Vec3
  {
    Cross(Sub(c, b), Sub(a, b))
  }

  /** Signed distance from `p` to the plane (`Plane.distanceToPoint`). */
  function DistanceToPoint(plane: Plane, p: Vec3): real
  {
    Dot(plane.normal, p) + plane.constant
  }

  /**
   * The plane through three points (`setFromCoplanarPoints`, Octree.ts): the normalised
   * face normal, and the constant that puts `a` on the plane. All three points lie on
   * it, and its normal has unit length unless the points are collinear. The normal
   * points along `(c - b) × (a - b)`, never against it, so "in front of" the plane is
   * the side that cross product points to.
   */
  function FromCoplanarPoints(sqrt: real -> real, a: Vec3, b: Vec3, c: Vec3): (r: Plane)
    ensures DistanceToPoint(r, a) == 0.0
    ensures DistanceToPoint(r, b) == 0.0
    ensures DistanceToPoint(r, c) == 0.0
    ensures IsSqrt(sqrt) && Length(sqrt, FaceCross(a, b, c)) != 0.0 ==> LengthSq(r.normal) == 1.0
    ensures IsSqrt(sqrt) ==> exists s :: s > 0.0 && r.normal == Scale(FaceCross(a, b, c), s)
    ensures IsSqrt(sqrt) && LengthSq(FaceCross(a, b, c)) != 0.0 ==> Dot(r.normal, FaceCross(a, b, c)) > 0.0
  {
    var normal := Normalize(sqrt, FaceCross(a, b, c));
    var r := Plane(normal, -Dot(a, normal));
    PlaneThroughVertices(sqrt, a, b, c, r);
    NormalizeSameDirection(sqrt, FaceCross(a, b, c));
    r
  }

  lemma PlaneThroughVertices(sqrt: real -> real, a: Vec3, b: Vec3, c: Vec3, r: Plane)
    requires r == Plane(Normalize(sqrt, FaceCross(a, b, c)), -Dot(a, Normalize(sqrt, FaceCross(a, b, c))))
    ensures DistanceToPoint(r, a) == 0.0
    ensures DistanceToPoint(r, b) == 0.0
    ensures DistanceToPoint(r, c) == 0.0
  {
    var n := FaceCross(a, b, c);
    var s := NormalizeIsMultiple(sqrt, n);
    CrossOrthogonal(Sub(c, b), Sub(a, b));
    ScaledOrthogonal(n, s, Sub(a, b));
    ScaledOrthogonal(n, s, Sub(c, b));
    PlaneHoldsBase(r.normal, a);
    PlaneHoldsSide(r.normal, a, b);
    PlaneHoldsFar(r.normal, a, b, c);
  }

  /** The plane through `a` with normal `n` contains `a`. */
  lemma PlaneHoldsBase(n: Vec3, a: Vec3)
    ensures DistanceToPoint(Plane(n, -Dot(a, n)), a) == 0.0
  {
  }

  /** The plane through `a` with normal `n` contains every `b` with `a - b` orthogonal to `n`. */
  lemma PlaneHoldsSide(n: Vec3, a: Vec3, b: Vec3)
    requires Dot(n, Sub(a, b)) == 0.0
    ensures DistanceToPoint(Plane(n, -Dot(a, n)), b) == 0.0
  {
    DotDifference(n, a, b);
  }

  /** It also contains every `c` with `c - b` orthogonal to `n`, for such a `b`. */
  lemma PlaneHoldsFar(n: Vec3, a: Vec3, b: Vec3, c: Vec3)
    requires Dot(n, Sub(a, b)) == 0.0 && Dot(n, Sub(c, b)) == 0.0
    ensures DistanceToPoint(Plane(n, -Dot(a, n)), c) == 0.0
  {
    DotDifference(n, a, b);
    DotDifference(n, c, b);
  }

  lemma ScaledOrthogonal(n: Vec3, s: real, w: Vec3)
    requires Dot(n, w) == 0.0
    ensures Dot(Scale(n, s), w) == 0.0
  {
    assert Dot(Scale(n, s), w) == s * Dot(n, w);
  }

  lemma DotDifference(n: Vec3, p: Vec3, q: Vec3)
    ensures Dot(n, p) - Dot(n, q) == Dot(n, Sub(p, q))
  {
  }

  /**
   * `Plane.projectPoint`: moves `p` along the normal by minus its signed distance. For a
   * unit normal the result lies on the plane, as far from `p` as `p` is from the plane.
   */
  function ProjectPoint(plane: Plane, p: Vec3): (r: Vec3)
    ensures exists s :: r == Add(p, Scale(plane.normal, s))
    ensures LengthSq(plane.normal) == 1.0 ==> DistanceToPoint(plane, r) == 0.0
    ensures LengthSq(plane.normal) == 1.0 ==> DistSq(r, p) == DistanceToPoint(plane, p) * DistanceToPoint(plane, p)
  {
    var d := DistanceToPoint(plane, p);
    var r := Add(p, Scale(plane.normal, -d));
    ProjectionOnPlane(plane.normal, p, plane.constant, d, LengthSq(plane.normal));
    assert Sub(r, p) == Scale(plane.normal, -d);
    ScaleLengthSq(plane.normal, -d);
    r
  }

  lemma ProjectionOnPlane(n: Vec3, p: Vec3, k: real, d: real, nn: real)
    requires d == Dot(n, p) + k && nn == LengthSq(n)
    ensures Dot(n, Add(p, Scale(n, -d))) + k == d * (1.0 - nn)
    ensures nn == 1.0 ==> Dot(n, Add(p, Scale(n, -d))) + k == 0.0
  {
  }

  /**
   * `Triangle.getNormal`: the normalised face normal, perpendicular to every edge and
   * pointing along `(c - b) × (a - b)`.
   */
  function TriangleNormal(sqrt: real -> real, t: Triangle): (r: Vec3)
    ensures Dot(r, Sub(t.b, t.a)) == 0.0 && Dot(r, Sub(t.c, t.b)) == 0.0 && Dot(r, Sub(t.a, t.c)) == 0.0
    ensures IsSqrt(sqrt) && Length(sqrt, FaceCross(t.a, t.b, t.c)) != 0.0 ==> LengthSq(r) == 1.0
    ensures IsSqrt(sqrt) ==> exists s :: s > 0.0 && r == Scale(FaceCross(t.a, t.b, t.c), s)
    ensures IsSqrt(sqrt) && LengthSq(FaceCross(t.a, t.b, t.c)) != 0.0 ==> Dot(r, FaceCross(t.a, t.b, t.c)) > 0.0
  {
    var pl := FromCoplanarPoints(sqrt, t.a, t.b, t.c);
    DotDifference(pl.normal, t.b, t.a);
    DotDifference(pl.normal, t.c, t.b);
    DotDifference(pl.normal, t.a, t.c);
    pl.normal
  }

  /** `Capsule.getCenter`: the midpoint of the core segment. */
  function Center(cap: Capsule): Vec3
  {
    Scale(Add(cap.end, cap.start), 0.5)
  }

  /**
   * `Capsule.translate`: shifts both ends by `v`. The capsule moves rigidly: its centre
   * moves by exactly `v` and its axis and radius are kept.
   */
  function Translate(cap: Capsule, v: Vec3): (r: Capsule)
    ensures Center(r) == Add(Center(cap), v)
    ensures Sub(r.end, r.start) == Sub(cap.end, cap.start)
    ensures r.radius == cap.radius
  {
    Capsule(Add(cap.start, v), Add(cap.end, v), cap.radius)
  }

}
