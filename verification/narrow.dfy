/**
 * The narrow phase of Octree.ts: one triangle against a capsule
 * (`triangleCapsuleIntersect`), a sphere (`triangleSphereIntersect`) or a box
 * (`triangleBoxIntersect`). A contact carries the direction to push the shape out, the
 * contact point and the push distance.
 */
module Narrow {

  import opened Wrappers
  import opened Vectors
  import opened Shapes
  import opened Barycentric

  /** `{ normal, point, depth }`; the capsule test also reports the triangle's mesh, which is always `t.mesh`. */
  datatype Contact = Contact(normal: Vec3, point: Vec3, depth: real)

  /** An edge of a triangle, from `0` to `1`. */
  type Edge = (Vec3, Vec3)

  function Abs(x: real): (r: real)
    ensures 0.0 <= r && (r == x || r == -x)
  {
    if x < 0.0 then -x else x
  }

  /** The edges in the order the source tries them: ab, bc, ca. */
  function Edges(t: Triangle): seq<Edge>
  {
    [(t.a, t.b), (t.b, t.c), (t.c, t.a)]
  }

  /**
   * The edge loop: the contact of the first edge that yields one. The result is absent
   * iff no edge yields a contact, and otherwise it is the contact of the earliest edge
   * that does.
   */
  function FirstHit(probe: Edge -> Option<Contact>, edges: seq<Edge>): (r: Option<Contact>)
    ensures r.None? <==> forall j | 0 <= j < |edges| :: probe(edges[j]).None?
    ensures r.Some? ==> exists j :: 0 <= j < |edges| && probe(edges[j]) == r && forall m | 0 <= m < j :: probe(edges[m]).None?
    decreases |edges|
  {
    if edges == [] then None
    else if probe(edges[0]).Some? then probe(edges[0])
    else
      var r := FirstHit(probe, edges[1..]);
      assert forall j | 1 <= j < |edges| :: edges[j] == edges[1..][j - 1];
      r
  }

  /** The signed gaps of the capsule's two end balls to the triangle's plane: plane distance minus radius. */
  function Gaps(plane: Plane, cap: Capsule): (real, real)
  {
    (DistanceToPoint(plane, cap.start) - cap.radius, DistanceToPoint(plane, cap.end) - cap.radius)
  }

  /**
   * The early exit on the two gaps. A gap is the end's plane distance minus the radius,
   * so a gap below `-radius` means the end point itself is behind the plane
   * (`CapsuleClearMeans`).
   */
  predicate CapsuleClear(d1: real, d2: real, radius: real)
  {
    (d1 > 0.0 && d2 > 0.0) || (d1 < -radius && d2 < -radius)
  }

  /**
   * What the early exit tests, in terms of the two end points: either both end balls
   * lie wholly in front of the plane, or both end points lie behind it, however close.
   * So a capsule whose axis is just behind the face gets no contact at all.
   */
  lemma CapsuleClearMeans(plane: Plane, cap: Capsule)
    ensures var (d1, d2) := Gaps(plane, cap);
      var s, e := DistanceToPoint(plane, cap.start), DistanceToPoint(plane, cap.end);
      CapsuleClear(d1, d2, cap.radius) <==> (s > cap.radius && e > cap.radius) || (s < 0.0 && e < 0.0)
  {
  }

  /**
   * The interpolation factor `|d1 / (|d1| + |d2|)|`. When both gaps are zero the source
   * divides 0 by 0 and the resulting NaN point is never inside a triangle; the model
   * returns no factor.
   */
  function Delta(d1: real, d2: real): (r: Option<real>)
    ensures r.None? <==> d1 == 0.0 && d2 == 0.0
    ensures r.Some? ==> 0.0 <= r.value <= 1.0
  {
    if Abs(d1) + Abs(d2) == 0.0 then None
    else
      var r := Abs(d1 / (Abs(d1) + Abs(d2)));
      RatioInUnit(Abs(d1), Abs(d2));
      assert r == Abs(d1) / (Abs(d1) + Abs(d2));
      Some(r)
  }

  lemma RatioInUnit(a: real, b: real)
    requires 0.0 <= a && 0.0 <= b && a + b != 0.0
    ensures 0.0 <= a / (a + b) <= 1.0
  {
  }

  /**
   * The face half of `triangleCapsuleIntersect` once the early exit has passed: the
   * point on the core segment at factor `Delta`, if it lies in the triangle.
   */
  function CapsuleFace(plane: Plane, cap: Capsule, t: Triangle): (r: Option<Contact>)
    ensures var (d1, d2) := Gaps(plane, cap);
      && (r.Some? <==> Delta(d1, d2).Some? && ContainsPoint(Lerp(cap.start, cap.end, Delta(d1, d2).value), t.a, t.b, t.c))
      && (r.Some? ==> r.value.point == Lerp(cap.start, cap.end, Delta(d1, d2).value))
    ensures r.Some? ==>
      && r.value.normal == plane.normal
      && ContainsPoint(r.value.point, t.a, t.b, t.c)
      && exists s :: 0.0 <= s <= 1.0 && r.value.point == Lerp(cap.start, cap.end, s)
    ensures r.Some? && !CapsuleClear(Gaps(plane, cap).0, Gaps(plane, cap).1, cap.radius) ==>
      r.value.depth == cap.radius - Min(DistanceToPoint(plane, cap.start), DistanceToPoint(plane, cap.end))
  {
    var (d1, d2) := Gaps(plane, cap);
    match Delta(d1, d2)
    case None => None
    case Some(delta) =>
      var point := Lerp(cap.start, cap.end, delta);
      if ContainsPoint(point, t.a, t.b, t.c) then Some(Contact(plane.normal, point, Abs(Min(d1, d2))))
      else None
  }

  /**
   * One edge of the capsule test: the closest points of the core segment and the edge
   * (`lineLineMinimumPoints`), a contact when they are closer than the radius, pushing
   * along their difference by the radius minus their distance.
   */
  function CapsuleEdge(k: Kernel, cap: Capsule, e: Edge): (r: Option<Contact>)
    ensures var (p1, p2) := k.segmentPair(cap.start, cap.end, e.0, e.1);
      && (r.Some? <==> DistSq(p1, p2) < cap.radius * cap.radius)
      && (r.Some? ==> r.value.point == p2 && r.value.depth == cap.radius - Length(k.sqrt, Sub(p1, p2)))
  {
    var (point1, point2) := k.segmentPair(cap.start, cap.end, e.0, e.1);
    if DistSq(point1, point2) < cap.radius * cap.radius then
      Some(Contact(Normalize(k.sqrt, Sub(point1, point2)), point2, cap.radius - Length(k.sqrt, Sub(point1, point2))))
    else None
  }

  /**
   * An edge contact of the capsule pushes the core segment out of the triangle: for a
   * true square root and closest points that differ, its normal is a unit vector
   * pointing exactly from the contact point toward the segment's closest point.
   */
  lemma CapsuleEdgeNormal(k: Kernel, cap: Capsule, e: Edge)
    requires IsSqrt(k.sqrt)
    requires CapsuleEdge(k, cap, e).Some?
    requires var (p1, p2) := k.segmentPair(cap.start, cap.end, e.0, e.1); DistSq(p1, p2) != 0.0
    ensures var (p1, p2) := k.segmentPair(cap.start, cap.end, e.0, e.1);
      var c := CapsuleEdge(k, cap, e).value;
      && LengthSq(c.normal) == 1.0
      && Dot(c.normal, Sub(p1, c.point)) > 0.0
      && exists s :: s > 0.0 && c.normal == Scale(Sub(p1, c.point), s)
  {
    var (p1, p2) := k.segmentPair(cap.start, cap.end, e.0, e.1);
    NormalizeAlong(k.sqrt, Sub(p1, p2));
    NormalizeSameDirection(k.sqrt, Sub(p1, p2));
  }

  /**
   * `triangleCapsuleIntersect`: the early exit, then the face test, then the edges in
   * order. There is no contact iff the early exit is taken, or the face test and every
   * edge test fail; a face contact wins over the edges.
   */
  function TriangleCapsule(k: Kernel, cap: Capsule, t: Triangle): (r: Option<Contact>)
    ensures var plane := FromCoplanarPoints(k.sqrt, t.a, t.b, t.c);
      var (d1, d2) := Gaps(plane, cap);
      && (CapsuleClear(d1, d2, cap.radius) ==> r.None?)
      && (!CapsuleClear(d1, d2, cap.radius) && CapsuleFace(plane, cap, t).Some? ==> r == CapsuleFace(plane, cap, t))
      && (r.None? <==>
           || CapsuleClear(d1, d2, cap.radius)
           || (CapsuleFace(plane, cap, t).None? && forall j | 0 <= j < 3 :: CapsuleEdge(k, cap, Edges(t)[j]).None?))
  {
    var plane := FromCoplanarPoints(k.sqrt, t.a, t.b, t.c);
    var (d1, d2) := Gaps(plane, cap);
    if CapsuleClear(d1, d2, cap.radius) then None
    else
      var face := CapsuleFace(plane, cap, t);
      if face.Some? then face
      else FirstHit(e => CapsuleEdge(k, cap, e), Edges(t))
  }

  /**
   * The cases of a capsule contact: either the face contact, whose point is inside the
   * triangle, or the contact of the first edge that yields one while the face test
   * failed. There is none iff the early exit is taken or neither the face nor any edge
   * gives one.
   */
  lemma CapsuleContactCases(k: Kernel, cap: Capsule, t: Triangle)
    ensures var plane := FromCoplanarPoints(k.sqrt, t.a, t.b, t.c);
      var (d1, d2) := Gaps(plane, cap);
      TriangleCapsule(k, cap, t).None? <==>
        (|| CapsuleClear(d1, d2, cap.radius)
         || (CapsuleFace(plane, cap, t).None? && forall j | 0 <= j < 3 :: CapsuleEdge(k, cap, Edges(t)[j]).None?))
    ensures var plane := FromCoplanarPoints(k.sqrt, t.a, t.b, t.c);
      var r := TriangleCapsule(k, cap, t);
      r.Some? ==>
        || (r == CapsuleFace(plane, cap, t) && ContainsPoint(r.value.point, t.a, t.b, t.c))
        || (CapsuleFace(plane, cap, t).None? &&
            exists j :: 0 <= j < 3 && r == CapsuleEdge(k, cap, Edges(t)[j]) && forall m | 0 <= m < j :: CapsuleEdge(k, cap, Edges(t)[m]).None?)
  {
  }

  /** A capsule edge contact pushes out by a positive distance, given a true square root and a non-negative radius. */
  lemma CapsuleEdgeDepthPositive(k: Kernel, cap: Capsule, e: Edge)
    requires IsSqrt(k.sqrt) && 0.0 <= cap.radius
    requires CapsuleEdge(k, cap, e).Some?
    ensures CapsuleEdge(k, cap, e).value.depth > 0.0
  {
    var (point1, point2) := k.segmentPair(cap.start, cap.end, e.0, e.1);
    SqrtBelow(k.sqrt, DistSq(point1, point2), cap.radius);
  }

  /** `Sphere.intersectsPlane`: the centre is within a radius of the plane. */
  predicate SphereMeetsPlane(sphere: Sphere, plane: Plane)
  {
    Abs(DistanceToPoint(plane, sphere.center)) <= sphere.radius
  }

  /** `Plane.distanceToSphere`: the centre's signed distance minus the radius. */
  function DistanceToSphere(plane: Plane, sphere: Sphere): real
  {
    DistanceToPoint(plane, sphere.center) - sphere.radius
  }

  /**
   * One edge of the sphere test: the point of the edge closest to the centre's
   * projection (`closestPointToPoint(…, true)`) is a contact when its squared distance
   * to the centre is below `r2`.
   */
  function SphereEdge(k: Kernel, sphere: Sphere, projected: Vec3, r2: real, e: Edge): (r: Option<Contact>)
    ensures var v2 := k.closestOnSegment(e.0, e.1, projected);
      && (r.Some? <==> DistSq(v2, sphere.center) < r2)
      && (r.Some? ==> r.value.point == v2 && r.value.depth == sphere.radius - k.sqrt(DistSq(v2, sphere.center)))
  {
    var v2 := k.closestOnSegment(e.0, e.1, projected);
    var d := DistSq(v2, sphere.center);
    if d < r2 then Some(Contact(Normalize(k.sqrt, Sub(sphere.center, v2)), v2, sphere.radius - k.sqrt(d)))
    else None
  }

  /**
   * An edge contact of the sphere pushes the centre away from the triangle: for a true
   * square root and a contact point other than the centre, its normal is a unit vector
   * pointing from the contact point toward the centre.
   */
  lemma SphereEdgeNormal(k: Kernel, sphere: Sphere, projected: Vec3, r2: real, e: Edge)
    requires IsSqrt(k.sqrt)
    requires SphereEdge(k, sphere, projected, r2, e).Some?
    requires DistSq(sphere.center, SphereEdge(k, sphere, projected, r2, e).value.point) != 0.0
    ensures var c := SphereEdge(k, sphere, projected, r2, e).value;
      && LengthSq(c.normal) == 1.0
      && Dot(c.normal, Sub(sphere.center, c.point)) > 0.0
      && exists s :: s > 0.0 && c.normal == Scale(Sub(sphere.center, c.point), s)
  {
    NormalizeAlong(k.sqrt, Sub(sphere.center, k.closestOnSegment(e.0, e.1, projected)));
    NormalizeSameDirection(k.sqrt, Sub(sphere.center, k.closestOnSegment(e.0, e.1, projected)));
  }

  /** The squared radius the edge test compares against: `radius² − depth²` with `depth = |distanceToSphere|`. */
  function EdgeBudget(sphere: Sphere, plane: Plane): real
  {
    var depth := Abs(DistanceToSphere(plane, sphere));
    sphere.radius * sphere.radius - depth * depth
  }

  /** The budget never exceeds the squared radius. */
  lemma EdgeBudgetBelow(sphere: Sphere, plane: Plane)
    ensures EdgeBudget(sphere, plane) <= sphere.radius * sphere.radius
  {
    var depth := Abs(DistanceToSphere(plane, sphere));
    BudgetBelow(sphere.radius, depth);
  }

  lemma BudgetBelow(r: real, depth: real)
    ensures r * r - depth * depth <= r * r
  {
    assert 0.0 <= depth * depth;
  }

  /**
   * The edge loop of the sphere test: no contact iff no edge yields one, otherwise the
   * contact of the earliest edge that does.
   */
  function SphereEdges(k: Kernel, sphere: Sphere, plane: Plane, t: Triangle): (r: Option<Contact>)
    ensures var projected := ProjectPoint(plane, sphere.center);
      var budget := EdgeBudget(sphere, plane);
      && (r.None? <==> forall j | 0 <= j < 3 :: SphereEdge(k, sphere, projected, budget, Edges(t)[j]).None?)
      && (r.Some? ==> exists j :: 0 <= j < 3 && r == SphereEdge(k, sphere, projected, budget, Edges(t)[j])
                        && forall m | 0 <= m < j :: SphereEdge(k, sphere, projected, budget, Edges(t)[m]).None?)
    ensures r.Some? ==> DistSq(r.value.point, sphere.center) < EdgeBudget(sphere, plane)
    ensures r.Some? ==> r.value.depth == sphere.radius - k.sqrt(DistSq(r.value.point, sphere.center))
  {
    var projected := ProjectPoint(plane, sphere.center);
    var budget := EdgeBudget(sphere, plane);
    var r := FirstHit(e => SphereEdge(k, sphere, projected, budget, e), Edges(t));
    if r.Some? then
      var j :| 0 <= j < |Edges(t)| && SphereEdge(k, sphere, projected, budget, Edges(t)[j]) == r;
      r
    else r
  }

  /**
   * `triangleSphereIntersect`: nothing unless the sphere meets the triangle's plane; a
   * face contact when the centre itself is inside the triangle; otherwise the first edge
   * whose closest point is within the `EdgeBudget`.
   */
  function TriangleSphere(k: Kernel, sphere: Sphere, t: Triangle): (r: Option<Contact>)
    ensures var plane := FromCoplanarPoints(k.sqrt, t.a, t.b, t.c);
      r.None? <==>
        || !SphereMeetsPlane(sphere, plane)
        || (!ContainsPoint(sphere.center, t.a, t.b, t.c) &&
            forall j | 0 <= j < 3 :: SphereEdge(k, sphere, ProjectPoint(plane, sphere.center), EdgeBudget(sphere, plane), Edges(t)[j]).None?)
  {
    var plane := FromCoplanarPoints(k.sqrt, t.a, t.b, t.c);
    if !SphereMeetsPlane(sphere, plane) then None
    else if ContainsPoint(sphere.center, t.a, t.b, t.c) then
      Some(Contact(plane.normal, ProjectPoint(plane, sphere.center), Abs(DistanceToSphere(plane, sphere))))
    else SphereEdges(k, sphere, plane, t)
  }

  /**
   * Which contact the sphere test reports: when the sphere meets the plane, the face
   * contact if the centre is inside the triangle, otherwise the contact of the earliest
   * edge whose closest point is within the budget, with a normal from that point toward
   * the centre.
   */
  lemma SphereContactCases(k: Kernel, sphere: Sphere, t: Triangle)
    ensures var plane := FromCoplanarPoints(k.sqrt, t.a, t.b, t.c);
      var r := TriangleSphere(k, sphere, t);
      SphereMeetsPlane(sphere, plane) && ContainsPoint(sphere.center, t.a, t.b, t.c) ==>
        r == Some(Contact(plane.normal, ProjectPoint(plane, sphere.center), Abs(DistanceToSphere(plane, sphere))))
    ensures var plane := FromCoplanarPoints(k.sqrt, t.a, t.b, t.c);
      var r := TriangleSphere(k, sphere, t);
      var projected := ProjectPoint(plane, sphere.center);
      var budget := EdgeBudget(sphere, plane);
      SphereMeetsPlane(sphere, plane) && !ContainsPoint(sphere.center, t.a, t.b, t.c) && r.Some? ==>
        exists j :: 0 <= j < 3 && r == SphereEdge(k, sphere, projected, budget, Edges(t)[j])
          && (forall m | 0 <= m < j :: SphereEdge(k, sphere, projected, budget, Edges(t)[m]).None?)
          && r.value.normal == Normalize(k.sqrt, Sub(sphere.center, r.value.point))
  {
  }

  /**
   * A sphere face contact: the centre is inside the triangle, the point is the centre's
   * projection (on the plane when its normal has unit length), and the push is the radius
   * minus the centre's signed distance, so a centre behind the plane is pushed by more
   * than the radius.
   */
  lemma SphereFaceContact(k: Kernel, sphere: Sphere, t: Triangle)
    requires ContainsPoint(sphere.center, t.a, t.b, t.c)
    requires TriangleSphere(k, sphere, t).Some?
    ensures var plane := FromCoplanarPoints(k.sqrt, t.a, t.b, t.c);
      var c := TriangleSphere(k, sphere, t).value;
      && c.normal == plane.normal
      && c.point == ProjectPoint(plane, sphere.center)
      && c.depth == sphere.radius - DistanceToPoint(plane, sphere.center)
      && (LengthSq(plane.normal) == 1.0 ==> DistanceToPoint(plane, c.point) == 0.0)
  {
  }

  /**
   * A sphere edge contact (centre outside the triangle) lies strictly within the budget
   * of the centre, hence strictly within the radius.
   */
  lemma SphereEdgeContact(k: Kernel, sphere: Sphere, t: Triangle)
    requires !ContainsPoint(sphere.center, t.a, t.b, t.c)
    requires TriangleSphere(k, sphere, t).Some?
    ensures var plane := FromCoplanarPoints(k.sqrt, t.a, t.b, t.c);
      var c := TriangleSphere(k, sphere, t).value;
      && DistSq(c.point, sphere.center) < EdgeBudget(sphere, plane)
      && DistSq(c.point, sphere.center) < sphere.radius * sphere.radius
  {
    EdgeBudgetBelow(sphere, FromCoplanarPoints(k.sqrt, t.a, t.b, t.c));
  }

  /** A sphere edge contact pushes out by a positive distance, given a true square root and a non-negative radius. */
  lemma SphereEdgeDepthPositive(k: Kernel, sphere: Sphere, t: Triangle)
    requires IsSqrt(k.sqrt) && 0.0 <= sphere.radius
    requires !ContainsPoint(sphere.center, t.a, t.b, t.c)
    requires TriangleSphere(k, sphere, t).Some?
    ensures TriangleSphere(k, sphere, t).value.depth > 0.0
  {
    var plane := FromCoplanarPoints(k.sqrt, t.a, t.b, t.c);
    assert TriangleSphere(k, sphere, t) == SphereEdges(k, sphere, plane, t);
    EdgesPushOut(k, sphere, plane, t);
  }

  lemma EdgesPushOut(k: Kernel, sphere: Sphere, plane: Plane, t: Triangle)
    requires IsSqrt(k.sqrt) && 0.0 <= sphere.radius
    requires SphereEdges(k, sphere, plane, t).Some?
    ensures SphereEdges(k, sphere, plane, t).value.depth > 0.0
  {
    var d := EdgeContactWithinRadius(k, sphere, plane, t);
    PushBelowRadius(k.sqrt, d, sphere.radius, SphereEdges(k, sphere, plane, t).value.depth);
  }

  /** An edge contact's squared distance `d` to the centre is below the squared radius, and its push is the radius minus `sqrt(d)`. */
  lemma EdgeContactWithinRadius(k: Kernel, sphere: Sphere, plane: Plane, t: Triangle) returns (d: real)
    requires SphereEdges(k, sphere, plane, t).Some?
    ensures 0.0 <= d < sphere.radius * sphere.radius
    ensures SphereEdges(k, sphere, plane, t).value.depth == sphere.radius - k.sqrt(d)
  {
    var c := SphereEdges(k, sphere, plane, t).value;
    d := DistSq(c.point, sphere.center);
    EdgeBudgetBelow(sphere, plane);
  }

  /** Radius minus the root of a squared distance below the squared radius is positive. */
  lemma PushBelowRadius(sqrt: real -> real, d: real, radius: real, depth: real)
    requires IsSqrt(sqrt) && 0.0 <= radius && 0.0 <= d && d < radius * radius
    requires depth == radius - sqrt(d)
    ensures depth > 0.0
  {
    SqrtBelow(sqrt, d, radius);
  }

  /**
   * `triangleBoxIntersect`: the triangle's normal when the triangle meets the query box
   * and the leaf box it was found in meets the query box too. The normal is the unit
   * face normal `getNormal` gives: perpendicular to the edges and pointing along
   * `(c - b) × (a - b)`.
   */
  function TriangleBox(k: Kernel, query: Box, t: Triangle, leafBox: Box): (r: Option<Vec3>)
    ensures r.Some? <==> k.boxTriangle(query, t) && k.boxBox(leafBox, query)
    ensures r.Some? ==> r.value == TriangleNormal(k.sqrt, t)
    ensures r.Some? ==> Dot(r.value, Sub(t.b, t.a)) == 0.0 && Dot(r.value, Sub(t.c, t.b)) == 0.0
    ensures r.Some? && IsSqrt(k.sqrt) && Length(k.sqrt, FaceCross(t.a, t.b, t.c)) != 0.0 ==> LengthSq(r.value) == 1.0
    ensures r.Some? && IsSqrt(k.sqrt) && LengthSq(FaceCross(t.a, t.b, t.c)) != 0.0
      ==> Dot(r.value, FaceCross(t.a, t.b, t.c)) > 0.0
  {
    if k.boxTriangle(query, t) && k.boxBox(leafBox, query) then Some(TriangleNormal(k.sqrt, t)) else None
  }

}
