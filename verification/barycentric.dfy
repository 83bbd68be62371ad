/**
 * The point-in-triangle test the octree copies out of three.js (`getBarycoord` and
 * `TriangleContainsPoint` in Octree.ts): barycentric coordinates by the 2×2
 * normal equations, with the sentinel (-2, -1, -1) for degenerate triangles.
 */
module Barycentric {

  import opened Vectors
  import opened Shapes

  /** The determinant of the normal equations; it vanishes exactly on degenerate triangles. */
  function Denom(a: Vec3, b: Vec3, c: Vec3): real
  {
    var v0 := Sub(c, a);
    var v1 := Sub(b, a);
    Dot(v0, v0) * Dot(v1, v1) - Dot(v0, v1) * Dot(v0, v1)
  }

  /** What `getBarycoord` returns for a collinear or singular triangle. */
  const Outside: Vec3 := Vec3(-2.0, -1.0, -1.0)

  /**
   * `getBarycoord`: the weights of `a`, `b` and `c`. For a proper triangle they sum to
   * one; for a degenerate one the result is the sentinel `Outside`, whose weights do not.
   */
  function Barycoord(p: Vec3, a: Vec3, b: Vec3, c: Vec3): (r: Vec3)
    ensures Denom(a, b, c) == 0.0 ==> r == Outside && r.x + r.y + r.z != 1.0
    ensures Denom(a, b, c) != 0.0 ==> r.x + r.y + r.z == 1.0
  {
    var v0 := Sub(c, a);
    var v1 := Sub(b, a);
    var v2 := Sub(p, a);
    var dot00 := Dot(v0, v0);
    var dot01 := Dot(v0, v1);
    var dot02 := Dot(v0, v2);
    var dot11 := Dot(v1, v1);
    var dot12 := Dot(v1, v2);
    var denom := dot00 * dot11 - dot01 * dot01;
    if denom == 0.0 then
      Outside
    else
      var invDenom := 1.0 / denom;
      var u := (dot11 * dot02 - dot01 * dot12) * invDenom;
      var v := (dot00 * dot12 - dot01 * dot02) * invDenom;
      Vec3(1.0 - u - v, v, u)
  }

  /** `TriangleContainsPoint`: the barycentric weights of `a` and `b` are non-negative and sum to at most one. */
  predicate ContainsPoint(p: Vec3, a: Vec3, b: Vec3, c: Vec3)
  {
    var bc := Barycoord(p, a, b, c);
    bc.x >= 0.0 && bc.y >= 0.0 && bc.x + bc.y <= 1.0
  }

  /** A degenerate triangle contains no point: the sentinel fails the first test. */
  lemma DegenerateContainsNothing(p: Vec3, a: Vec3, b: Vec3, c: Vec3)
    requires Denom(a, b, c) == 0.0
    ensures !ContainsPoint(p, a, b, c)
  {
  }

  /** The point `a + u (c - a) + v (b - a)`, pushed off the triangle's plane by `n`. */
  function PointAt(a: Vec3, b: Vec3, c: Vec3, u: real, v: real, n: Vec3): Vec3
  {
    Add(Add(a, Add(Scale(Sub(c, a), u), Scale(Sub(b, a), v))), n)
  }

  /**
   * The coordinates are recovered exactly: for a proper triangle, the point with
   * parameters (u, v), displaced by anything perpendicular to both edges, gets the
   * weights (1 - u - v, v, u).
   */
  lemma BarycoordOfPointAt(a: Vec3, b: Vec3, c: Vec3, u: real, v: real, n: Vec3)
    requires Denom(a, b, c) != 0.0
    requires Dot(Sub(c, a), n) == 0.0 && Dot(Sub(b, a), n) == 0.0
    ensures Barycoord(PointAt(a, b, c, u, v, n), a, b, c) == Vec3(1.0 - u - v, v, u)
  {
    var v0 := Sub(c, a);
    var v1 := Sub(b, a);
    var p := PointAt(a, b, c, u, v, n);
    var v2 := Sub(p, a);
    assert v2 == Add(Add(Scale(v0, u), Scale(v1, v)), n);
    assert Dot(v0, v2) == u * Dot(v0, v0) + v * Dot(v0, v1) by {
      SplitDot(v0, v0, v1, n, u, v);
    }
    assert Dot(v1, v2) == u * Dot(v0, v1) + v * Dot(v1, v1) by {
      SplitDot(v1, v0, v1, n, u, v);
      assert Dot(v1, v0) == Dot(v0, v1);
    }
    BarycoordFromDots(p, a, b, c, u, v);
  }

  /** When the right-hand sides of the normal equations are those of (u, v), the solution is (u, v). */
  lemma BarycoordFromDots(p: Vec3, a: Vec3, b: Vec3, c: Vec3, u: real, v: real)
    requires Denom(a, b, c) != 0.0
    requires Dot(Sub(c, a), Sub(p, a)) == u * Dot(Sub(c, a), Sub(c, a)) + v * Dot(Sub(c, a), Sub(b, a))
    requires Dot(Sub(b, a), Sub(p, a)) == u * Dot(Sub(c, a), Sub(b, a)) + v * Dot(Sub(b, a), Sub(b, a))
    ensures Barycoord(p, a, b, c) == Vec3(1.0 - u - v, v, u)
  {
    var v0 := Sub(c, a);
    var v1 := Sub(b, a);
    Solve(Dot(v0, v0), Dot(v0, v1), Dot(v1, v1), u, v);
  }

  lemma SplitDot(w: Vec3, v0: Vec3, v1: Vec3, n: Vec3, u: real, v: real)
    requires Dot(w, n) == 0.0
    ensures Dot(w, Add(Add(Scale(v0, u), Scale(v1, v)), n)) == u * Dot(w, v0) + v * Dot(w, v1)
  {
    var p := Add(Scale(v0, u), Scale(v1, v));
    DotLinear(w, v0, v1, u, v);
    DotAdd(w, p, n);
  }

  lemma DotAdd(w: Vec3, p: Vec3, q: Vec3)
    ensures Dot(w, Add(p, q)) == Dot(w, p) + Dot(w, q)
  {
  }

  /** Cramer's rule for the 2×2 normal equations with right-hand side (u d00 + v d01, u d01 + v d11). */
  lemma Solve(d00: real, d01: real, d11: real, u: real, v: real)
    requires d00 * d11 - d01 * d01 != 0.0
    ensures (d11 * (u * d00 + v * d01) - d01 * (u * d01 + v * d11)) * (1.0 / (d00 * d11 - d01 * d01)) == u
    ensures (d00 * (u * d01 + v * d11) - d01 * (u * d00 + v * d01)) * (1.0 / (d00 * d11 - d01 * d01)) == v
  {
    var den := d00 * d11 - d01 * d01;
    assert d11 * (u * d00 + v * d01) - d01 * (u * d01 + v * d11) == u * den;
    assert d00 * (u * d01 + v * d11) - d01 * (u * d00 + v * d01) == v * den;
    Cancel(u, den);
    Cancel(v, den);
  }

  lemma Cancel(x: real, den: real)
    requires den != 0.0
    ensures x * den * (1.0 / den) == x
  {
    assert den * (1.0 / den) == 1.0;
    assert x * den * (1.0 / den) == x * (den * (1.0 / den));
  }

  /**
   * The containment test is exactly the closed triangle: the point with parameters
   * (u, v) is inside iff u ≥ 0, v ≥ 0 and u + v ≤ 1.
   */
  lemma ContainsPointIff(a: Vec3, b: Vec3, c: Vec3, u: real, v: real, n: Vec3)
    requires Denom(a, b, c) != 0.0
    requires Dot(Sub(c, a), n) == 0.0 && Dot(Sub(b, a), n) == 0.0
    ensures ContainsPoint(PointAt(a, b, c, u, v, n), a, b, c) <==> 0.0 <= u && 0.0 <= v && u + v <= 1.0
  {
    BarycoordOfPointAt(a, b, c, u, v, n);
  }

  /** The vertices themselves are contained in a proper triangle. */
  lemma ContainsVertices(a: Vec3, b: Vec3, c: Vec3)
    requires Denom(a, b, c) != 0.0
    ensures ContainsPoint(a, a, b, c) && ContainsPoint(b, a, b, c) && ContainsPoint(c, a, b, c)
  {
    assert PointAt(a, b, c, 0.0, 0.0, Zero) == a;
    assert PointAt(a, b, c, 0.0, 1.0, Zero) == b;
    assert PointAt(a, b, c, 1.0, 0.0, Zero) == c;
    ContainsPointIff(a, b, c, 0.0, 0.0, Zero);
    ContainsPointIff(a, b, c, 0.0, 1.0, Zero);
    ContainsPointIff(a, b, c, 1.0, 0.0, Zero);
  }

  /**
   * Lagrange's identity: the determinant equals the squared length of the face normal
   * used for the triangle's plane, so the sentinel case is exactly the case where the
   * plane normal cannot be normalised.
   */
  lemma DenomIsFaceNormalLengthSq(a: Vec3, b: Vec3, c: Vec3)
    ensures Denom(a, b, c) == LengthSq(FaceCross(a, b, c))
  {
    DenomIsGram(a, b, c);
    GramIsCrossLengthSq(Sub(c, a), Sub(b, a));
    FaceCrossLengthSq(a, b, c);
  }

  lemma DenomIsGram(a: Vec3, b: Vec3, c: Vec3)
    ensures Denom(a, b, c) == Dot(Sub(c, a), Sub(c, a)) * Dot(Sub(b, a), Sub(b, a)) - Dot(Sub(c, a), Sub(b, a)) * Dot(Sub(c, a), Sub(b, a))
  {
  }

  lemma FaceCrossLengthSq(a: Vec3, b: Vec3, c: Vec3)
    ensures LengthSq(FaceCross(a, b, c)) == LengthSq(Cross(Sub(c, a), Sub(b, a)))
  {
    FaceCrossIsNegated(a, b, c);
    ScaleLengthSq(Cross(Sub(c, a), Sub(b, a)), -1.0);
  }

  /** The face normal `(c - b) × (a - b)` is `-((c - a) × (b - a))`. */
  lemma FaceCrossIsNegated(a: Vec3, b: Vec3, c: Vec3)
    ensures FaceCross(a, b, c) == Scale(Cross(Sub(c, a), Sub(b, a)), -1.0)
  {
  }

  /** The Gram determinant of two vectors is the squared length of their cross product. */
  lemma GramIsCrossLengthSq(v0: Vec3, v1: Vec3)
    ensures Dot(v0, v0) * Dot(v1, v1) - Dot(v0, v1) * Dot(v0, v1) == LengthSq(Cross(v0, v1))
  {
    DenomExpanded(v0, v1);
    CrossLengthExpanded(v0, v1);
    Lagrange(v0.x, v0.y, v0.z, v1.x, v1.y, v1.z);
  }

  lemma DenomExpanded(v0: Vec3, v1: Vec3)
    ensures Dot(v0, v0) * Dot(v1, v1) - Dot(v0, v1) * Dot(v0, v1)
         == (v0.x * v0.x + v0.y * v0.y + v0.z * v0.z) * (v1.x * v1.x + v1.y * v1.y + v1.z * v1.z)
          - (v0.x * v1.x + v0.y * v1.y + v0.z * v1.z) * (v0.x * v1.x + v0.y * v1.y + v0.z * v1.z)
  {
    MulCongruence(Dot(v0, v0), v0.x * v0.x + v0.y * v0.y + v0.z * v0.z, Dot(v1, v1), v1.x * v1.x + v1.y * v1.y + v1.z * v1.z);
    MulCongruence(Dot(v0, v1), v0.x * v1.x + v0.y * v1.y + v0.z * v1.z, Dot(v0, v1), v0.x * v1.x + v0.y * v1.y + v0.z * v1.z);
  }

  lemma CrossLengthExpanded(v0: Vec3, v1: Vec3)
    ensures LengthSq(Cross(v0, v1))
         == (v0.y * v1.z - v0.z * v1.y) * (v0.y * v1.z - v0.z * v1.y)
          + (v0.z * v1.x - v0.x * v1.z) * (v0.z * v1.x - v0.x * v1.z)
          + (v0.x * v1.y - v0.y * v1.x) * (v0.x * v1.y - v0.y * v1.x)
  {
    var n := Cross(v0, v1);
    MulCongruence(n.x, v0.y * v1.z - v0.z * v1.y, n.x, v0.y * v1.z - v0.z * v1.y);
    MulCongruence(n.y, v0.z * v1.x - v0.x * v1.z, n.y, v0.z * v1.x - v0.x * v1.z);
    MulCongruence(n.z, v0.x * v1.y - v0.y * v1.x, n.z, v0.x * v1.y - v0.y * v1.x);
  }

  lemma MulCongruence(x: real, x': real, y: real, y': real)
    requires x == x' && y == y'
    ensures x * y == x' * y'
  {
  }

  lemma Lagrange(p: real, q: real, r: real, s: real, t: real, w: real)
    ensures (p * p + q * q + r * r) * (s * s + t * t + w * w) - (p * s + q * t + r * w) * (p * s + q * t + r * w)
         == (q * w - r * t) * (q * w - r * t) + (r * s - p * w) * (r * s - p * w) + (p * t - q * s) * (p * t - q * s)
  {
  }

}
