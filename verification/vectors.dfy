/**
 * three.js `Vector3` arithmetic over exact reals.
 *
 * The source works on IEEE doubles; this model uses `real`, so rounding and NaN are
 * not represented. `Math.sqrt` has no definition here: every operation that needs it
 * takes the square root as a parameter, and the properties that depend on it are
 * stated under `IsSqrt`.
 */
module Vectors {

  datatype Vec3 = Vec3(x: real, y: real, z: real)

  const Zero: Vec3 := Vec3(0.0, 0.0, 0.0)

  function Add(u: Vec3, v: Vec3): Vec3
  {
    Vec3(u.x + v.x, u.y + v.y, u.z + v.z)
  }

  function Sub(u: Vec3, v: Vec3): Vec3
  {
    Vec3(u.x - v.x, u.y - v.y, u.z - v.z)
  }

  function Scale(v: Vec3, s: real): Vec3
  {
    Vec3(v.x * s, v.y * s, v.z * s)
  }

  function Min(x: real, y: real): real { if x <= y then x else y }
  function Max(x: real, y: real): real { if x <= y then y else x }

  /** Component-wise product (`Vector3.multiply`). */
  function Mul(u: Vec3, v: Vec3): Vec3
  {
    Vec3(u.x * v.x, u.y * v.y, u.z * v.z)
  }

  /** The free function `dot` of Octree.ts. */
  function Dot(u: Vec3, v: Vec3): real
  {
    u.x * v.x + u.y * v.y + u.z * v.z
  }

  /** `Vector3.crossVectors`. */
  function Cross(u: Vec3, v: Vec3): Vec3
  {
    Vec3(u.y * v.z - u.z * v.y, u.z * v.x - u.x * v.z, u.x * v.y - u.y * v.x)
  }

  /** `a.clone().lerp(b, t)`: moves from `a` toward `b` by the fraction `t`. */
  function Lerp(a: Vec3, b: Vec3, t: real): Vec3
  {
    Add(a, Scale(Sub(b, a), t))
  }

  /** The squared length, never negative. */
  function LengthSq(v: Vec3): (r: real)
    ensures 0.0 <= r
  {
    v.x * v.x + v.y * v.y + v.z * v.z
  }

  function DistSq(u: Vec3, v: Vec3): real
  {
    LengthSq(Sub(u, v))
  }

  /** `sqrt` is a square root on the non-negative reals. */
  ghost predicate IsSqrt(sqrt: real -> real)
  {
    forall x :: IsRootAt(sqrt, x)
  }

  /** `sqrt(x)` is the non-negative square root of `x`, when `x` is non-negative. */
  ghost predicate IsRootAt(sqrt: real -> real, x: real)
  {
    0.0 <= x ==> 0.0 <= sqrt(x) && sqrt(x) * sqrt(x) == x
  }

  /** `Vector3.length`: the square root of the squared length. */
  function Length(sqrt: real -> real, v: Vec3): (r: real)
    ensures IsSqrt(sqrt) ==> 0.0 <= r && r * r == LengthSq(v)
  {
    assert IsSqrt(sqrt) ==> IsRootAt(sqrt, LengthSq(v));
    sqrt(LengthSq(v))
  }

  /** Of two non-negative numbers, the one with the smaller square is the smaller. */
  lemma RootBelow(s: real, r: real)
    requires 0.0 <= s && 0.0 <= r && s * s < r * r
    ensures s < r
  {
  }

  /** A square root of a number below `r * r` is below `r`. */
  lemma SqrtBelow(sqrt: real -> real, x: real, r: real)
    requires IsSqrt(sqrt)
    requires 0.0 <= x && 0.0 <= r && x < r * r
    ensures sqrt(x) < r
  {
    var s := sqrt(x);
    assert IsRootAt(sqrt, x);
    assert 0.0 <= s && s * s == x;
    RootBelow(s, r);
  }

  /**
   * `Vector3.normalize`, which divides by `length() || 1`: a vector of length zero
   * is returned unchanged, any other becomes a unit vector.
   */
  function Normalize(sqrt: real -> real, v: Vec3): (r: Vec3)
    ensures IsSqrt(sqrt) && Length(sqrt, v) != 0.0 ==> LengthSq(r) == 1.0
  {
    var len := Length(sqrt, v);
    if len == 0.0 then v
    else
      UnitScale(v, len);
      Scale(v, 1.0 / len)
  }

  /** Dividing by a square root of the squared length gives a unit vector. */
  lemma UnitScale(v: Vec3, len: real)
    requires len != 0.0
    ensures len * len == LengthSq(v) ==> LengthSq(Scale(v, 1.0 / len)) == 1.0
  {
    var s := 1.0 / len;
    ScaleLengthSq(v, s);
    assert s * len == 1.0;
    assert s * s * (len * len) == (s * len) * (s * len);
  }

  lemma ScaleLengthSq(v: Vec3, s: real)
    ensures LengthSq(Scale(v, s)) == s * s * LengthSq(v)
  {
  }

  /**
   * A vector of non-zero squared length normalises to a unit vector pointing the same
   * way: its dot product with the original is positive.
   */
  lemma NormalizeAlong(sqrt: real -> real, v: Vec3)
    requires IsSqrt(sqrt) && LengthSq(v) != 0.0
    ensures LengthSq(Normalize(sqrt, v)) == 1.0
    ensures Dot(Normalize(sqrt, v), v) > 0.0
  {
    var len := Length(sqrt, v);
    NonZeroRoot(len, LengthSq(v));
    var s := 1.0 / len;
    assert 0.0 < s;
    assert Dot(Scale(v, s), v) == s * LengthSq(v);
    PositiveProduct(s, LengthSq(v));
  }

  lemma NonZeroRoot(r: real, x: real)
    requires r * r == x && x != 0.0
    ensures r != 0.0
  {
  }

  lemma PositiveProduct(x: real, y: real)
    requires 0.0 < x && 0.0 < y
    ensures 0.0 < x * y
  {
  }

  /** A normalised vector is a multiple of the original, a positive one for a true root. */
  lemma NormalizeIsMultiple(sqrt: real -> real, v: Vec3) returns (s: real)
    ensures Normalize(sqrt, v) == Scale(v, s)
    ensures IsSqrt(sqrt) ==> s > 0.0
  {
    var len := Length(sqrt, v);
    if len == 0.0 {
      s := 1.0;
    } else {
      s := 1.0 / len;
    }
  }

  /**
   * For a true square root, `normalize` keeps the direction: the result is a positive
   * multiple of the input, and for a non-zero input its dot product with it is positive.
   */
  lemma NormalizeSameDirection(sqrt: real -> real, v: Vec3)
    ensures IsSqrt(sqrt) ==> exists s :: s > 0.0 && Normalize(sqrt, v) == Scale(v, s)
    ensures IsSqrt(sqrt) && LengthSq(v) != 0.0 ==> Dot(Normalize(sqrt, v), v) > 0.0
  {
    var s := NormalizeIsMultiple(sqrt, v);
    if IsSqrt(sqrt) && LengthSq(v) != 0.0 {
      NormalizeAlong(sqrt, v);
    }
  }

  /** The dot product is linear in its second argument. */
  lemma DotLinear(u: Vec3, v: Vec3, w: Vec3, s: real, t: real)
    ensures Dot(u, Add(Scale(v, s), Scale(w, t))) == s * Dot(u, v) + t * Dot(u, w)
  {
  }

  /** The cross product is orthogonal to both of its factors. */
  lemma CrossOrthogonal(u: Vec3, v: Vec3)
    ensures Dot(Cross(u, v), u) == 0.0
    ensures Dot(Cross(u, v), v) == 0.0
  {
  }


  /**
   * Normalising and scaling back by the length restores a vector of non-zero length: the
   * pair (direction, length) the resolvers report loses nothing.
   */
  lemma NormalizeRoundTrip(sqrt: real -> real, v: Vec3)
    requires Length(sqrt, v) != 0.0
    ensures Scale(Normalize(sqrt, v), Length(sqrt, v)) == v
  {
    var len := Length(sqrt, v);
    CancelScale(v.x, len);
    CancelScale(v.y, len);
    CancelScale(v.z, len);
  }

  lemma CancelScale(x: real, len: real)
    requires len != 0.0
    ensures x * (1.0 / len) * len == x
  {
    assert (1.0 / len) * len == 1.0;
  }

}
