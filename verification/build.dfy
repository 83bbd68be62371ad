/**
 * Building the octree (`addTriangle`, `calcBox`, `split` and `build` of the `Octree`
 * class): bounds are grown triangle by triangle, the root box is the bounds with its
 * minimum corner pulled out by 0.01, and `split` deals the triangles into the eight
 * octants, splitting a child again while it holds more than eight and the level is
 * below sixteen.
 */
module Build {

  import opened Wrappers
  import opened Vectors
  import opened Shapes

  /** A node: a leaf keeps its triangles; a split node keeps none and has up to eight children. */
  datatype Node = Node(box: Box, tris: seq<Triangle>, kids: seq<Node>)

  /** Before `build`: the bounds grown so far (absent until the first triangle) and the triangles in order. */
  datatype Builder = Builder(bounds: Option<Box>, tris: seq<Triangle>)

  const NoTriangles: Builder := Builder(None, [])

  /** The subdivision limit: `split` recurses only while `level < MaxLevel`. */
  const MaxLevel: nat := 16

  /** A child bucket is split again only when it holds more than this many triangles. */
  const LeafCapacity: nat := 8

  /** `Math.min(a, b, c)` per axis: the corner of the smallest box around one triangle. */
  function LowCorner(t: Triangle): Vec3
  {
    Vec3(Min(t.a.x, Min(t.b.x, t.c.x)), Min(t.a.y, Min(t.b.y, t.c.y)), Min(t.a.z, Min(t.b.z, t.c.z)))
  }

  function HighCorner(t: Triangle): Vec3
  {
    Vec3(Max(t.a.x, Max(t.b.x, t.c.x)), Max(t.a.y, Max(t.b.y, t.c.y)), Max(t.a.z, Max(t.b.z, t.c.z)))
  }

  /**
   * The bounds after one `addTriangle`. A fresh `Box3` starts at (+∞, −∞), so the first
   * triangle gives its own box; afterwards each axis takes the smaller minimum and the
   * larger maximum.
   */
  function Grow(bounds: Option<Box>, t: Triangle): (r: Box)
    ensures Encloses(r, t)
    ensures bounds.Some? ==> BoxWithin(bounds.value, r)
    ensures forall box :: Encloses(box, t) && (bounds.Some? ==> BoxWithin(bounds.value, box)) ==> BoxWithin(r, box)
  {
    var lo := LowCorner(t);
    var hi := HighCorner(t);
    match bounds
    case None => Box(lo, hi)
    case Some(b) =>
      Box(Vec3(Min(b.min.x, lo.x), Min(b.min.y, lo.y), Min(b.min.z, lo.z)),
          Vec3(Max(b.max.x, hi.x), Max(b.max.y, hi.y), Max(b.max.z, hi.z)))
  }

  /** `addTriangle`: grows the bounds and appends the triangle. */
  function AddTriangle(b: Builder, t: Triangle): (r: Builder)
    ensures r.tris == b.tris + [t]
    ensures r.bounds.Some? && Encloses(r.bounds.value, t)
    ensures b.bounds.Some? ==> BoxWithin(b.bounds.value, r.bounds.value)
  {
    Builder(Some(Grow(b.bounds, t)), b.tris + [t])
  }

  /** `addTriangle` for each triangle of `ts` in order. */
  function AddAll(b: Builder, ts: seq<Triangle>): (r: Builder)
    ensures r.tris == b.tris + ts
    decreases |ts|
  {
    if ts == [] then b else AddAll(AddTriangle(b, ts[0]), ts[1..])
  }

  /** Every triangle is enclosed by `box`. */
  ghost predicate EnclosesAll(box: Box, ts: seq<Triangle>)
  {
    forall t | t in ts :: Encloses(box, t)
  }

  /**
   * After adding `ts` to an empty builder the bounds exist iff `ts` is non-empty, and
   * they are the smallest box around every vertex: they enclose every triangle and lie
   * inside every box that does.
   */
  lemma {:induction false} BoundsAreTight(ts: seq<Triangle>)
    ensures AddAll(NoTriangles, ts).bounds.Some? <==> |ts| > 0
    ensures AddAll(NoTriangles, ts).bounds.Some? ==> EnclosesAll(AddAll(NoTriangles, ts).bounds.value, ts)
    ensures forall box :: EnclosesAll(box, ts) && AddAll(NoTriangles, ts).bounds.Some? ==> BoxWithin(AddAll(NoTriangles, ts).bounds.value, box)
  {
    if ts != [] {
      GrowingTight(AddTriangle(NoTriangles, ts[0]), ts[..1], ts[1..]);
      assert ts[..1] + ts[1..] == ts;
    }
  }

  /** The invariant of the fold: the accumulated bounds are the tight box around what has been added. */
  lemma {:induction false} GrowingTight(b: Builder, done: seq<Triangle>, ts: seq<Triangle>)
    requires b.bounds.Some? && EnclosesAll(b.bounds.value, done)
    requires forall box :: EnclosesAll(box, done) ==> BoxWithin(b.bounds.value, box)
    ensures AddAll(b, ts).bounds.Some?
    ensures EnclosesAll(AddAll(b, ts).bounds.value, done + ts)
    ensures forall box :: EnclosesAll(box, done + ts) ==> BoxWithin(AddAll(b, ts).bounds.value, box)
    decreases |ts|
  {
    if ts == [] {
      assert done + ts == done;
    } else {
      var b' := AddTriangle(b, ts[0]);
      var done' := done + [ts[0]];
      forall t | t in done' ensures Encloses(b'.bounds.value, t) {
        if t in done {
          WithinKeepsInside(b.bounds.value, b'.bounds.value, t);
        }
      }
      forall box | EnclosesAll(box, done') ensures BoxWithin(b'.bounds.value, box) {
        assert EnclosesAll(box, done);
      }
      GrowingTight(b', done', ts[1..]);
      assert done' + ts[1..] == done + ts;
    }
  }

  lemma WithinKeepsInside(inner: Box, outer: Box, t: Triangle)
    requires BoxWithin(inner, outer) && Encloses(inner, t)
    ensures Encloses(outer, t)
  {
  }

  /** `calcBox`: the bounds with the minimum corner moved out by 0.01 on each axis; the maximum is kept. */
  function CalcBox(bounds: Box): (r: Box)
    ensures BoxWithin(bounds, r)
    ensures r.max == bounds.max && Add(r.min, Vec3(0.01, 0.01, 0.01)) == bounds.min
  {
    Box(Sub(bounds.min, Vec3(0.01, 0.01, 0.01)), bounds.max)
  }

  /** The box's corners are ordered on every axis. */
  predicate Proper(box: Box)
  {
    box.min.x <= box.max.x && box.min.y <= box.max.y && box.min.z <= box.max.z
  }

  /** The offset (x, y, z) ∈ {0, 1}³ of octant `i`, in the order of the source's nested loops. */
  function Corner(i: nat): Vec3
    requires i < 8
  {
    Vec3((i / 4) as real, (i / 2 % 2) as real, (i % 2) as real)
  }

  /** Octant `i` of `box`: its minimum is `min + corner * half`, its maximum `min + half` further on. */
  function Octant(box: Box, i: nat): Box
    requires i < 8
  {
    var half := Scale(Sub(box.max, box.min), 0.5);
    var lo := Add(box.min, Mul(Corner(i), half));
    Box(lo, Add(lo, half))
  }

  /** Every octant of a proper box is a proper box inside it. */
  lemma OctantWithin(box: Box, i: nat)
    requires Proper(box) && i < 8
    ensures BoxWithin(Octant(box, i), box) && Proper(Octant(box, i))
  {
    var c := Corner(i);
    assert c.x == 0.0 || c.x == 1.0;
    assert c.y == 0.0 || c.y == 1.0;
    assert c.z == 0.0 || c.z == 1.0;
  }

  /** The octants cover their box: every point of it lies in the octant this lemma names. */
  lemma OctantsCover(box: Box, p: Vec3) returns (i: nat)
    requires InBox(p, box)
    ensures i < 8 && InBox(p, Octant(box, i))
  {
    var x := HalfCover(box.min.x, box.max.x, p.x);
    var y := HalfCover(box.min.y, box.max.y, p.y);
    var z := HalfCover(box.min.z, box.max.z, p.z);
    i := 4 * x + 2 * y + z;
    CornerDigits(x, y, z);
  }

  /** Corner `4x + 2y + z` is the point `(x, y, z)`. */
  lemma CornerDigits(x: nat, y: nat, z: nat)
    requires x < 2 && y < 2 && z < 2
    ensures 4 * x + 2 * y + z < 8 && Corner(4 * x + 2 * y + z) == Vec3(x as real, y as real, z as real)
  {
    var i := 4 * x + 2 * y + z;
    assert i / 4 == x && i / 2 % 2 == y && i % 2 == z;
  }

  /** On one axis: the lower or the upper half of `[lo, hi]` holds `p`. */
  lemma HalfCover(lo: real, hi: real, p: real) returns (c: nat)
    requires lo <= p <= hi
    ensures c < 2
    ensures lo + c as real * ((hi - lo) * 0.5) <= p <= lo + c as real * ((hi - lo) * 0.5) + (hi - lo) * 0.5
  {
    if p < lo + (hi - lo) * 0.5 {
      c := 0;
    } else {
      c := 1;
    }
  }

  /** The triangles of `s` that `box.intersectsTriangle` accepts, in order. */
  function Hits(k: Kernel, box: Box, s: seq<Triangle>): seq<Triangle>
  {
    if s == [] then [] else (if k.boxTriangle(box, s[0]) then [s[0]] else []) + Hits(k, box, s[1..])
  }

  /** A triangle is kept exactly when it is in the list and the box accepts it. */
  lemma {:induction false} HitsMembers(k: Kernel, box: Box, s: seq<Triangle>, t: Triangle)
    ensures t in Hits(k, box, s) <==> t in s && k.boxTriangle(box, t)
    decreases |s|
  {
    if s != [] {
      HitsMembers(k, box, s[1..], t);
      assert t in s <==> t == s[0] || t in s[1..];
    }
  }

  function Reverse(s: seq<Triangle>): seq<Triangle>
  {
    if s == [] then [] else Reverse(s[1..]) + [s[0]]
  }

  /** Reversal keeps the members. */
  lemma {:induction false} ReverseMembers(s: seq<Triangle>, t: Triangle)
    ensures t in Reverse(s) <==> t in s
    decreases |s|
  {
    if s != [] {
      ReverseMembers(s[1..], t);
      assert t in s <==> t == s[0] || t in s[1..];
    }
  }

  lemma {:induction false} HitsAppend(k: Kernel, box: Box, s: seq<Triangle>, u: seq<Triangle>)
    ensures Hits(k, box, s + u) == Hits(k, box, s) + Hits(k, box, u)
    decreases |s|
  {
    if s != [] {
      var h0 := if k.boxTriangle(box, s[0]) then [s[0]] else [];
      assert (s + u)[0] == s[0] && (s + u)[1..] == s[1..] + u;
      HitsCons(k, box, s + u);
      HitsCons(k, box, s);
      HitsAppend(k, box, s[1..], u);
      assert h0 + (Hits(k, box, s[1..]) + Hits(k, box, u)) == (h0 + Hits(k, box, s[1..])) + Hits(k, box, u);
    } else {
      assert s + u == u;
    }
  }

  lemma HitsCons(k: Kernel, box: Box, s: seq<Triangle>)
    requires s != []
    ensures Hits(k, box, s) == (if k.boxTriangle(box, s[0]) then [s[0]] else []) + Hits(k, box, s[1..])
  {
  }

  lemma {:induction false} ReverseInit(s: seq<Triangle>)
    requires s != []
    ensures Reverse(s) == [s[|s| - 1]] + Reverse(s[..|s| - 1])
    decreases |s|
  {
    if |s| > 1 {
      ReverseInit(s[1..]);
      assert s[1..][..|s| - 2] == s[..|s| - 1][1..];
    }
  }

  function EmptyBuckets(): (r: seq<seq<Triangle>>)
    ensures |r| == 8 && forall i | 0 <= i < 8 :: r[i] == []
  {
    seq(8, _ => [])
  }

  /** One turn of the `pop` loop: the triangle goes onto the end of every bucket whose octant accepts it. */
  function Drop(k: Kernel, box: Box, buckets: seq<seq<Triangle>>, t: Triangle): (r: seq<seq<Triangle>>)
    requires |buckets| == 8
    ensures |r| == 8
  {
    seq(8, i requires 0 <= i < 8 => if k.boxTriangle(Octant(box, i), t) then buckets[i] + [t] else buckets[i])
  }

  /** The `pop` loop of `split`: triangles leave the end of the list one by one. */
  function Pop(k: Kernel, box: Box, stack: seq<Triangle>, buckets: seq<seq<Triangle>>): (r: seq<seq<Triangle>>)
    requires |buckets| == 8
    ensures |r| == 8
    decreases |stack|
  {
    if stack == [] then buckets
    else Pop(k, box, stack[..|stack| - 1], Drop(k, box, buckets, stack[|stack| - 1]))
  }

  /** The eight buckets `split` fills before recursing. */
  function Deal(k: Kernel, box: Box, tris: seq<Triangle>): (r: seq<seq<Triangle>>)
    ensures |r| == 8
  {
    Pop(k, box, tris, EmptyBuckets())
  }

  /**
   * Bucket `i` holds exactly the triangles its octant accepts, in REVERSE order of the
   * node's list, because the loop pops from the end.
   */
  lemma DealIsReversedFilter(k: Kernel, box: Box, tris: seq<Triangle>, i: nat)
    requires i < 8
    ensures Deal(k, box, tris)[i] == Hits(k, Octant(box, i), Reverse(tris))
  {
    PopAppends(k, box, tris, EmptyBuckets(), i);
  }

  lemma {:induction false} PopAppends(k: Kernel, box: Box, stack: seq<Triangle>, buckets: seq<seq<Triangle>>, i: nat)
    requires |buckets| == 8 && i < 8
    ensures Pop(k, box, stack, buckets)[i] == buckets[i] + Hits(k, Octant(box, i), Reverse(stack))
    decreases |stack|
  {
    var o := Octant(box, i);
    if stack == [] {
      assert buckets[i] + [] == buckets[i];
    } else {
      var last := stack[|stack| - 1];
      var init := stack[..|stack| - 1];
      var dropped := Drop(k, box, buckets, last);
      assert Pop(k, box, stack, buckets) == Pop(k, box, init, dropped);
      DropAt(k, box, buckets, last, i);
      PopAppends(k, box, init, dropped, i);
      ReverseInit(stack);
      HitsAppend(k, o, [last], Reverse(init));
    }
  }

  lemma DropAt(k: Kernel, box: Box, buckets: seq<seq<Triangle>>, t: Triangle, i: nat)
    requires |buckets| == 8 && i < 8
    ensures Drop(k, box, buckets, t)[i] == buckets[i] + Hits(k, Octant(box, i), [t])
  {
    assert Hits(k, Octant(box, i), [t]) == if k.boxTriangle(Octant(box, i), t) then [t] else [];
  }

  /** Every triangle of a bucket comes from the node and is accepted by the bucket's octant. */
  lemma BucketMembers(k: Kernel, box: Box, tris: seq<Triangle>, i: nat, t: Triangle)
    requires i < 8
    ensures t in Deal(k, box, tris)[i] <==> t in tris && k.boxTriangle(Octant(box, i), t)
  {
    DealIsReversedFilter(k, box, tris, i);
    HitsMembers(k, Octant(box, i), Reverse(tris), t);
    ReverseMembers(tris, t);
  }

  /** The measure that makes `split` terminate: the number of levels still allowed to split. */
  function Rank(level: nat): nat
  {
    if level < MaxLevel then MaxLevel - level else 0
  }

  /**
   * `split(level)` on a node with box `box` and triangles `tris`: the triangles are dealt
   * into the octants and the node keeps none of them.
   */
  function Split(k: Kernel, box: Box, tris: seq<Triangle>, level: nat): (r: Node)
    ensures r.box == box && r.tris == [] && |r.kids| <= 8
    decreases Rank(level), 1
  {
    Node(box, [], Kids(k, box, Deal(k, box, tris), level, 0))
  }

  /**
   * The child loop of `split` from octant `i` on: a bucket with more than eight triangles
   * below level sixteen is split again, and every non-empty bucket becomes a child.
   */
  function Kids(k: Kernel, box: Box, buckets: seq<seq<Triangle>>, level: nat, i: nat): (r: seq<Node>)
    requires |buckets| == 8 && i <= 8
    ensures |r| <= 8 - i
    decreases Rank(level), 0, 8 - i
  {
    if i == 8 then []
    else
      var bucket := buckets[i];
      (if |bucket| != 0 then [Child(k, box, bucket, level, i)] else []) + Kids(k, box, buckets, level, i + 1)
  }

  /** The child made from bucket `i`: split again when over capacity below the limit, a leaf otherwise. */
  function Child(k: Kernel, box: Box, bucket: seq<Triangle>, level: nat, i: nat): (r: Node)
    requires i < 8
    ensures r.box == Octant(box, i)
    ensures |bucket| > LeafCapacity && level < MaxLevel ==> r.tris == []
    ensures !(|bucket| > LeafCapacity && level < MaxLevel) ==> r.tris == bucket && r.kids == []
    decreases Rank(level), 0, 0
  {
    if |bucket| > LeafCapacity && level < MaxLevel then Split(k, Octant(box, i), bucket, level + 1)
    else Node(Octant(box, i), bucket, [])
  }

  lemma KidsStep(k: Kernel, box: Box, buckets: seq<seq<Triangle>>, level: nat, i: nat)
    requires |buckets| == 8 && i < 8
    ensures |buckets[i]| == 0 ==> Kids(k, box, buckets, level, i) == Kids(k, box, buckets, level, i + 1)
    ensures |buckets[i]| != 0 ==> Kids(k, box, buckets, level, i) == [Child(k, box, buckets[i], level, i)] + Kids(k, box, buckets, level, i + 1)
  {
  }

  /** The octants from `i` on whose bucket is non-empty, in increasing order. */
  function Occupied(buckets: seq<seq<Triangle>>, i: nat): (r: seq<nat>)
    requires |buckets| == 8 && i <= 8
    ensures forall m | 0 <= m < |r| :: i <= r[m] < 8
    decreases 8 - i
  {
    if i == 8 then []
    else if buckets[i] != [] then [i] + Occupied(buckets, i + 1)
    else Occupied(buckets, i + 1)
  }

  /** The children made from the buckets of the octants `occ`, in that order. */
  function Children(k: Kernel, box: Box, buckets: seq<seq<Triangle>>, level: nat, occ: seq<nat>): (r: seq<Node>)
    requires |buckets| == 8 && forall m | 0 <= m < |occ| :: occ[m] < 8
    ensures |r| == |occ|
  {
    if occ == [] then [] else [Child(k, box, buckets[occ[0]], level, occ[0])] + Children(k, box, buckets, level, occ[1..])
  }

  lemma {:induction false} ChildrenAt(k: Kernel, box: Box, buckets: seq<seq<Triangle>>, level: nat, occ: seq<nat>)
    requires |buckets| == 8 && forall m | 0 <= m < |occ| :: occ[m] < 8
    ensures forall m | 0 <= m < |occ| :: Children(k, box, buckets, level, occ)[m] == Child(k, box, buckets[occ[m]], level, occ[m])
  {
    if occ != [] {
      ChildrenAt(k, box, buckets, level, occ[1..]);
    }
  }

  /**
   * The children `split` keeps are exactly those of the non-empty buckets, in octant
   * order: an empty octant is dropped, every other one becomes a child.
   */
  lemma KidsAreOccupied(k: Kernel, box: Box, buckets: seq<seq<Triangle>>, level: nat, i: nat)
    requires |buckets| == 8 && i <= 8
    ensures var r := Kids(k, box, buckets, level, i);
      var occ := Occupied(buckets, i);
      |r| == |occ| && forall m | 0 <= m < |r| :: r[m] == Child(k, box, buckets[occ[m]], level, occ[m])
    ensures var occ := Occupied(buckets, i);
      && (forall m | 0 <= m < |occ| :: buckets[occ[m]] != [])
      && (forall m, n | 0 <= m < n < |occ| :: occ[m] < occ[n])
      && (forall j | i <= j < 8 && buckets[j] != [] :: j in occ)
  {
    KidsAreChildren(k, box, buckets, level, i);
    ChildrenAt(k, box, buckets, level, Occupied(buckets, i));
    OccupiedExactly(buckets, i);
  }

  /** `Occupied` lists each octant with a non-empty bucket, and only those, in increasing order. */
  lemma OccupiedExactly(buckets: seq<seq<Triangle>>, i: nat)
    requires |buckets| == 8 && i <= 8
    ensures var occ := Occupied(buckets, i);
      && (forall m | 0 <= m < |occ| :: buckets[occ[m]] != [])
      && (forall m, n | 0 <= m < n < |occ| :: occ[m] < occ[n])
      && (forall j | i <= j < 8 && buckets[j] != [] :: j in occ)
  {
    OccupiedNonEmpty(buckets, i);
    OccupiedIncreasing(buckets, i);
    OccupiedComplete(buckets, i);
  }

  lemma {:induction false} OccupiedNonEmpty(buckets: seq<seq<Triangle>>, i: nat)
    requires |buckets| == 8 && i <= 8
    ensures forall m | 0 <= m < |Occupied(buckets, i)| :: buckets[Occupied(buckets, i)[m]] != []
    decreases 8 - i
  {
    if i < 8 {
      OccupiedNonEmpty(buckets, i + 1);
      var rest := Occupied(buckets, i + 1);
      if buckets[i] != [] {
        assert forall m | 1 <= m < |rest| + 1 :: ([i] + rest)[m] == rest[m - 1];
      }
    }
  }

  lemma {:induction false} OccupiedIncreasing(buckets: seq<seq<Triangle>>, i: nat)
    requires |buckets| == 8 && i <= 8
    ensures forall m, n | 0 <= m < n < |Occupied(buckets, i)| :: Occupied(buckets, i)[m] < Occupied(buckets, i)[n]
    decreases 8 - i
  {
    if i < 8 {
      OccupiedIncreasing(buckets, i + 1);
      var rest := Occupied(buckets, i + 1);
      if buckets[i] != [] {
        var occ := [i] + rest;
        forall m, n | 0 <= m < n < |occ| ensures occ[m] < occ[n] {
          assert occ[n] == rest[n - 1];
          if 0 < m {
            assert occ[m] == rest[m - 1];
          }
        }
      }
    }
  }

  lemma {:induction false} OccupiedComplete(buckets: seq<seq<Triangle>>, i: nat)
    requires |buckets| == 8 && i <= 8
    ensures forall j | i <= j < 8 && buckets[j] != [] :: j in Occupied(buckets, i)
    decreases 8 - i
  {
    if i < 8 {
      OccupiedComplete(buckets, i + 1);
    }
  }

  lemma {:induction false} KidsAreChildren(k: Kernel, box: Box, buckets: seq<seq<Triangle>>, level: nat, i: nat)
    requires |buckets| == 8 && i <= 8
    ensures Kids(k, box, buckets, level, i) == Children(k, box, buckets, level, Occupied(buckets, i))
    decreases 8 - i
  {
    if i < 8 {
      KidsStep(k, box, buckets, level, i);
      KidsAreChildren(k, box, buckets, level, i + 1);
      if buckets[i] != [] {
        assert ([i] + Occupied(buckets, i + 1))[1..] == Occupied(buckets, i + 1);
      }
    }
  }

  /** `build`: `calcBox` then `split(0)`. With no triangles the bounds were never created and `calcBox` fails. */
  function BuildTree(k: Kernel, b: Builder): (r: Option<Node>)
    ensures r.Some? <==> b.bounds.Some?
    ensures r.Some? ==> r.value.box == CalcBox(b.bounds.value) && r.value.tris == []
  {
    match b.bounds
    case None => None
    case Some(bounds) => Some(Split(k, CalcBox(bounds), b.tris, 0))
  }

  /** Adding `ts` and building: the usual way a tree is made from a mesh's triangles. */
  function FromTriangles(k: Kernel, ts: seq<Triangle>): Option<Node>
  {
    BuildTree(k, AddAll(NoTriangles, ts))
  }

  /** A leaf: no children and at least one triangle. */
  predicate IsLeaf(n: Node)
  {
    n.kids == [] && n.tris != []
  }

  /**
   * What `split(level)` leaves behind: the node keeps no triangles and has at most eight
   * children, each an octant of its box that is either a leaf or split in turn.
   */
  ghost predicate Shaped(k: Kernel, n: Node, level: nat)
    decreases n, 0
  {
    && n.tris == []
    && |n.kids| <= 8
    && forall kid | kid in n.kids :: ChildShaped(k, kid, n.box, level)
  }

  /**
   * A child of a node split at `level`: an octant of the parent; a leaf holds only
   * triangles its box accepts, and more than eight only at the depth limit; any other
   * child was split at the next level.
   */
  ghost predicate ChildShaped(k: Kernel, kid: Node, parent: Box, level: nat)
    decreases kid, 1
  {
    && (exists i :: 0 <= i < 8 && kid.box == Octant(parent, i))
    && if IsLeaf(kid) then
         && (|kid.tris| <= LeafCapacity || level >= MaxLevel)
         && forall t | t in kid.tris :: k.boxTriangle(kid.box, t)
       else
         level < MaxLevel && Shaped(k, kid, level + 1)
  }

  /** `split` always leaves a shaped subtree. */
  lemma {:induction false} SplitShaped(k: Kernel, box: Box, tris: seq<Triangle>, level: nat)
    ensures Shaped(k, Split(k, box, tris, level), level)
    decreases Rank(level), 1
  {
    var buckets := Deal(k, box, tris);
    forall j, t | 0 <= j < 8 && t in buckets[j] ensures k.boxTriangle(Octant(box, j), t) {
      BucketMembers(k, box, tris, j, t);
    }
    KidsShaped(k, box, buckets, level, 0);
  }

  lemma {:induction false} KidsShaped(k: Kernel, box: Box, buckets: seq<seq<Triangle>>, level: nat, i: nat)
    requires |buckets| == 8 && i <= 8
    requires forall j, t | i <= j < 8 && t in buckets[j] :: k.boxTriangle(Octant(box, j), t)
    ensures forall kid | kid in Kids(k, box, buckets, level, i) :: ChildShaped(k, kid, box, level)
    decreases Rank(level), 0, 8 - i
  {
    if i < 8 {
      var bucket := buckets[i];
      KidsShaped(k, box, buckets, level, i + 1);
      KidsStep(k, box, buckets, level, i);
      if |bucket| != 0 {
        ChildIsShaped(k, box, bucket, level, i);
      }
    }
  }

  lemma ChildIsShaped(k: Kernel, box: Box, bucket: seq<Triangle>, level: nat, i: nat)
    requires i < 8 && |bucket| != 0
    requires forall t | t in bucket :: k.boxTriangle(Octant(box, i), t)
    ensures ChildShaped(k, Child(k, box, bucket, level, i), box, level)
    decreases Rank(level), 0, 0
  {
    if |bucket| > LeafCapacity && level < MaxLevel {
      SplitShaped(k, Octant(box, i), bucket, level + 1);
    }
  }

  /** The triangles stored anywhere in a subtree. */
  function Stored(n: Node): set<Triangle>
    decreases n, 1
  {
    (set t | t in n.tris) + StoredIn(n.kids)
  }

  function StoredIn(ns: seq<Node>): set<Triangle>
    decreases ns, 0
  {
    if ns == [] then {} else Stored(ns[0]) + StoredIn(ns[1..])
  }

  lemma StoredInCons(n: Node, ns: seq<Node>)
    ensures StoredIn([n] + ns) == Stored(n) + StoredIn(ns)
  {
    assert ([n] + ns)[1..] == ns;
  }

  /** `split` invents no triangles: everything stored below the node came from its list. */
  lemma {:induction false} SplitStoresOnly(k: Kernel, box: Box, tris: seq<Triangle>, level: nat)
    ensures Stored(Split(k, box, tris, level)) <= set t | t in tris
    decreases Rank(level), 1
  {
    var buckets := Deal(k, box, tris);
    forall j, t | 0 <= j < 8 && t in buckets[j] ensures t in tris {
      BucketMembers(k, box, tris, j, t);
    }
    KidsStoreOnly(k, box, buckets, level, 0, set t | t in tris);
  }

  lemma {:induction false} KidsStoreOnly(k: Kernel, box: Box, buckets: seq<seq<Triangle>>, level: nat, i: nat, from: set<Triangle>)
    requires |buckets| == 8 && i <= 8
    requires forall j, t | i <= j < 8 && t in buckets[j] :: t in from
    ensures StoredIn(Kids(k, box, buckets, level, i)) <= from
    decreases Rank(level), 0, 8 - i
  {
    if i < 8 {
      var bucket := buckets[i];
      KidsStoreOnly(k, box, buckets, level, i + 1, from);
      KidsStep(k, box, buckets, level, i);
      if |bucket| != 0 {
        ChildStoresOnly(k, box, bucket, level, i);
        StoredInCons(Child(k, box, bucket, level, i), Kids(k, box, buckets, level, i + 1));
      }
    }
  }

  lemma ChildStoresOnly(k: Kernel, box: Box, bucket: seq<Triangle>, level: nat, i: nat)
    requires i < 8
    ensures Stored(Child(k, box, bucket, level, i)) <= set t | t in bucket
    decreases Rank(level), 0, 0
  {
    if |bucket| > LeafCapacity && level < MaxLevel {
      SplitStoresOnly(k, Octant(box, i), bucket, level + 1);
    } else {
      assert StoredIn([]) == {};
    }
  }

  /**
   * The box test is consistent with subdivision: a triangle accepted by a box is
   * accepted by at least one of its octants.
   */
  ghost predicate OctantsRefine(k: Kernel)
  {
    forall box, t :: RefinesAt(k, box, t)
  }

  /** A triangle `box` accepts is accepted by one of its octants. */
  ghost predicate RefinesAt(k: Kernel, box: Box, t: Triangle)
  {
    k.boxTriangle(box, t) ==> exists i :: 0 <= i < 8 && k.boxTriangle(Octant(box, i), t)
  }

  /**
   * No triangle is lost: when the box test refines, every triangle of the node that its
   * box accepts is stored somewhere below it.
   */
  lemma {:induction false} SplitKeepsAccepted(k: Kernel, box: Box, tris: seq<Triangle>, level: nat, t: Triangle)
    requires OctantsRefine(k)
    requires t in tris && k.boxTriangle(box, t)
    ensures t in Stored(Split(k, box, tris, level))
    decreases Rank(level), 1
  {
    assert RefinesAt(k, box, t);
    var j :| 0 <= j < 8 && k.boxTriangle(Octant(box, j), t);
    var buckets := Deal(k, box, tris);
    BucketMembers(k, box, tris, j, t);
    KidsKeepAccepted(k, box, buckets, level, 0, j, t);
  }

  lemma {:induction false} KidsKeepAccepted(k: Kernel, box: Box, buckets: seq<seq<Triangle>>, level: nat, i: nat, j: nat, t: Triangle)
    requires OctantsRefine(k)
    requires |buckets| == 8 && i <= j < 8
    requires t in buckets[j] && k.boxTriangle(Octant(box, j), t)
    ensures t in StoredIn(Kids(k, box, buckets, level, i))
    decreases Rank(level), 0, 8 - i
  {
    var bucket := buckets[i];
    KidsStep(k, box, buckets, level, i);
    if |bucket| != 0 {
      StoredInCons(Child(k, box, bucket, level, i), Kids(k, box, buckets, level, i + 1));
    }
    if i == j {
      ChildKeepsAccepted(k, box, bucket, level, i, t);
    } else {
      KidsKeepAccepted(k, box, buckets, level, i + 1, j, t);
    }
  }

  lemma ChildKeepsAccepted(k: Kernel, box: Box, bucket: seq<Triangle>, level: nat, i: nat, t: Triangle)
    requires OctantsRefine(k)
    requires i < 8 && t in bucket && k.boxTriangle(Octant(box, i), t)
    ensures t in Stored(Child(k, box, bucket, level, i))
    decreases Rank(level), 0, 0
  {
    if |bucket| > LeafCapacity && level < MaxLevel {
      SplitKeepsAccepted(k, Octant(box, i), bucket, level + 1, t);
      ChildSplitStores(k, box, bucket, level, i, t);
    } else {
      ChildLeafStores(k, box, bucket, level, i, t);
    }
  }

  lemma ChildSplitStores(k: Kernel, box: Box, bucket: seq<Triangle>, level: nat, i: nat, t: Triangle)
    requires i < 8 && |bucket| > LeafCapacity && level < MaxLevel
    requires t in Stored(Split(k, Octant(box, i), bucket, level + 1))
    ensures t in Stored(Child(k, box, bucket, level, i))
  {
  }

  lemma ChildLeafStores(k: Kernel, box: Box, bucket: seq<Triangle>, level: nat, i: nat, t: Triangle)
    requires i < 8 && !(|bucket| > LeafCapacity && level < MaxLevel) && t in bucket
    ensures t in Stored(Child(k, box, bucket, level, i))
  {
  }

  /** The number of levels of children below a node. */
  function Height(n: Node): nat
    decreases n, 1
  {
    if n.kids == [] then 0 else 1 + MaxHeight(n.kids)
  }

  function MaxHeight(ns: seq<Node>): nat
    decreases ns, 0
  {
    if ns == [] then 0 else if Height(ns[0]) <= MaxHeight(ns[1..]) then MaxHeight(ns[1..]) else Height(ns[0])
  }

  /** The depth limit: a node split at `level` has at most `17 - level` levels below it. */
  lemma {:induction false} SplitHeight(k: Kernel, box: Box, tris: seq<Triangle>, level: nat)
    ensures Height(Split(k, box, tris, level)) <= 1 + Rank(level)
    decreases Rank(level), 1
  {
    KidsHeight(k, box, Deal(k, box, tris), level, 0);
  }

  lemma {:induction false} KidsHeight(k: Kernel, box: Box, buckets: seq<seq<Triangle>>, level: nat, i: nat)
    requires |buckets| == 8 && i <= 8
    ensures MaxHeight(Kids(k, box, buckets, level, i)) <= Rank(level)
    decreases Rank(level), 0, 8 - i
  {
    if i < 8 {
      var bucket := buckets[i];
      KidsHeight(k, box, buckets, level, i + 1);
      KidsStep(k, box, buckets, level, i);
      if |bucket| != 0 {
        ChildHeight(k, box, bucket, level, i);
        MaxHeightCons(Child(k, box, bucket, level, i), Kids(k, box, buckets, level, i + 1));
      }
    }
  }

  lemma ChildHeight(k: Kernel, box: Box, bucket: seq<Triangle>, level: nat, i: nat)
    requires i < 8
    ensures Height(Child(k, box, bucket, level, i)) <= Rank(level)
    decreases Rank(level), 0, 0
  {
    if |bucket| > LeafCapacity && level < MaxLevel {
      SplitHeight(k, Octant(box, i), bucket, level + 1);
      RankStep(level);
      ChildSplits(k, box, bucket, level, i, Rank(level));
    }
  }

  lemma RankStep(level: nat)
    requires level < MaxLevel
    ensures Rank(level + 1) + 1 == Rank(level)
  {
  }

  lemma ChildSplits(k: Kernel, box: Box, bucket: seq<Triangle>, level: nat, i: nat, bound: nat)
    requires i < 8 && |bucket| > LeafCapacity && level < MaxLevel
    requires Height(Split(k, Octant(box, i), bucket, level + 1)) <= bound
    ensures Height(Child(k, box, bucket, level, i)) <= bound
  {
  }

  lemma MaxHeightCons(n: Node, ns: seq<Node>)
    ensures Height(n) <= MaxHeight([n] + ns) && MaxHeight(ns) <= MaxHeight([n] + ns)
    ensures MaxHeight([n] + ns) == Height(n) || MaxHeight([n] + ns) == MaxHeight(ns)
  {
    assert ([n] + ns)[0] == n && ([n] + ns)[1..] == ns;
  }


  /**
   * What `build` promises after `addTriangle` on each of `ts`: a tree exists iff there
   * was a triangle; its root box is proper and encloses every triangle; the tree is
   * shaped as `split(0)` leaves it, at most 17 levels deep, and stores only the input
   * triangles; and, when the box test refines, every input triangle the root box
   * accepts is stored.
   */
  lemma BuildProperties(k: Kernel, ts: seq<Triangle>)
    ensures FromTriangles(k, ts).Some? <==> |ts| > 0
    ensures FromTriangles(k, ts).Some? ==>
      var root := FromTriangles(k, ts).value;
      && Proper(root.box)
      && EnclosesAll(root.box, ts)
      && Shaped(k, root, 0)
      && Height(root) <= MaxLevel + 1
      && Stored(root) <= set t | t in ts
      && (OctantsRefine(k) ==> forall t | t in ts && k.boxTriangle(root.box, t) :: t in Stored(root))
  {
    var b := AddAll(NoTriangles, ts);
    BoundsAreTight(ts);
    if |ts| > 0 {
      var bounds := b.bounds.value;
      var root := Split(k, CalcBox(bounds), ts, 0);
      assert b.tris == ts;
      assert Encloses(bounds, ts[0]);
      forall t | t in ts ensures Encloses(root.box, t) {
        WithinKeepsInside(bounds, root.box, t);
      }
      SplitShaped(k, CalcBox(bounds), ts, 0);
      SplitHeight(k, CalcBox(bounds), ts, 0);
      SplitStoresOnly(k, CalcBox(bounds), ts, 0);
      if OctantsRefine(k) {
        forall t | t in ts && k.boxTriangle(root.box, t) ensures t in Stored(root) {
          SplitKeepsAccepted(k, CalcBox(bounds), ts, 0, t);
        }
      }
    }
  }

}
