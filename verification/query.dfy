/**
 * The broad phase (`getRayTriangles`, `getSphereTriangles`, `getCapsuleTriangles` and
 * `getBoxTriangles` in Octree.ts): one recursive descent that skips every child whose
 * box the query shape misses, and from each leaf it reaches appends the triangles not
 * already in the accumulator (the box query also records the leaf's box per triangle).
 */
module Query {

  import opened Shapes
  import opened Build

  /** A triangle paired with the box of the leaf it was found in. */
  type Found = (Triangle, Box)

  /** No triangle occurs twice. */
  predicate NoDup(s: seq<Triangle>)
  {
    forall i, j | 0 <= i < j < |s| :: s[i] != s[j]
  }

  /**
   * The reference for the accumulator: walk the found pairs in order and append each
   * triangle (and its box) unless the triangle is already present.
   */
  function AppendNew(acc: seq<Triangle>, boxes: seq<Box>, ps: seq<Found>): (r: (seq<Triangle>, seq<Box>))
    ensures |acc| <= |r.0| && r.0[..|acc|] == acc
    ensures |r.1| == |boxes| + (|r.0| - |acc|) && r.1[..|boxes|] == boxes
    ensures NoDup(acc) ==> NoDup(r.0)
    ensures forall i | 0 <= i < |ps| :: ps[i].0 in r.0
    ensures forall i | |acc| <= i < |r.0| :: r.0[i] !in acc && (r.0[i], r.1[|boxes| + i - |acc|]) in ps
    decreases |ps|
  {
    if ps == [] then (acc, boxes)
    else if ps[0].0 in acc then
      var r := AppendNew(acc, boxes, ps[1..]);
      PrefixMember(acc, r.0, ps[0].0);
      r
    else
      var r := AppendNew(acc + [ps[0].0], boxes + [ps[0].1], ps[1..]);
      assert r.0[|acc|] == (acc + [ps[0].0])[|acc|];
      r
  }

  lemma PrefixMember(acc: seq<Triangle>, s: seq<Triangle>, t: Triangle)
    requires |acc| <= |s| && s[..|acc|] == acc && t in acc
    ensures t in s
  {
    var j :| 0 <= j < |acc| && acc[j] == t;
    assert s[j] == s[..|acc|][j];
  }

  lemma {:induction false} AppendNewConcat(acc: seq<Triangle>, boxes: seq<Box>, ps: seq<Found>, qs: seq<Found>)
    ensures AppendNew(acc, boxes, ps + qs) == AppendNew(AppendNew(acc, boxes, ps).0, AppendNew(acc, boxes, ps).1, qs)
    decreases |ps|
  {
    if ps == [] {
      assert ps + qs == qs;
    } else {
      assert (ps + qs)[0] == ps[0] && (ps + qs)[1..] == ps[1..] + qs;
      if ps[0].0 in acc {
        AppendNewConcat(acc, boxes, ps[1..], qs);
      } else {
        AppendNewConcat(acc + [ps[0].0], boxes + [ps[0].1], ps[1..], qs);
      }
    }
  }

  /** The inner `j` loop over one leaf: each triangle not yet present is appended, with the leaf box. */
  function AddLeaf(acc: seq<Triangle>, boxes: seq<Box>, tris: seq<Triangle>, box: Box): (r: (seq<Triangle>, seq<Box>))
    decreases |tris|
  {
    if tris == [] then (acc, boxes)
    else if tris[0] in acc then AddLeaf(acc, boxes, tris[1..], box)
    else AddLeaf(acc + [tris[0]], boxes + [box], tris[1..], box)
  }

  /** The pairs a leaf contributes: each of its triangles with its box. */
  function Pairs(tris: seq<Triangle>, box: Box): (r: seq<Found>)
    ensures |r| == |tris| && forall j | 0 <= j < |r| :: r[j] == (tris[j], box)
  {
    seq(|tris|, j requires 0 <= j < |tris| => (tris[j], box))
  }

  lemma {:induction false} AddLeafAppendsNew(acc: seq<Triangle>, boxes: seq<Box>, tris: seq<Triangle>, box: Box)
    ensures AddLeaf(acc, boxes, tris, box) == AppendNew(acc, boxes, Pairs(tris, box))
    decreases |tris|
  {
    if tris != [] {
      assert Pairs(tris, box)[1..] == Pairs(tris[1..], box);
      if tris[0] in acc {
        AddLeafAppendsNew(acc, boxes, tris[1..], box);
      } else {
        AddLeafAppendsNew(acc + [tris[0]], boxes + [box], tris[1..], box);
      }
    }
  }

  /**
   * The shared descent over `subTrees`: a child whose box `hit` rejects is skipped; a
   * child with triangles is a leaf and is added; any other child is descended into.
   */
  function Gather(hit: Box -> bool, kids: seq<Node>, acc: seq<Triangle>, boxes: seq<Box>): (r: (seq<Triangle>, seq<Box>))
    decreases kids
  {
    if kids == [] then (acc, boxes)
    else
      var sub := kids[0];
      var next :=
        if !hit(sub.box) then (acc, boxes)
        else if |sub.tris| > 0 then AddLeaf(acc, boxes, sub.tris, sub.box)
        else Gather(hit, sub.kids, acc, boxes);
      Gather(hit, kids[1..], next.0, next.1)
  }

  /** The reference traversal: the leaves reached without pruning by anything but `hit`, in depth-first order, duplicates kept. */
  function Visited(hit: Box -> bool, kids: seq<Node>): seq<Found>
    decreases kids
  {
    if kids == [] then []
    else
      var sub := kids[0];
      (if !hit(sub.box) then []
       else if |sub.tris| > 0 then Pairs(sub.tris, sub.box)
       else Visited(hit, sub.kids))
      + Visited(hit, kids[1..])
  }

  /**
   * The descent appends exactly the triangles of the visited leaves, in visiting order,
   * skipping those already present, and aligns one leaf box with each triangle it adds.
   */
  lemma {:induction false} GatherAppendsVisited(hit: Box -> bool, kids: seq<Node>, acc: seq<Triangle>, boxes: seq<Box>)
    ensures Gather(hit, kids, acc, boxes) == AppendNew(acc, boxes, Visited(hit, kids))
    decreases kids
  {
    if kids != [] {
      var sub := kids[0];
      var here :=
        if !hit(sub.box) then []
        else if |sub.tris| > 0 then Pairs(sub.tris, sub.box)
        else Visited(hit, sub.kids);
      if hit(sub.box) {
        if |sub.tris| > 0 {
          AddLeafAppendsNew(acc, boxes, sub.tris, sub.box);
        } else {
          GatherAppendsVisited(hit, sub.kids, acc, boxes);
        }
      }
      var next := AppendNew(acc, boxes, here);
      GatherAppendsVisited(hit, kids[1..], next.0, next.1);
      AppendNewConcat(acc, boxes, here, Visited(hit, kids[1..]));
    }
  }

  /**
   * The accumulator contract of every `get*Triangles`: the old contents are kept as a
   * prefix, no triangle already present is added again, and one box is pushed per added
   * triangle, each the box of a leaf the query shape touches.
   */
  lemma GatherAccumulates(hit: Box -> bool, kids: seq<Node>, acc: seq<Triangle>, boxes: seq<Box>)
    ensures var r := Gather(hit, kids, acc, boxes);
      && |acc| <= |r.0| && r.0[..|acc|] == acc
      && |r.1| - |boxes| == |r.0| - |acc|
      && (NoDup(acc) ==> NoDup(r.0))
      && forall i | |acc| <= i < |r.0| :: r.0[i] !in acc && hit(r.1[|boxes| + i - |acc|])
  {
    GatherAppendsVisited(hit, kids, acc, boxes);
    VisitedHit(hit, kids);
    var r := Gather(hit, kids, acc, boxes);
    assert r == AppendNew(acc, boxes, Visited(hit, kids));
    forall i | |acc| <= i < |r.0| ensures r.0[i] !in acc && hit(r.1[|boxes| + i - |acc|]) {
      var p := (r.0[i], r.1[|boxes| + i - |acc|]);
      assert p in Visited(hit, kids);
    }
  }

  /** Every visited leaf box passes the query test. */
  lemma {:induction false} VisitedHit(hit: Box -> bool, kids: seq<Node>)
    ensures forall p | p in Visited(hit, kids) :: hit(p.1)
    decreases kids
  {
    if kids != [] {
      var sub := kids[0];
      if hit(sub.box) && |sub.tris| == 0 {
        VisitedHit(hit, sub.kids);
      }
      VisitedHit(hit, kids[1..]);
    }
  }

  /** `getRayTriangles`, called on the root. */
  function RayTriangles(k: Kernel, ray: Ray, root: Node, acc: seq<Triangle>): seq<Triangle>
  {
    Gather(b => k.rayBox(ray, b), root.kids, acc, []).0
  }

  /** `getSphereTriangles`, called on the root. */
  function SphereTriangles(k: Kernel, sphere: Sphere, root: Node, acc: seq<Triangle>): seq<Triangle>
  {
    Gather(b => k.sphereBox(sphere, b), root.kids, acc, []).0
  }

  /** `getCapsuleTriangles`, called on the root. */
  function CapsuleTriangles(k: Kernel, capsule: Capsule, root: Node, acc: seq<Triangle>): seq<Triangle>
  {
    Gather(b => k.capsuleBox(capsule, b), root.kids, acc, []).0
  }

  /** `getBoxTriangles`, called on the root: the triangles and, index for index, their leaf boxes. */
  function BoxTriangles(k: Kernel, query: Box, root: Node): (seq<Triangle>, seq<Box>)
  {
    Gather(b => k.boxBox(query, b), root.kids, [], [])
  }

  /** The query test does not lose a box by growing it: whatever touches a box touches every box around it. */
  ghost predicate Monotone(hit: Box -> bool)
  {
    forall inner, outer :: BoxWithin(inner, outer) && hit(inner) ==> hit(outer)
  }

  /** Nodes are leaves or internal, and each child's box lies inside its parent's. */
  ghost predicate Nested(n: Node)
    decreases n
  {
    && (n.tris == [] || n.kids == [])
    && forall kid | kid in n.kids :: BoxWithin(kid.box, n.box) && Nested(kid)
  }

  /** The reference set: triangles of every leaf in the subtrees whose box passes `hit`, ignoring the ancestors. */
  function LeafHits(hit: Box -> bool, n: Node): set<Triangle>
    decreases n, 1
  {
    (if hit(n.box) && |n.tris| > 0 then set t | t in n.tris else {}) + LeafHitsIn(hit, n.kids)
  }

  function LeafHitsIn(hit: Box -> bool, ns: seq<Node>): set<Triangle>
    decreases ns, 0
  {
    if ns == [] then {} else LeafHits(hit, ns[0]) + LeafHitsIn(hit, ns[1..])
  }

  function Firsts(ps: seq<Found>): set<Triangle>
  {
    set p | p in ps :: p.0
  }

  /**
   * Pruning is safe: for a monotone test on nested boxes, the descent finds exactly the
   * triangles of the leaves whose own box passes the test.
   */
  lemma {:induction false} PruningIsSafe(hit: Box -> bool, kids: seq<Node>)
    requires Monotone(hit)
    requires forall kid | kid in kids :: Nested(kid)
    ensures Firsts(Visited(hit, kids)) == LeafHitsIn(hit, kids)
    decreases kids
  {
    if kids != [] {
      var sub := kids[0];
      var here :=
        if !hit(sub.box) then []
        else if |sub.tris| > 0 then Pairs(sub.tris, sub.box)
        else Visited(hit, sub.kids);
      PruningIsSafe(hit, kids[1..]);
      FirstsConcat(here, Visited(hit, kids[1..]));
      if !hit(sub.box) {
        MissedSubtree(hit, sub);
      } else if |sub.tris| > 0 {
        assert sub in kids;
        assert LeafHits(hit, sub) == set t | t in sub.tris;
        assert Firsts(here) == set t | t in sub.tris by {
          forall t | t in sub.tris ensures t in Firsts(here) {
            var j :| 0 <= j < |sub.tris| && sub.tris[j] == t;
            assert here[j] == (t, sub.box);
          }
        }
      } else {
        PruningIsSafe(hit, sub.kids);
      }
    }
  }

  lemma FirstsConcat(ps: seq<Found>, qs: seq<Found>)
    ensures Firsts(ps + qs) == Firsts(ps) + Firsts(qs)
  {
  }

  /** Under a monotone test, a subtree whose box is missed has no leaf the test accepts. */
  lemma {:induction false} MissedSubtree(hit: Box -> bool, n: Node)
    requires Monotone(hit) && Nested(n) && !hit(n.box)
    ensures LeafHits(hit, n) == {}
    decreases n
  {
    MissedKids(hit, n.kids, n.box);
  }

  lemma {:induction false} MissedKids(hit: Box -> bool, ns: seq<Node>, outer: Box)
    requires Monotone(hit) && !hit(outer)
    requires forall kid | kid in ns :: BoxWithin(kid.box, outer) && Nested(kid)
    ensures LeafHitsIn(hit, ns) == {}
    decreases ns
  {
    if ns != [] {
      MissedSubtree(hit, ns[0]);
      MissedKids(hit, ns[1..], outer);
    }
  }


  /** A tree shaped by `split` over a proper box has its children's boxes nested inside their parents'. */
  lemma {:induction false} ShapedNested(k: Kernel, n: Node, level: nat)
    requires Shaped(k, n, level) && Proper(n.box)
    ensures Nested(n)
    decreases n
  {
    forall kid | kid in n.kids ensures BoxWithin(kid.box, n.box) && Nested(kid) {
      assert ChildShaped(k, kid, n.box, level);
      var i :| 0 <= i < 8 && kid.box == Octant(n.box, i);
      OctantWithin(n.box, i);
      if !IsLeaf(kid) {
        ShapedNested(k, kid, level + 1);
      }
    }
  }

  /**
   * On a built tree, a query whose box test is monotone finds exactly the triangles of
   * the leaves its shape touches: pruning at inner boxes loses nothing.
   */
  lemma BuiltTreeQueriesComplete(k: Kernel, ts: seq<Triangle>, hit: Box -> bool)
    requires Monotone(hit) && FromTriangles(k, ts).Some?
    ensures Firsts(Visited(hit, FromTriangles(k, ts).value.kids)) == LeafHitsIn(hit, FromTriangles(k, ts).value.kids)
  {
    var root := FromTriangles(k, ts).value;
    BuildProperties(k, ts);
    ShapedNested(k, root, 0);
    PruningIsSafe(hit, root.kids);
  }

}
