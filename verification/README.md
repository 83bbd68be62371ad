# Triangle octree: a Dafny model

This project models the triangle octree in `Week03/Learn/@honbingitee/src/ThreeHelper/expand/Octree.ts`. A game uses it for collision.
- **Build.** The tree is built from world-space triangles. `addTriangle` grows the bounds, `calcBox` pads them, and `split` recursively deals the triangles into the eight octants of each box.
- **Query.** Four broad-phase queries (`get*Triangles`) walk the tree and collect the candidate triangles near a ray, sphere, capsule or box.
- **Resolve.** The narrow-phase tests compare a sphere, capsule or box with one triangle. The resolvers (`sphereIntersect`, `capsuleIntersect`) push a copy of the shape out of every contact and report the net displacement. `rayIntersect` finds the nearest hit and `boxIntersect` examines the first candidate.

The model is functional:
- immutable datatypes over `real` coordinates;
- a recursive `Node(box, tris, kids)` for the tree;
- folds over the candidate list for the resolvers;
- one method with a loop for the nearest-hit search.

| file | module | contents |
|---|---|---|
| wrappers.dfy | `Wrappers` | `Option` |
| vectors.dfy | `Vectors` | `Vec3` arithmetic, `dot`, `cross`, `length`, `normalize` |
| shapes.dfy | `Shapes` | box, plane, sphere, capsule and ray records, `setFromCoplanarPoints`, plane projection, `Kernel` |
| barycentric.dfy | `Barycentric` | `getBarycoord`, `TriangleContainsPoint` |
| build.dfy | `Build` | `addTriangle`, `calcBox`, octants, the `pop` loop, `split`, `build` |
| query.dfy | `Query` | the shared descent of the four `get*Triangles` |
| narrow.dfy | `Narrow` | `triangleCapsuleIntersect`, `triangleSphereIntersect`, `triangleBoxIntersect` |
| resolve.dfy | `Resolve` | `sphereIntersect`, `capsuleIntersect`, `rayIntersect`, `boxIntersect` |

Some three.js routines the octree calls are not defined in the repository. They are fields of a `Kernel` value passed to every operation, and nothing is assumed about them:
- `Box3.intersectsTriangle`;
- `Box3`/`Sphere`/`Ray`/`Capsule.intersectsBox`;
- `Ray.intersectTriangle`;
- `Line3.closestPointToPoint`;
- `Capsule.lineLineMinimumPoints`;
- `Math.sqrt`.

Wherever a property needs more, the lemma says so as a hypothesis:
- `IsSqrt(k.sqrt)`: the square root is a square root;
- `OctantsRefine(k)`: a triangle a box accepts is accepted by one of its octants;
- `Monotone(hit)`: a shape that touches a box touches every box around it.

Some small three.js routines the file relies on are defined concretely in their three.js form:
- `Vector3` arithmetic and `normalize` (which divides by `length() || 1`);
- `Plane.distanceToPoint`, `projectPoint` and `distanceToSphere`;
- `Sphere.intersectsPlane`;
- `Triangle.getNormal` and `Triangle.containsPoint` (the same barycentric test as `TriangleContainsPoint`);
- `Capsule.translate` and `getCenter`.

The capsule class is imported from `./Capsule`, which is not part of this model. Its `translate` and `getCenter` follow the three.js capsule addon.

The model follows the code as written, including where it departs from what a reader might expect:
- **Building an empty tree.** It is not a no-op. In the code, `calcBox` dereferences bounds that `addTriangle` never created, so it throws. `Build.BuildTree` therefore returns `None` when no triangle was added.
- **Child bucket order.** `split` pops triangles from the end of the list, so each child's bucket holds its triangles in reverse order. `Build.DealIsReversedFilter` states this.
- **Capsule early exit.** A gap is the plane distance minus the radius, so "a gap below minus the radius" means the end point itself is behind the plane. A capsule whose two end points are both behind a face, however close, gets no contact from it. `Narrow.CapsuleClearMeans` states this.
- **Identity.** Triangles are compared by identity (`indexOf`). A `Triangle` record carries an `id` that stands for that identity.

## Model

| member | source | states |
|---|---|---|
| Vectors.Normalize | Week03/Learn/@honbingitee/src/ThreeHelper/expand/Octree.ts:713-719 | `normalize`: for a true square root and a vector of non-zero length, the result has unit length |
| Vectors.NormalizeRoundTrip | Week03/Learn/@honbingitee/src/ThreeHelper/expand/Octree.ts:394-398 | scaling the reported direction by the reported length gives back any displacement of non-zero length |
| Vectors.NormalizeAlong | Week03/Learn/@honbingitee/src/ThreeHelper/expand/Octree.ts:228-233 | for a true square root, `normalize` of a non-zero vector has unit length and points the same way as the vector |
| Shapes.FromCoplanarPoints | Week03/Learn/@honbingitee/src/ThreeHelper/expand/Octree.ts:713-727 | `setFromCoplanarPoints` gives a plane on which all three vertices lie. For a true square root its normal is a positive multiple of `(c - b) × (a - b)`, so "in front" is the side that cross product points to. The normal has unit length unless the face normal vanishes |
| Shapes.ProjectPoint | Week03/Learn/@honbingitee/src/ThreeHelper/expand/Octree.ts:285 | `projectPoint` moves the point along the normal only; with a unit normal it lands on the plane at the point's distance from it |
| Shapes.TriangleNormal | Week03/Learn/@honbingitee/src/ThreeHelper/expand/Octree.ts:262 | `getNormal` is perpendicular to every edge. For a true square root it is a positive multiple of `(c - b) × (a - b)`, with unit length for a non-degenerate face |
| Shapes.Translate | Week03/Learn/@honbingitee/src/ThreeHelper/expand/Octree.ts:430-437 | `translate` moves the centre by exactly the vector and keeps the axis and radius |
| Barycentric.Barycoord | Week03/Learn/@honbingitee/src/ThreeHelper/expand/Octree.ts:666-698 | `getBarycoord` gives coordinates that sum to 1 for a proper triangle, and the sentinel (-2,-1,-1), which does not sum to 1, when the determinant is 0 |
| Barycentric.DegenerateContainsNothing | Week03/Learn/@honbingitee/src/ThreeHelper/expand/Octree.ts:646-659 | `TriangleContainsPoint` is false for every point of a degenerate triangle |
| Barycentric.BarycoordOfPointAt | Week03/Learn/@honbingitee/src/ThreeHelper/expand/Octree.ts:666-698 | the point a + u(c-a) + v(b-a), shifted by any offset perpendicular to both edges, gets the coordinates (1-u-v, v, u) |
| Barycentric.ContainsPointIff | Week03/Learn/@honbingitee/src/ThreeHelper/expand/Octree.ts:646-659 | `TriangleContainsPoint` holds at that point iff u >= 0, v >= 0 and u + v <= 1 |
| Barycentric.ContainsVertices | Week03/Learn/@honbingitee/src/ThreeHelper/expand/Octree.ts:646-659 | a proper triangle contains its three vertices |
| Barycentric.DenomIsFaceNormalLengthSq | Week03/Learn/@honbingitee/src/ThreeHelper/expand/Octree.ts:683 | the determinant is the squared length of the face normal used for the plane, so the sentinel case is exactly the case of a vanishing normal |
| Build.Grow | Week03/Learn/@honbingitee/src/ThreeHelper/expand/Octree.ts:44-79 | one `addTriangle` gives bounds that enclose the triangle and the old bounds and lie in every box that encloses both |
| Build.AddTriangle | Week03/Learn/@honbingitee/src/ThreeHelper/expand/Octree.ts:43-86 | `addTriangle` appends the triangle at the end and its bounds enclose it and the old bounds |
| Build.AddAll | Week03/Learn/@honbingitee/src/ThreeHelper/expand/Octree.ts:43-86 | adding a sequence appends exactly that sequence, in order |
| Build.BoundsAreTight | Week03/Learn/@honbingitee/src/ThreeHelper/expand/Octree.ts:43-86 | after the adds, bounds exist iff a triangle was added; they enclose every vertex and lie within every box that does |
| Build.CalcBox | Week03/Learn/@honbingitee/src/ThreeHelper/expand/Octree.ts:88-97 | `calcBox` contains the bounds, moves only the minimum corner, by 0.01 per axis, and keeps the maximum |
| Build.OctantWithin | Week03/Learn/@honbingitee/src/ThreeHelper/expand/Octree.ts:101-118 | each octant of a proper box is a proper box inside it |
| Build.OctantsCover | Week03/Learn/@honbingitee/src/ThreeHelper/expand/Octree.ts:101-118 | the eight octants cover their box: every point of the box is in one of them |
| Build.HitsMembers | Week03/Learn/@honbingitee/src/ThreeHelper/expand/Octree.ts:122-128 | the filter a box applies: a triangle is kept iff it is in the list and the box accepts it |
| Build.DealIsReversedFilter | Week03/Learn/@honbingitee/src/ThreeHelper/expand/Octree.ts:120-128 | after the `pop` loop, bucket i is exactly the triangles octant i accepts, in reverse order |
| Build.BucketMembers | Week03/Learn/@honbingitee/src/ThreeHelper/expand/Octree.ts:120-128 | a triangle is in bucket i iff it is in the node and octant i accepts it; buckets overlap |
| Build.Split | Week03/Learn/@honbingitee/src/ThreeHelper/expand/Octree.ts:99-143 | after `split`, the node keeps its box, holds no triangles and has at most 8 children |
| Build.KidsAreOccupied | Week03/Learn/@honbingitee/src/ThreeHelper/expand/Octree.ts:130-140 | the children kept are exactly those of the non-empty buckets, one per such octant, in octant order, each made by `Child` from its own bucket |
| Build.Child | Week03/Learn/@honbingitee/src/ThreeHelper/expand/Octree.ts:130-137 | a child's box is its octant of the parent. It is split, holding no triangles itself, iff its bucket has more than 8 triangles and the level is below 16; otherwise it is a leaf holding exactly its bucket |
| Build.BuildTree | Week03/Learn/@honbingitee/src/ThreeHelper/expand/Octree.ts:145-150 | `build` gives a tree iff bounds exist; its root box is `calcBox` of the bounds and it holds no triangles itself |
| Build.SplitShaped | Week03/Learn/@honbingitee/src/ThreeHelper/expand/Octree.ts:99-143 | every child is an octant of its parent. A leaf child is non-empty, holds only triangles its box accepts, and holds more than 8 only at level 16. Every other child was split at the next level |
| Build.SplitStoresOnly | Week03/Learn/@honbingitee/src/ThreeHelper/expand/Octree.ts:99-143 | `split` invents no triangles: everything stored below the node came from its list |
| Build.SplitKeepsAccepted | Week03/Learn/@honbingitee/src/ThreeHelper/expand/Octree.ts:120-140 | no triangle is lost: when the box test refines to octants, every triangle the node's box accepts is stored below it |
| Build.SplitHeight | Week03/Learn/@honbingitee/src/ThreeHelper/expand/Octree.ts:130-137 | recursion stops at level 16: a node split at `level` has at most 17 - level levels below it |
| Build.BuildProperties | Week03/Learn/@honbingitee/src/ThreeHelper/expand/Octree.ts:43-150 | properties of the built tree: it exists iff there were triangles, its root box is proper and encloses all of them, it is shaped as above, it is at most 17 levels deep, it stores only input triangles, and it keeps every triangle the root box accepts |
| Query.AppendNew | Week03/Learn/@honbingitee/src/ThreeHelper/expand/Octree.ts:159-166 | appending without duplicates keeps the old contents as a prefix, adds every listed triangle, preserves no-duplicates, and pairs each added triangle with its own leaf box |
| Query.AddLeafAppendsNew | Week03/Learn/@honbingitee/src/ThreeHelper/expand/Octree.ts:159-165 | the inner leaf loop is the no-duplicate append of the leaf's triangles, each with the leaf box |
| Query.GatherAppendsVisited | Week03/Learn/@honbingitee/src/ThreeHelper/expand/Octree.ts:152-171 | the descent equals the no-duplicate append of the triangles of the visited leaves, in depth-first order |
| Query.GatherAccumulates | Week03/Learn/@honbingitee/src/ThreeHelper/expand/Octree.ts:356-373 | `get*Triangles` only appends. It never re-adds a triangle already present and pushes one box per added triangle, each a leaf box the query shape touches |
| Query.VisitedHit | Week03/Learn/@honbingitee/src/ThreeHelper/expand/Octree.ts:155-157 | every leaf the descent visits passes the query shape's box test |
| Query.PruningIsSafe | Week03/Learn/@honbingitee/src/ThreeHelper/expand/Octree.ts:152-171 | for a monotone box test on nested boxes, the descent finds exactly the triangles of the leaves whose own box passes the test |
| Query.ShapedNested | Week03/Learn/@honbingitee/src/ThreeHelper/expand/Octree.ts:106-118 | in a tree shaped by `split` over a proper box, every child box lies inside its parent box |
| Query.BuiltTreeQueriesComplete | Week03/Learn/@honbingitee/src/ThreeHelper/expand/Octree.ts:319-354 | on a built tree, a query with a monotone box test misses no leaf its shape touches |
| Narrow.FirstHit | Week03/Learn/@honbingitee/src/ThreeHelper/expand/Octree.ts:219-236 | the edge loop returns no contact iff no edge gives one; otherwise it returns the contact of the earliest edge that does |
| Narrow.Delta | Week03/Learn/@honbingitee/src/ThreeHelper/expand/Octree.ts:188 | the interpolation factor lies in [0,1]; it is absent only when both gaps are 0 (a NaN in the source) |
| Narrow.CapsuleFace | Week03/Learn/@honbingitee/src/ThreeHelper/expand/Octree.ts:188-207 | there is a face contact iff the interpolation factor exists and the interpolated point lies inside the triangle; the contact is at that point, uses the plane normal, and its depth is the radius minus the smaller end distance to the plane |
| Narrow.CapsuleEdge | Week03/Learn/@honbingitee/src/ThreeHelper/expand/Octree.ts:219-234 | an edge gives a contact iff its closest points are strictly closer than the radius; the contact is at the point on the edge and its depth is the radius minus their distance |
| Narrow.CapsuleEdgeNormal | Week03/Learn/@honbingitee/src/ThreeHelper/expand/Octree.ts:228-233 | for a true square root and distinct closest points, the edge contact's normal has unit length and is a positive multiple of the vector from the contact point to the capsule axis's closest point |
| Narrow.TriangleCapsule | Week03/Learn/@honbingitee/src/ThreeHelper/expand/Octree.ts:173-239 | no contact iff the early exit is taken (both gaps positive, or both below minus the radius), or neither the face nor any of the three edges gives one; a face contact wins over the edges |
| Narrow.CapsuleClearMeans | Week03/Learn/@honbingitee/src/ThreeHelper/expand/Octree.ts:181-186 | the early exit is taken iff both end balls lie wholly in front of the plane or both end points lie behind it, however close: a capsule just behind a face gets no contact |
| Narrow.CapsuleContactCases | Week03/Learn/@honbingitee/src/ThreeHelper/expand/Octree.ts:173-239 | no contact iff the early exit is taken or no face or edge gives one; a contact is the face contact, or, when the face test failed, the contact of the earliest edge that gives one |
| Narrow.CapsuleEdgeDepthPositive | Week03/Learn/@honbingitee/src/ThreeHelper/expand/Octree.ts:227-231 | for a true square root and a non-negative radius, an edge contact pushes out by a positive amount |
| Narrow.SphereEdges | Week03/Learn/@honbingitee/src/ThreeHelper/expand/Octree.ts:295-314 | the edge loop gives no contact iff no edge's closest point to the projected centre is strictly within the budget; otherwise it gives the earliest edge's contact, at that point, with depth the radius minus the root of the squared distance |
| Narrow.SphereEdge | Week03/Learn/@honbingitee/src/ThreeHelper/expand/Octree.ts:301-311 | one edge gives a contact iff its closest point to the projected centre is strictly within the budget of the centre |
| Narrow.SphereEdgeNormal | Week03/Learn/@honbingitee/src/ThreeHelper/expand/Octree.ts:305-311 | for a true square root and a contact point off the centre, the edge contact's normal has unit length and is a positive multiple of the vector from the contact point to the centre |
| Narrow.TriangleSphere | Week03/Learn/@honbingitee/src/ThreeHelper/expand/Octree.ts:268-317 | no contact iff the sphere misses the triangle's plane, or its centre is outside the triangle and no edge gives a contact |
| Narrow.SphereContactCases | Week03/Learn/@honbingitee/src/ThreeHelper/expand/Octree.ts:268-317 | when the sphere meets the plane, the contact is the face contact (plane normal, projected centre, depth the absolute distance to the sphere) if the centre is inside the triangle; otherwise it is the earliest edge's contact, with normal the normalised vector from the contact point to the centre |
| Narrow.SphereFaceContact | Week03/Learn/@honbingitee/src/ThreeHelper/expand/Octree.ts:282-293 | with the centre inside the triangle, the contact uses the plane normal and the projected centre, which lies on the plane. Its depth is the radius minus the signed distance, so a centre behind the plane is pushed by more than the radius |
| Narrow.SphereEdgeContact | Week03/Learn/@honbingitee/src/ThreeHelper/expand/Octree.ts:282-314 | with the centre outside the triangle, the contact point is strictly within the budget, hence within the radius |
| Narrow.SphereEdgeDepthPositive | Week03/Learn/@honbingitee/src/ThreeHelper/expand/Octree.ts:305-311 | for a true square root and a non-negative radius, a sphere edge contact pushes out by a positive amount |
| Narrow.TriangleBox | Week03/Learn/@honbingitee/src/ThreeHelper/expand/Octree.ts:241-266 | `triangleBoxIntersect` returns a normal iff the triangle meets the query box and its leaf box does too. That normal is `getNormal`: perpendicular to the edges and, for a true square root and a non-degenerate face, of unit length and on the side `(c - b) × (a - b)` points to |
| Resolve.PushSphere | Week03/Learn/@honbingitee/src/ThreeHelper/expand/Octree.ts:384-392 | the pushing loop keeps the radius. The final centre is the start plus the sum of the contact pushes, and at most one contact is recorded per candidate |
| Resolve.PushSphereContacts | Week03/Learn/@honbingitee/src/ThreeHelper/expand/Octree.ts:384-392 | every contact is applied: the final sphere is the one left after the last candidate, the recorded contacts are exactly the test's contacts against the sphere as moved so far, in candidate order, and none is recorded iff every test fails |
| Resolve.SphereIntersect | Week03/Learn/@honbingitee/src/ThreeHelper/expand/Octree.ts:375-402 | `sphereIntersect` reports a hit iff some candidate, tested against the sphere as moved so far, gives a contact. It reports the direction and length of the summed pushes |
| Resolve.SphereDisplacement | Week03/Learn/@honbingitee/src/ThreeHelper/expand/Octree.ts:394-398 | scaling the reported normal by the reported depth gives back the summed pushes, whenever the depth is non-zero |
| Resolve.PushCapsule | Week03/Learn/@honbingitee/src/ThreeHelper/expand/Octree.ts:421-432 | the capsule moves rigidly. Its centre moves by the sum of the pushes, its axis and radius are kept, and every recorded mesh is a candidate's mesh |
| Resolve.PushCapsuleContacts | Week03/Learn/@honbingitee/src/ThreeHelper/expand/Octree.ts:421-432 | the loop does not stop at the first contact: the final capsule is the one left after the last candidate, the recorded contacts are exactly the test's contacts against the capsule as translated so far, each with its triangle's mesh, in candidate order, and none is recorded iff every test fails |
| Resolve.CapsuleCandidates | Week03/Learn/@honbingitee/src/ThreeHelper/expand/Octree.ts:418-419 | the candidates are `otherTriangles` first, then only tree triangles not among them: exactly the no-duplicate append of the triangles of the leaves the capsule's box test visits |
| Resolve.CapsuleIntersect | Week03/Learn/@honbingitee/src/ThreeHelper/expand/Octree.ts:408-451 | `capsuleIntersect` reports a hit iff some candidate, tested against the capsule as translated so far, gives a contact. It reports the direction and length of the centre's net displacement, one mesh name per contact in order, and the name and uuid of the last contact's mesh. The uuid is optional, because triangles built by `getMeshTriangles` carry none |
| Resolve.Nearest | Week03/Learn/@honbingitee/src/ThreeHelper/expand/Octree.ts:457-485 | the nearest-hit loop reports a miss iff no hit is nearer than 1e100. A hit's distance is <= every candidate's hit distance, strictly < for all earlier ones, and its position is the intersection point |
| Resolve.RayIntersect | Week03/Learn/@honbingitee/src/ThreeHelper/expand/Octree.ts:453-486 | `rayIntersect` returns undefined iff the direction has length 0; otherwise false iff no candidate is hit nearer than 1e100, else the nearest hit, the earliest of equally near ones, with the point where the ray meets it |
| Resolve.BoxIntersect | Week03/Learn/@honbingitee/src/ThreeHelper/expand/Octree.ts:506-525 | `boxIntersect` looks at the first candidate only. Its result is exactly `triangleBoxIntersect` of that triangle and its leaf box, so a normal comes back iff both meet the query box, and the normal is that triangle's `getNormal`. The boxes stay index-aligned with the triangles |

## Left out

- **Mesh ingestion** (`fromGraphNode`, `composeTriangles`, `getMeshTriangles`) is left out. It is scene-graph traversal, geometry conversion and matrix application inside three.js. Its one visible effect is kept: `getMeshTriangles` tags triangles with `{ name }` only (Octree.ts:619), so a triangle's mesh uuid is an `Option`, and `capsuleIntersect` can report an absent uuid.
- **`boxCollider`** is left out: it recurses without any effect.
- **`window.log`** is left out: it is a console dump.
- **Scratch singletons** (`_v1`, `_plane`, `_capsule`, ...) become local values. The caller's sphere or capsule is never mutated, because the functional model has no aliasing.
- **Floating point** is not represented: no rounding, and no NaN or infinities. In particular:
  - Both capsule gaps being 0 gives `0/0` in the source. Its NaN point fails the containment test, so the model reports "no face point" and falls through to the edge tests (`Narrow.Delta`).
  - The initial bounds (+∞, −∞) are modelled as "no bounds yet".
- **Square root** is a parameter. Results that depend on it are stated under `IsSqrt`.
- **Foreign three.js routines** are uninterpreted `Kernel` fields, as listed above. Their own geometry (the separating-axis test, ray–triangle intersection, segment–segment closest points) is not modelled.
- **Worker message passing and the rest of the repository** are not modelled. They are I/O, concurrency and rendering glue.
- Resolve.SphereDisplacement: states nothing when the reported depth is 0. With a true square root a zero depth means the pushes summed to the zero vector, so `normal * depth` would still match. Proving that needs "a sum of three squares is 0 only when each term is 0", which the model does not prove. With an arbitrary `sqrt` parameter the zero-depth case can genuinely fail.
