/**
 * The queries built on the broad and narrow phases (`sphereIntersect`,
 * `capsuleIntersect`, `rayIntersect` and `boxIntersect` in Octree.ts). The two
 * resolvers push a private copy of the shape out of every contact in candidate order
 * and report the net displacement as a direction and a length.
 */
module Resolve {

  import opened Wrappers
  import opened Vectors
  import opened Shapes
  import opened Build
  import opened Query
  import opened Narrow

  /** `{ normal, depth }`: the direction and length of the net displacement. */
  datatype Push = Push(normal: Vec3, depth: real)

  /** The displacement one contact causes: `normal * depth`. */
  function PushOf(c: Contact): Vec3
  {
    Scale(c.normal, c.depth)
  }

  /** The sum of the displacements of a run of contacts. */
  function TotalPush(cs: seq<Contact>): Vec3
  {
    if cs == [] then Zero else Add(PushOf(cs[0]), TotalPush(cs[1..]))
  }

  /** The present values of a run of optional results, in order. */
  function Somes<T>(xs: seq<Option<T>>): (r: seq<T>)
    ensures |r| <= |xs|
  {
    if xs == [] then [] else (if xs[0].Some? then [xs[0].value] else []) + Somes(xs[1..])
  }

  lemma SomesCons<T>(xs: seq<Option<T>>)
    requires xs != []
    ensures Somes(xs) == (if xs[0].Some? then [xs[0].value] else []) + Somes(xs[1..])
  {
  }

  /** Nothing is present iff every result is absent. */
  lemma {:induction false} SomesEmpty<T>(xs: seq<Option<T>>)
    ensures Somes(xs) == [] <==> forall i | 0 <= i < |xs| :: xs[i].None?
  {
    if xs != [] {
      SomesEmpty(xs[1..]);
      assert forall i | 1 <= i < |xs| :: xs[i] == xs[1..][i - 1];
    }
  }

  /** The narrow-phase test `sphereIntersect` applies to each candidate. */
  function SphereTest(k: Kernel): (Sphere, Triangle) -> Option<Contact>
  {
    (s, t) => TriangleSphere(k, s, t)
  }

  /**
   * The loop of `sphereIntersect`, for a narrow-phase test `test`: each candidate is
   * tested against the sphere as moved so far, and a contact moves the centre by its
   * push. The final centre is the start plus the sum of the pushes, and the radius is
   * kept.
   */
  function PushSphere(test: (Sphere, Triangle) -> Option<Contact>, s: Sphere, ts: seq<Triangle>): (r: (Sphere, seq<Contact>))
    ensures r.0.radius == s.radius
    ensures r.0.center == Add(s.center, TotalPush(r.1))
    ensures |r.1| <= |ts|
    decreases |ts|
  {
    if ts == [] then (s, [])
    else
      match test(s, ts[0])
      case None => PushSphere(test, s, ts[1..])
      case Some(c) =>
        var rest := PushSphere(test, Sphere(Add(s.center, PushOf(c)), s.radius), ts[1..]);
        (rest.0, [c] + rest.1)
  }

  /** The sphere the loop tests candidate `i` against. */
  function Moved(test: (Sphere, Triangle) -> Option<Contact>, s: Sphere, ts: seq<Triangle>, i: nat): Sphere
    requires i <= |ts|
    decreases i
  {
    if i == 0 then s
    else
      var prev := Moved(test, s, ts, i - 1);
      match test(prev, ts[i - 1])
      case None => prev
      case Some(c) => Sphere(Add(prev.center, PushOf(c)), prev.radius)
  }

  lemma {:induction false} MovedStep(test: (Sphere, Triangle) -> Option<Contact>, s: Sphere, ts: seq<Triangle>, i: nat)
    requires 1 <= i <= |ts|
    ensures Moved(test, s, ts, i) == Moved(test, Moved(test, s, ts, 1), ts[1..], i - 1)
    decreases i
  {
    if i > 1 {
      MovedStep(test, s, ts, i - 1);
    }
  }

  /** What the test reports for each candidate, against the sphere as moved by the earlier ones. */
  function SphereOutcomes(test: (Sphere, Triangle) -> Option<Contact>, s: Sphere, ts: seq<Triangle>): (r: seq<Option<Contact>>)
    ensures |r| == |ts|
  {
    seq(|ts|, i requires 0 <= i < |ts| => test(Moved(test, s, ts, i), ts[i]))
  }

  lemma SphereOutcomesShift(test: (Sphere, Triangle) -> Option<Contact>, s: Sphere, ts: seq<Triangle>)
    requires ts != []
    ensures SphereOutcomes(test, s, ts)[1..] == SphereOutcomes(test, Moved(test, s, ts, 1), ts[1..])
  {
    var s1 := Moved(test, s, ts, 1);
    forall i | 1 <= i < |ts| ensures SphereOutcomes(test, s, ts)[i] == SphereOutcomes(test, s1, ts[1..])[i - 1] {
      MovedStep(test, s, ts, i);
      assert ts[1..][i - 1] == ts[i];
    }
  }

  /**
   * The loop applies every contact, not only the first: the final sphere is the one the
   * last candidate left, and the contacts recorded are exactly what the test reports
   * against the sphere as moved so far, in candidate order. None is recorded iff every
   * test fails.
   */
  lemma PushSphereContacts(test: (Sphere, Triangle) -> Option<Contact>, s: Sphere, ts: seq<Triangle>)
    ensures PushSphere(test, s, ts).0 == Moved(test, s, ts, |ts|)
    ensures PushSphere(test, s, ts).1 == Somes(SphereOutcomes(test, s, ts))
    ensures PushSphere(test, s, ts).1 == [] <==> forall i | 0 <= i < |ts| :: test(Moved(test, s, ts, i), ts[i]).None?
  {
    var outs := SphereOutcomes(test, s, ts);
    PushSphereTrace(test, s, ts);
    SomesEmpty(outs);
    assert forall i | 0 <= i < |ts| :: outs[i] == test(Moved(test, s, ts, i), ts[i]);
  }

  /** The induction behind `PushSphereContacts`. */
  lemma {:induction false} PushSphereTrace(test: (Sphere, Triangle) -> Option<Contact>, s: Sphere, ts: seq<Triangle>)
    ensures PushSphere(test, s, ts).0 == Moved(test, s, ts, |ts|)
    ensures PushSphere(test, s, ts).1 == Somes(SphereOutcomes(test, s, ts))
    decreases |ts|
  {
    if ts != [] {
      var s1 := Moved(test, s, ts, 1);
      PushSphereTrace(test, s1, ts[1..]);
      PushSphereUnfold(test, s, ts);
      MovedStep(test, s, ts, |ts|);
      SphereOutcomesShift(test, s, ts);
      SomesCons(SphereOutcomes(test, s, ts));
    }
  }

  /** One turn of the sphere loop, in terms of the moved sphere. */
  lemma PushSphereUnfold(test: (Sphere, Triangle) -> Option<Contact>, s: Sphere, ts: seq<Triangle>)
    requires ts != []
    ensures var rest := PushSphere(test, Moved(test, s, ts, 1), ts[1..]);
      var o := test(s, ts[0]);
      PushSphere(test, s, ts) == (rest.0, (if o.Some? then [o.value] else []) + rest.1)
  {
    match test(s, ts[0])
    case None =>
      assert Moved(test, s, ts, 1) == s;
      assert PushSphere(test, s, ts) == PushSphere(test, s, ts[1..]);
      assert [] + PushSphere(test, s, ts[1..]).1 == PushSphere(test, s, ts[1..]).1;
    case Some(c) =>
      assert Moved(test, s, ts, 1) == Sphere(Add(s.center, PushOf(c)), s.radius);
  }

  /**
   * `sphereIntersect`: the candidates of the original sphere, the pushes, and, when
   * anything was hit, the net displacement as a direction and a length. There is a hit
   * iff some candidate, tested against the sphere as moved so far, gives a contact.
   */
  function SphereIntersect(k: Kernel, root: Node, sphere: Sphere): (r: Option<Push>)
    ensures var ts := SphereTriangles(k, sphere, root, []);
      r.None? <==> forall i | 0 <= i < |ts| :: TriangleSphere(k, Moved(SphereTest(k), sphere, ts, i), ts[i]).None?
    ensures var (moved, contacts) := PushSphere(SphereTest(k), sphere, SphereTriangles(k, sphere, root, []));
      && (r.Some? <==> contacts != [])
      && (r.Some? ==> r.value == Push(Normalize(k.sqrt, TotalPush(contacts)), Length(k.sqrt, TotalPush(contacts))))
  {
    var ts := SphereTriangles(k, sphere, root, []);
    var (moved, contacts) := PushSphere(SphereTest(k), sphere, ts);
    PushSphereContacts(SphereTest(k), sphere, ts);
    if contacts == [] then None
    else
      var v := Sub(moved.center, sphere.center);
      SubAddCancel(sphere.center, TotalPush(contacts));
      Some(Push(Normalize(k.sqrt, v), Length(k.sqrt, v)))
  }

  /**
   * The displacement `sphereIntersect` reports is recovered as `normal * depth`: it is
   * the sum of the individual pushes, whenever the reported depth is non-zero.
   */
  lemma SphereDisplacement(k: Kernel, root: Node, sphere: Sphere)
    requires SphereIntersect(k, root, sphere).Some?
    ensures var contacts := PushSphere(SphereTest(k), sphere, SphereTriangles(k, sphere, root, [])).1;
      var p := SphereIntersect(k, root, sphere).value;
      p.depth != 0.0 ==> Scale(p.normal, p.depth) == TotalPush(contacts)
  {
    var contacts := PushSphere(SphereTest(k), sphere, SphereTriangles(k, sphere, root, [])).1;
    if Length(k.sqrt, TotalPush(contacts)) != 0.0 {
      NormalizeRoundTrip(k.sqrt, TotalPush(contacts));
    }
  }

  /** A contact of the capsule loop together with the mesh of the triangle that produced it. */
  datatype MeshContact = MeshContact(contact: Contact, mesh: Mesh)

  function Contacts(hs: seq<MeshContact>): (r: seq<Contact>)
    ensures |r| == |hs| && forall i | 0 <= i < |hs| :: r[i] == hs[i].contact
  {
    seq(|hs|, i requires 0 <= i < |hs| => hs[i].contact)
  }

  /** The narrow-phase test `capsuleIntersect` applies to each candidate. */
  function CapsuleTest(k: Kernel): (Capsule, Triangle) -> Option<Contact>
  {
    (c, t) => TriangleCapsule(k, c, t)
  }

  /**
   * The loop of `capsuleIntersect`, for a narrow-phase test `test`: each candidate is
   * tested against the capsule as translated so far, and a contact translates it by its
   * push. The capsule moves rigidly: its centre moves by the sum of the pushes, its axis
   * and radius are kept.
   */
  function PushCapsule(test: (Capsule, Triangle) -> Option<Contact>, cap: Capsule, ts: seq<Triangle>): (r: (Capsule, seq<MeshContact>))
    ensures Center(r.0) == Add(Center(cap), TotalPush(Contacts(r.1)))
    ensures Sub(r.0.end, r.0.start) == Sub(cap.end, cap.start) && r.0.radius == cap.radius
    ensures forall h | h in r.1 :: exists t :: t in ts && h.mesh == t.mesh
    ensures |r.1| <= |ts|
    decreases |ts|
  {
    if ts == [] then (cap, [])
    else
      match test(cap, ts[0])
      case None => PushCapsule(test, cap, ts[1..])
      case Some(c) =>
        var rest := PushCapsule(test, Translate(cap, PushOf(c)), ts[1..]);
        PushCapsuleStep(cap, c, ts[0].mesh, Translate(cap, PushOf(c)), rest.0, rest.1);
        (rest.0, [MeshContact(c, ts[0].mesh)] + rest.1)
  }

  /** One contact of the capsule loop: the centre's displacements add up. */
  lemma PushCapsuleStep(cap: Capsule, c: Contact, mesh: Mesh, moved: Capsule, last: Capsule, hs: seq<MeshContact>)
    requires Center(moved) == Add(Center(cap), PushOf(c))
    requires Center(last) == Add(Center(moved), TotalPush(Contacts(hs)))
    ensures Center(last) == Add(Center(cap), TotalPush(Contacts([MeshContact(c, mesh)] + hs)))
  {
    assert Contacts([MeshContact(c, mesh)] + hs) == [c] + Contacts(hs);
    assert ([c] + Contacts(hs))[1..] == Contacts(hs);
  }

  /** The capsule the loop tests candidate `i` against. */
  function MovedCapsule(test: (Capsule, Triangle) -> Option<Contact>, cap: Capsule, ts: seq<Triangle>, i: nat): Capsule
    requires i <= |ts|
    decreases i
  {
    if i == 0 then cap
    else
      var prev := MovedCapsule(test, cap, ts, i - 1);
      match test(prev, ts[i - 1])
      case None => prev
      case Some(c) => Translate(prev, PushOf(c))
  }

  lemma {:induction false} MovedCapsuleStep(test: (Capsule, Triangle) -> Option<Contact>, cap: Capsule, ts: seq<Triangle>, i: nat)
    requires 1 <= i <= |ts|
    ensures MovedCapsule(test, cap, ts, i) == MovedCapsule(test, MovedCapsule(test, cap, ts, 1), ts[1..], i - 1)
    decreases i
  {
    if i > 1 {
      MovedCapsuleStep(test, cap, ts, i - 1);
    }
  }

  function CapsuleOutcome(c: Option<Contact>, mesh: Mesh): Option<MeshContact>
  {
    match c
    case None => None
    case Some(c) => Some(MeshContact(c, mesh))
  }

  /** What the test reports for each candidate, with its mesh, against the capsule as translated by the earlier ones. */
  function CapsuleOutcomes(test: (Capsule, Triangle) -> Option<Contact>, cap: Capsule, ts: seq<Triangle>): (r: seq<Option<MeshContact>>)
    ensures |r| == |ts|
  {
    seq(|ts|, i requires 0 <= i < |ts| => CapsuleOutcome(test(MovedCapsule(test, cap, ts, i), ts[i]), ts[i].mesh))
  }

  lemma CapsuleOutcomesShift(test: (Capsule, Triangle) -> Option<Contact>, cap: Capsule, ts: seq<Triangle>)
    requires ts != []
    ensures CapsuleOutcomes(test, cap, ts)[1..] == CapsuleOutcomes(test, MovedCapsule(test, cap, ts, 1), ts[1..])
  {
    var c1 := MovedCapsule(test, cap, ts, 1);
    forall i | 1 <= i < |ts| ensures CapsuleOutcomes(test, cap, ts)[i] == CapsuleOutcomes(test, c1, ts[1..])[i - 1] {
      MovedCapsuleStep(test, cap, ts, i);
      assert ts[1..][i - 1] == ts[i];
    }
  }

  /**
   * The capsule loop does not stop at the first contact: the final capsule is the one
   * the last candidate left, and the contacts recorded are exactly what the test reports
   * against the capsule as translated so far, each with its triangle's mesh, in
   * candidate order. None is recorded iff every test fails.
   */
  lemma PushCapsuleContacts(test: (Capsule, Triangle) -> Option<Contact>, cap: Capsule, ts: seq<Triangle>)
    ensures PushCapsule(test, cap, ts).0 == MovedCapsule(test, cap, ts, |ts|)
    ensures PushCapsule(test, cap, ts).1 == Somes(CapsuleOutcomes(test, cap, ts))
    ensures PushCapsule(test, cap, ts).1 == [] <==> forall i | 0 <= i < |ts| :: test(MovedCapsule(test, cap, ts, i), ts[i]).None?
  {
    var outs := CapsuleOutcomes(test, cap, ts);
    PushCapsuleFinal(test, cap, ts);
    PushCapsuleTrace(test, cap, ts);
    SomesEmpty(outs);
    assert forall i | 0 <= i < |ts| :: outs[i].None? <==> test(MovedCapsule(test, cap, ts, i), ts[i]).None?;
  }

  /** The induction behind `PushCapsuleContacts`: the final capsule. */
  lemma {:induction false} PushCapsuleFinal(test: (Capsule, Triangle) -> Option<Contact>, cap: Capsule, ts: seq<Triangle>)
    ensures PushCapsule(test, cap, ts).0 == MovedCapsule(test, cap, ts, |ts|)
    decreases |ts|
  {
    if ts != [] {
      PushCapsuleFinal(test, MovedCapsule(test, cap, ts, 1), ts[1..]);
      PushCapsuleUnfold(test, cap, ts);
      MovedCapsuleStep(test, cap, ts, |ts|);
    }
  }

  /** The induction behind `PushCapsuleContacts`: the contacts recorded. */
  lemma {:induction false} PushCapsuleTrace(test: (Capsule, Triangle) -> Option<Contact>, cap: Capsule, ts: seq<Triangle>)
    ensures PushCapsule(test, cap, ts).1 == Somes(CapsuleOutcomes(test, cap, ts))
    decreases |ts|
  {
    if ts != [] {
      PushCapsuleTrace(test, MovedCapsule(test, cap, ts, 1), ts[1..]);
      PushCapsuleUnfold(test, cap, ts);
      var outs := CapsuleOutcomes(test, cap, ts);
      CapsuleOutcomesShift(test, cap, ts);
      SomesCons(outs);
      assert outs[0] == CapsuleOutcome(test(cap, ts[0]), ts[0].mesh);
    }
  }

  /** One turn of the capsule loop, in terms of the translated capsule. */
  lemma PushCapsuleUnfold(test: (Capsule, Triangle) -> Option<Contact>, cap: Capsule, ts: seq<Triangle>)
    requires ts != []
    ensures var rest := PushCapsule(test, MovedCapsule(test, cap, ts, 1), ts[1..]);
      PushCapsule(test, cap, ts) == (rest.0, (if test(cap, ts[0]).Some? then [MeshContact(test(cap, ts[0]).value, ts[0].mesh)] else []) + rest.1)
  {
    match test(cap, ts[0])
    case None =>
      assert MovedCapsule(test, cap, ts, 1) == cap;
      assert PushCapsule(test, cap, ts) == PushCapsule(test, cap, ts[1..]);
      assert [] + PushCapsule(test, cap, ts[1..]).1 == PushCapsule(test, cap, ts[1..]).1;
    case Some(c) =>
      assert MovedCapsule(test, cap, ts, 1) == Translate(cap, PushOf(c));
  }

  /** What `capsuleIntersect` reports on a hit. */
  datatype CapsuleHit = CapsuleHit(normal: Vec3, depth: real, meshName: string, meshUuid: Option<string>, meshNames: seq<string>)

  function Names(hs: seq<MeshContact>): (r: seq<string>)
    ensures |r| == |hs| && forall i | 0 <= i < |hs| :: r[i] == hs[i].mesh.name
  {
    seq(|hs|, i requires 0 <= i < |hs| => hs[i].mesh.name)
  }

  /** The candidates of `capsuleIntersect`: `otherTriangles` first, then the tree's triangles not among them. */
  function CapsuleCandidates(k: Kernel, root: Node, cap: Capsule, others: seq<Triangle>): (r: seq<Triangle>)
    ensures |others| <= |r| && r[..|others|] == others
    ensures forall i | |others| <= i < |r| :: r[i] !in others
    ensures r == AppendNew(others, [], Visited(b => k.capsuleBox(cap, b), root.kids)).0
  {
    GatherAccumulates(b => k.capsuleBox(cap, b), root.kids, others, []);
    GatherAppendsVisited(b => k.capsuleBox(cap, b), root.kids, others, []);
    CapsuleTriangles(k, cap, root, others)
  }

  /**
   * `capsuleIntersect`: nothing when no candidate, tested against the capsule as
   * translated so far, touches; otherwise the net displacement of the centre, one mesh
   * name per contact in order, and the name and uuid of the mesh of the last contact.
   */
  function CapsuleIntersect(k: Kernel, root: Node, cap: Capsule, others: seq<Triangle>): (r: Option<CapsuleHit>)
    ensures var ts := CapsuleCandidates(k, root, cap, others);
      r.None? <==> forall i | 0 <= i < |ts| :: TriangleCapsule(k, MovedCapsule(CapsuleTest(k), cap, ts, i), ts[i]).None?
    ensures var (moved, hits) := PushCapsule(CapsuleTest(k), cap, CapsuleCandidates(k, root, cap, others));
      && (r.Some? <==> hits != [])
      && (r.Some? ==>
        && r.value.normal == Normalize(k.sqrt, TotalPush(Contacts(hits)))
        && r.value.depth == Length(k.sqrt, TotalPush(Contacts(hits)))
        && |r.value.meshNames| == |hits|
        && (forall i | 0 <= i < |hits| :: r.value.meshNames[i] == hits[i].mesh.name)
        && r.value.meshName == hits[|hits| - 1].mesh.name
        && r.value.meshUuid == hits[|hits| - 1].mesh.uuid)
  {
    var ts := CapsuleCandidates(k, root, cap, others);
    var pushed := PushCapsule(CapsuleTest(k), cap, ts);
    PushCapsuleContacts(CapsuleTest(k), cap, ts);
    var hits := pushed.1;
    if hits == [] then None
    else
      var v := Sub(Center(pushed.0), Center(cap));
      SubAddCancel(Center(cap), TotalPush(Contacts(hits)));
      var last := hits[|hits| - 1].mesh;
      Some(CapsuleHit(Normalize(k.sqrt, v), Length(k.sqrt, v), last.name, last.uuid, Names(hits)))
  }

  lemma SubAddCancel(u: Vec3, v: Vec3)
    ensures Sub(Add(u, v), u) == v
  {
  }

  /** The outcome of `rayIntersect`: `undefined`, `false` or the nearest hit. */
  datatype RayResult = NoDirection | Miss | RayHit(distance: real, triangle: Triangle, position: Vec3)

  /** The initial distance, `1e100`: a hit at least this far away is never reported. */
  const Far: real := 10000000000000000000000000000000000000000000000000000000000000000000000000000000000000000000000000000.0

  /** The distance from the ray's origin to where it meets `t` (`Ray.intersectTriangle` with back faces culled), if it does. */
  function HitDistance(k: Kernel, ray: Ray, t: Triangle): Option<real>
  {
    match k.rayTriangle(ray, t)
    case None => None
    case Some(p) => Some(Length(k.sqrt, Sub(p, ray.origin)))
  }

  /**
   * The loop of `rayIntersect` over the candidates: keeps the hit with the smallest
   * distance below `Far`, replacing it only on a strictly smaller one, so ties go to the
   * earliest candidate.
   */
  method Nearest(k: Kernel, ray: Ray, ts: seq<Triangle>) returns (r: RayResult)
    ensures r.NoDirection? == false
    ensures r.Miss? <==> forall i | 0 <= i < |ts| :: HitDistance(k, ray, ts[i]).None? || HitDistance(k, ray, ts[i]).value >= Far
    ensures r.RayHit? ==> r.distance < Far && exists j ::
      && 0 <= j < |ts| && ts[j] == r.triangle
      && HitDistance(k, ray, ts[j]) == Some(r.distance)
      && k.rayTriangle(ray, ts[j]) == Some(r.position)
      && (forall m | 0 <= m < j :: HitDistance(k, ray, ts[m]).None? || HitDistance(k, ray, ts[m]).value > r.distance)
      && (forall m | j < m < |ts| :: HitDistance(k, ray, ts[m]).None? || HitDistance(k, ray, ts[m]).value >= r.distance)
  {
    var distance := Far;
    var triangle: Triangle := Triangle(0, Zero, Zero, Zero, Mesh(None, ""));
    var position := Zero;
    ghost var best := -1;
    var i := 0;
    while i < |ts|
      invariant 0 <= i <= |ts|
      invariant distance <= Far
      invariant forall m | 0 <= m < i :: HitDistance(k, ray, ts[m]).None? || HitDistance(k, ray, ts[m]).value >= distance
      invariant best == -1 <==> distance == Far
      invariant best != -1 ==>
        && 0 <= best < i && ts[best] == triangle
        && HitDistance(k, ray, ts[best]) == Some(distance)
        && k.rayTriangle(ray, ts[best]) == Some(position)
        && forall m | 0 <= m < best :: HitDistance(k, ray, ts[m]).None? || HitDistance(k, ray, ts[m]).value > distance
    {
      var result := k.rayTriangle(ray, ts[i]);
      if result.Some? {
        var offset := Sub(result.value, ray.origin);
        var newDistance := Length(k.sqrt, offset);
        if distance > newDistance {
          position := Add(offset, ray.origin);
          assert position == result.value;
          distance := newDistance;
          triangle := ts[i];
          best := i;
        }
      }
      i := i + 1;
    }
    if distance < Far {
      r := RayHit(distance, triangle, position);
    } else {
      r := Miss;
    }
  }

  /**
   * `rayIntersect`: `undefined` for a direction of length zero; otherwise the nearest
   * hit among the ray's candidates, the earliest of equally near ones, with the point
   * the ray meets it; or `false`.
   */
  method RayIntersect(k: Kernel, root: Node, ray: Ray) returns (r: RayResult)
    ensures r.NoDirection? <==> Length(k.sqrt, ray.direction) == 0.0
    ensures !r.NoDirection? ==>
      var ts := RayTriangles(k, ray, root, []);
      && (r.Miss? <==> forall i | 0 <= i < |ts| :: HitDistance(k, ray, ts[i]).None? || HitDistance(k, ray, ts[i]).value >= Far)
      && (r.RayHit? ==> r.distance < Far && exists j ::
            && 0 <= j < |ts| && ts[j] == r.triangle
            && HitDistance(k, ray, ts[j]) == Some(r.distance)
            && k.rayTriangle(ray, ts[j]) == Some(r.position)
            && (forall m | 0 <= m < j :: HitDistance(k, ray, ts[m]).None? || HitDistance(k, ray, ts[m]).value > r.distance)
            && (forall m | j < m < |ts| :: HitDistance(k, ray, ts[m]).None? || HitDistance(k, ray, ts[m]).value >= r.distance))
  {
    if Length(k.sqrt, ray.direction) == 0.0 {
      return NoDirection;
    }
    var ts := RayTriangles(k, ray, root, []);
    r := Nearest(k, ray, ts);
  }

  /**
   * `boxIntersect`: only the first candidate is examined; the result is what
   * `triangleBoxIntersect` gives for it, its triangle's unit face normal when the triangle
   * and its leaf box both meet the query box.
   */
  function BoxIntersect(k: Kernel, root: Node, query: Box): (r: Option<Vec3>)
    ensures var (ts, boxes) := BoxTriangles(k, query, root);
      && |ts| == |boxes|
      && (r.Some? <==> |ts| > 0 && k.boxTriangle(query, ts[0]) && k.boxBox(boxes[0], query))
      && (|ts| > 0 ==> r == TriangleBox(k, query, ts[0], boxes[0]))
      && (r.Some? ==> k.boxBox(query, boxes[0]) && r.value == TriangleNormal(k.sqrt, ts[0]))
  {
    GatherAccumulates(b => k.boxBox(query, b), root.kids, [], []);
    var (ts, boxes) := BoxTriangles(k, query, root);
    if |ts| == 0 then None else TriangleBox(k, query, ts[0], boxes[0])
  }

}
