/** Intersectable models (src/models.rs): hit records, front-face orientation,
    the sphere, the aggregate list of models and, because the three share one
    dispatch, the BVH node's traversal and box (src/bvh.rs:101-116).

    Models are generic over the material type `M`: the source only holds a
    `dyn Material` here, and the material module in turn needs hit records. */
module Models {
  import opened Num
  import opened Options
  import opened Vectors
  import Aabbs

  /** An intersection: point, shading normal, ray parameter, whether the ray
      arrived from outside, and the material of the surface. */
  datatype Hit<M> = Hit(point: Vec3, normal: Vec3, t: real, frontFace: bool, material: M)

  /** `get_face_normal`: the front-face flag says whether the ray travels
      against the outward normal, and the shading normal is the outward normal
      turned to face the incoming ray. */
  function FaceNormal(r: Ray, outward: Vec3): (res: (bool, Vec3))
    ensures res.0 <==> Dot(r.direction, outward) < 0.0
    ensures res.1 == outward || res.1 == Neg(outward)
    ensures res.0 ==> res.1 == outward
    ensures Dot(r.direction, res.1) <= 0.0
  {
    var frontFace := Dot(r.direction, outward) < 0.0;
    (frontFace, if frontFace then outward else Neg(outward))
  }

  /** The closed set of `Model` implementations: spheres, lists of models
      (`Vec<Arc<dyn Model>>`) and BVH nodes with their precomputed box. */
  datatype Model<M> =
    | Sphere(center: Vec3, radius: real, material: M)
    | List(items: seq<Model<M>>)
    | Node(left: Model<M>, right: Model<M>, box: Aabbs.Aabb)

  // ---------------------------------------------------------------------
  // Sphere.

  /** The ray-sphere quadratic in `t`: `a = |d|^2`, `hf_b = oc . d` and
      `c = |oc|^2 - radius^2`, with `oc` the origin seen from the centre. */
  function SphereQuadratic(center: Vec3, radius: real, r: Ray): Quadratic {
    var oc := Sub(r.origin, center);
    Quadratic(LenSqr(r.direction), Dot(oc, r.direction), LenSqr(oc) - radius * radius)
  }

  /** The discriminant `hf_b^2 - a c` of that quadratic. */
  function Discriminant(center: Vec3, radius: real, r: Ray): real {
    Disc(SphereQuadratic(center, radius, r))
  }

  /** `p` lies on the sphere. */
  predicate OnSphere(center: Vec3, radius: real, p: Vec3) {
    LenSqr(Sub(p, center)) == radius * radius
  }

  /** A positive discriminant needs a moving ray and a non-zero radius, so the
      divisions by `a` and by `radius` in `Sphere::hit` are defined. */
  lemma PositiveDiscriminant(center: Vec3, radius: real, r: Ray)
    requires Discriminant(center, radius, r) > 0.0
    ensures LenSqr(r.direction) > 0.0 && radius != 0.0
  {
    var q := SphereQuadratic(center, radius, r);
    SphereCauchySchwarz(center, radius, r);
    PositiveDisc(q, radius * radius);
    SquareZero(radius);
    assert q.a == LenSqr(r.direction);
  }

  /** Cauchy-Schwarz for the ray-sphere quadratic: `hf_b^2 <= (c + radius^2) a`,
      where `c + radius^2` is `|oc|^2`. */
  lemma SphereCauchySchwarz(center: Vec3, radius: real, r: Ray)
    ensures CauchyBound(SphereQuadratic(center, radius, r), radius * radius)
  {
    CauchySchwarz(Sub(r.origin, center), r.direction);
    SquareZero(radius);
  }

  /** The record built for an accepted root `t`. */
  function SphereRecord<M>(center: Vec3, radius: real, material: M, r: Ray, t: real): (h: Hit<M>)
    requires radius != 0.0
  {
    var normals := FaceNormal(r, Div(Sub(At(r, t), center), radius));
    Hit(At(r, t), normals.1, t, normals.0, material)
  }

  /** The two roots `(-hf_b -/+ sqrt(disc)) / a` of the ray-sphere quadratic. */
  function Roots(sqrt: real -> real, center: Vec3, radius: real, r: Ray): (real, real)
    requires Discriminant(center, radius, r) > 0.0
  {
    PositiveDiscriminant(center, radius, r);
    QuadRoots(sqrt, SphereQuadratic(center, radius, r))
  }

  /** `Sphere::hit`: no hit unless the discriminant is positive (a tangent ray
      misses); otherwise the smaller root if it is at least `T_MIN`, else the
      larger root if that is, else no hit. There is no upper bound on `t`. */
  function SphereHit<M>(sqrt: real -> real, center: Vec3, radius: real, material: M, r: Ray)
    : (h: Option<Hit<M>>)
    ensures Discriminant(center, radius, r) <= 0.0 ==> h.None?
    ensures h.Some? ==> TMin() <= h.value.t
    ensures h.Some? ==> h.value.point == At(r, h.value.t) && h.value.material == material
  {
    if Discriminant(center, radius, r) > 0.0 then
      PositiveDiscriminant(center, radius, r);
      var (x, y) := Roots(sqrt, center, radius, r);
      if x >= TMin() then Some(SphereRecord(center, radius, material, r, x))
      else if y >= TMin() then Some(SphereRecord(center, radius, material, r, y))
      else None
    else None
  }

  /** A hit is at the smaller root whenever that root clears `T_MIN`. */
  lemma SphereHitAtSmallerRoot<M>(sqrt: real -> real, center: Vec3, radius: real, material: M, r: Ray,
                                  x: real, y: real)
    requires Discriminant(center, radius, r) > 0.0
    requires Roots(sqrt, center, radius, r) == (x, y) && TMin() <= x
    ensures SphereHit(sqrt, center, radius, material, r).Some?
    ensures SphereHit(sqrt, center, radius, material, r).value.t == x
  {
  }

  function TMin(): real {
    Aabbs.TMin
  }

  /** Distance-squared along the ray, expanded as the quadratic in `s`. */
  lemma DistanceQuadratic(center: Vec3, radius: real, r: Ray, s: real)
    ensures LenSqr(Sub(At(r, s), center)) - radius * radius == Eval(SphereQuadratic(center, radius, r), s)
  {
    var oc, d := Sub(r.origin, center), r.direction;
    var q := Quadratic(LenSqr(d), Dot(oc, d), LenSqr(oc));
    assert Sub(At(r, s), center) == Add(oc, Scale(s, d));
    LenSqrAlong(oc, d, s);
    EvalShift(q, radius * radius, s);
  }

  /** A point of the ray is on the sphere exactly when its parameter solves
      the quadratic. */
  lemma OnSphereQuadratic(center: Vec3, radius: real, r: Ray, s: real)
    ensures OnSphere(center, radius, At(r, s)) <==> Eval(SphereQuadratic(center, radius, r), s) == 0.0
  {
    DistanceQuadratic(center, radius, r, s);
  }

  /** With a positive discriminant the points of the ray on the sphere are
      exactly the two roots, the first no larger than the second. */
  lemma SphereRoots(sqrt: real -> real, center: Vec3, radius: real, r: Ray, s: real)
    requires Discriminant(center, radius, r) > 0.0
    requires IsSqrtAt(sqrt, Discriminant(center, radius, r))
    ensures Roots(sqrt, center, radius, r).0 <= Roots(sqrt, center, radius, r).1
    ensures OnSphere(center, radius, At(r, s)) <==>
      s == Roots(sqrt, center, radius, r).0 || s == Roots(sqrt, center, radius, r).1
  {
    PositiveDiscriminant(center, radius, r);
    OnSphereQuadratic(center, radius, r, s);
    QuadRootsSpec(sqrt, SphereQuadratic(center, radius, r), s);
  }

  /** `Sphere::hit` returns the least point of the ray on the sphere with
      `t >= T_MIN`, and misses exactly when the ray is tangent, misses the
      sphere, or meets it only before `T_MIN`. A returned normal has unit
      length, and it opposes the ray. */
  lemma SphereHitIsLeastRoot<M>(sqrt: real -> real, center: Vec3, radius: real, material: M, r: Ray)
    requires IsSqrt(sqrt)
    ensures var h := SphereHit(sqrt, center, radius, material, r);
      && (h.None? <==> Discriminant(center, radius, r) <= 0.0
                       || forall s :: TMin() <= s ==> !OnSphere(center, radius, At(r, s)))
      && (h.Some? ==> OnSphere(center, radius, h.value.point))
      && (h.Some? ==> forall s :: TMin() <= s && OnSphere(center, radius, At(r, s)) ==> h.value.t <= s)
      && (h.Some? ==> LenSqr(h.value.normal) == 1.0 && Dot(r.direction, h.value.normal) <= 0.0)
  {
    var h := SphereHit(sqrt, center, radius, material, r);
    if Discriminant(center, radius, r) > 0.0 {
      PositiveDiscriminant(center, radius, r);
      var (x, y) := Roots(sqrt, center, radius, r);
      forall s | true
        ensures OnSphere(center, radius, At(r, s)) <==> s == x || s == y
      {
        SphereRoots(sqrt, center, radius, r, s);
      }
      SphereRoots(sqrt, center, radius, r, x);
      if h.Some? {
        SphereNormalIsUnit(center, radius, At(r, h.value.t));
      }
    }
  }

  /** The outward normal `(p - center) / radius` of a point on the sphere has
      unit length. */
  lemma SphereNormalIsUnit(center: Vec3, radius: real, p: Vec3)
    requires radius != 0.0 && OnSphere(center, radius, p)
    ensures LenSqr(Div(Sub(p, center), radius)) == 1.0
    ensures LenSqr(Neg(Div(Sub(p, center), radius))) == 1.0
  {
    var k := 1.0 / radius;
    LenSqrScale(k, Sub(p, center));
    assert Div(Sub(p, center), radius) == Scale(k, Sub(p, center));
    assert k * k * (radius * radius) == 1.0;
    LenSqrScale(-k, Sub(p, center));
    assert Neg(Div(Sub(p, center), radius)) == Scale(-k, Sub(p, center));
  }

  /** `Sphere::bounding_box`: the centre plus and minus the radius on every
      axis. For a non-negative radius the box is ordered. */
  function SphereBox(center: Vec3, radius: real): (b: Aabbs.Aabb)
    ensures 0.0 <= radius ==> Aabbs.Valid(b)
  {
    var extent := Vec3(radius, radius, radius);
    Aabbs.Aabb(Sub(center, extent), Add(center, extent))
  }

  /** For a non-negative radius the sphere's box holds every point of the
      sphere. */
  lemma SphereBoxEncloses(center: Vec3, radius: real, p: Vec3)
    requires 0.0 <= radius && OnSphere(center, radius, p)
    ensures Aabbs.Inside(SphereBox(center, radius), p)
  {
    SpherePointNearCentre(center, radius, p);
  }

  /** Every coordinate of a point on a sphere is within the radius of the
      centre's. */
  lemma SpherePointNearCentre(center: Vec3, radius: real, p: Vec3)
    requires 0.0 <= radius && OnSphere(center, radius, p)
    ensures center.x - radius <= p.x <= center.x + radius
    ensures center.y - radius <= p.y <= center.y + radius
    ensures center.z - radius <= p.z <= center.z + radius
  {
    var w := Sub(p, center);
    SquareZero(w.x);
    SquareZero(w.y);
    SquareZero(w.z);
    SquareBound(w.x, radius);
    SquareBound(w.y, radius);
    SquareBound(w.z, radius);
  }

  // ---------------------------------------------------------------------
  // Dispatch over all models.

  /** `Model::hit` for every kind of model. A node tests its box, then its left
      child, and returns the left hit whenever there is one; only when the left
      child misses is the right child consulted. */
  function HitModel<M>(sqrt: real -> real, m: Model<M>, r: Ray): Option<Hit<M>>
    decreases m
  {
    match m
    case Sphere(center, radius, material) => SphereHit(sqrt, center, radius, material, r)
    case List(items) => Closest(ChildHits(sqrt, items, r))
    case Node(left, right, box) =>
      if Aabbs.Hit(box, r) then
        var leftHit := HitModel(sqrt, left, r);
        if leftHit.Some? then leftHit else HitModel(sqrt, right, r)
      else None
  }

  /** The hit of every child of a list, in order. */
  function ChildHits<M>(sqrt: real -> real, items: seq<Model<M>>, r: Ray)
    : (hs: seq<Option<Hit<M>>>)
    ensures |hs| == |items|
    ensures forall i :: 0 <= i < |items| ==> hs[i] == HitModel(sqrt, items[i], r)
    decreases items
  {
    seq(|items|, i requires 0 <= i < |items| => HitModel(sqrt, items[i], r))
  }

  /** One step of the list's loop: a new hit replaces the best so far only if
      there is none yet or its `t` is strictly smaller. */
  function Closer<M>(best: Option<Hit<M>>, h: Option<Hit<M>>): Option<Hit<M>> {
    match h
    case None => best
    case Some(hit) => if best.None? || hit.t < best.value.t then h else best
  }

  /** `closest_so_far` after the loop over `hs`. */
  function Closest<M>(hs: seq<Option<Hit<M>>>): Option<Hit<M>> {
    if |hs| == 0 then None else Closer(Closest(hs[..|hs| - 1]), hs[|hs| - 1])
  }

  /** Index `i` holds the hit with the least `t`, and no earlier hit ties it. */
  ghost predicate FirstNearest<M>(hs: seq<Option<Hit<M>>>, i: int) {
    && 0 <= i < |hs| && hs[i].Some?
    && (forall j :: 0 <= j < |hs| && hs[j].Some? ==> hs[i].value.t <= hs[j].value.t)
    && (forall j :: 0 <= j < i && hs[j].Some? ==> hs[i].value.t < hs[j].value.t)
  }

  /** The list's loop finds no hit exactly when no child is hit, and otherwise
      returns the nearest child hit, the earliest child winning a tie because
      the comparison is strict. */
  lemma {:induction false} ClosestIsFirstNearest<M>(hs: seq<Option<Hit<M>>>)
    ensures Closest(hs).None? <==> forall i :: 0 <= i < |hs| ==> hs[i].None?
    ensures Closest(hs).Some? ==> exists i :: FirstNearest(hs, i) && hs[i] == Closest(hs)
  {
    if |hs| > 0 {
      var n := |hs| - 1;
      var prefix := hs[..n];
      ClosestIsFirstNearest(prefix);
      var best := Closest(prefix);
      var last := hs[n];
      assert Closest(hs) == Closer(best, last);
      assert forall j :: 0 <= j < n ==> prefix[j] == hs[j];
      if last.Some? && (best.None? || last.value.t < best.value.t) {
        LastIsFirstNearest(hs, best);
      } else if best.Some? {
        var i :| FirstNearest(prefix, i) && prefix[i] == best;
        EarlierIsFirstNearest(hs, i);
      }
    }
  }

  /** For two hits the loop keeps the first unless the second is strictly
      nearer: it misses only if both miss, and otherwise returns one of them
      that is no farther than the other. */
  lemma ClosestOfTwo<M>(l: Option<Hit<M>>, g: Option<Hit<M>>)
    ensures var h := Closest([l, g]);
      && (h.None? <==> l.None? && g.None?)
      && (h.Some? ==> h == l || h == g)
      && (h.Some? && l.Some? ==> h.value.t <= l.value.t)
      && (h.Some? && g.Some? ==> h.value.t <= g.value.t)
  {
    assert Closest([l]) == Closer(None, l) by { assert [l][..0] == []; }
    assert Closest([l, g]) == Closer(Closest([l]), g) by { assert [l, g][..1] == [l]; }
  }

  /** A last hit that beats the nearest earlier one (or has none to beat) is
      the first nearest. */
  lemma LastIsFirstNearest<M>(hs: seq<Option<Hit<M>>>, best: Option<Hit<M>>)
    requires |hs| > 0 && hs[|hs| - 1].Some?
    requires best.None? ==> forall j :: 0 <= j < |hs| - 1 ==> hs[j].None?
    requires best.Some? ==> hs[|hs| - 1].value.t < best.value.t
    requires best.Some? ==> forall j :: 0 <= j < |hs| - 1 && hs[j].Some? ==> best.value.t <= hs[j].value.t
    ensures FirstNearest(hs, |hs| - 1)
  {
  }

  /** A first nearest hit of the prefix stays first nearest when the last hit
      does not beat it. */
  lemma EarlierIsFirstNearest<M>(hs: seq<Option<Hit<M>>>, i: nat)
    requires |hs| > 0 && FirstNearest(hs[..|hs| - 1], i)
    requires hs[|hs| - 1].Some? ==> hs[i].value.t <= hs[|hs| - 1].value.t
    ensures FirstNearest(hs, i)
  {
    var prefix := hs[..|hs| - 1];
    assert forall j :: 0 <= j < |hs| - 1 ==> prefix[j] == hs[j];
  }

  /** Keeping the earlier of two equally near hits makes the step
      associative: the first nearest of three is the same however they are
      grouped. */
  lemma CloserAssociative<M>(x: Option<Hit<M>>, y: Option<Hit<M>>, z: Option<Hit<M>>)
    ensures Closer(Closer(x, y), z) == Closer(x, Closer(y, z))
  {
  }

  /** The nearest hit of a concatenation is the nearer of the two parts'
      nearest hits, the first part winning a tie. */
  lemma {:induction false} ClosestAppend<M>(a: seq<Option<Hit<M>>>, b: seq<Option<Hit<M>>>)
    ensures Closest(a + b) == Closer(Closest(a), Closest(b))
    decreases |b|
  {
    if |b| == 0 {
      assert a + b == a;
    } else {
      var n := |b| - 1;
      assert (a + b)[..|a + b| - 1] == a + b[..n];
      ClosestAppend(a, b[..n]);
      CloserAssociative(Closest(a), Closest(b[..n]), b[n]);
    }
  }

  /** The nearest of a pair is their `Closer`. */
  lemma ClosestPair<M>(x: Option<Hit<M>>, y: Option<Hit<M>>)
    ensures Closest([x, y]) == Closer(x, y)
  {
    assert Closest([x]) == Closer(None, x) by { assert [x][..0] == []; }
    assert Closest([x, y]) == Closer(Closest([x]), y) by { assert [x, y][..1] == [x]; }
  }

  /** The aggregate's hit: nearest child hit, earliest on ties, none iff no
      child is hit. */
  lemma ListHitIsNearest<M>(sqrt: real -> real, items: seq<Model<M>>, r: Ray)
    ensures var h := HitModel(sqrt, List(items), r);
      var hs := ChildHits(sqrt, items, r);
      && (h.None? <==> forall i :: 0 <= i < |items| ==> HitModel(sqrt, items[i], r).None?)
      && (h.Some? ==> exists i :: FirstNearest(hs, i) && HitModel(sqrt, items[i], r) == h)
  {
    ClosestIsFirstNearest(ChildHits(sqrt, items, r));
  }

  /** Every sphere of the model has a material satisfying `P`. */
  ghost predicate AllMaterials<M>(m: Model<M>, P: M -> bool)
    decreases m
  {
    match m
    case Sphere(_, _, material) => P(material)
    case List(items) => forall i :: 0 <= i < |items| ==> AllMaterials(items[i], P)
    case Node(left, right, _) => AllMaterials(left, P) && AllMaterials(right, P)
  }

  /** A hit carries the material of one of the model's spheres. */
  lemma {:induction false} HitMaterial<M>(sqrt: real -> real, m: Model<M>, r: Ray, P: M -> bool)
    requires AllMaterials(m, P)
    ensures HitModel(sqrt, m, r).Some? ==> P(HitModel(sqrt, m, r).value.material)
    decreases m
  {
    match m
    case Sphere(_, _, _) =>
    case List(items) =>
      if HitModel(sqrt, m, r).Some? {
        ListHitIsNearest(sqrt, items, r);
        var i :| 0 <= i < |items| && HitModel(sqrt, items[i], r) == HitModel(sqrt, m, r);
        HitMaterial(sqrt, items[i], r, P);
      }
    case Node(left, right, _) =>
      HitMaterial(sqrt, left, r, P);
      HitMaterial(sqrt, right, r, P);
  }

  // ---------------------------------------------------------------------
  // Bounding boxes.

  /** `Model::bounding_box` for every kind of model; a node returns the box it
      stored at construction. Only a list can be without a box. */
  function BoundingBox<M>(m: Model<M>): (b: Option<Aabbs.Aabb>)
    ensures b.None? ==> m.List?
    decreases m
  {
    match m
    case Sphere(center, radius, _) => Some(SphereBox(center, radius))
    case List(items) => ListBox(ChildBoxes(items))
    case Node(_, _, box) => Some(box)
  }

  /** The box `bounding_box` gives a sphere of non-negative radius holds
      every point of the sphere. */
  lemma SphereBoundingBox<M>(m: Model<M>, p: Vec3)
    requires m.Sphere? && 0.0 <= m.radius && OnSphere(m.center, m.radius, p)
    ensures BoundingBox(m).Some? && Aabbs.Inside(BoundingBox(m).value, p)
  {
    SphereBoxEncloses(m.center, m.radius, p);
  }

  /** The box of every child of a list, in order. */
  function ChildBoxes<M>(items: seq<Model<M>>): (bs: seq<Option<Aabbs.Aabb>>)
    ensures |bs| == |items|
    ensures forall i :: 0 <= i < |items| ==> bs[i] == BoundingBox(items[i])
    decreases items
  {
    seq(|items|, i requires 0 <= i < |items| => BoundingBox(items[i]))
  }

  /** State of the box loop: before the first child (`first_box`), the union so
      far, or stopped at a child without a box. */
  datatype BoxLoop = First | Union(box: Aabbs.Aabb) | Unbounded

  /** The box loop after the children `bs`. */
  function BoxLoopAfter(bs: seq<Option<Aabbs.Aabb>>): BoxLoop {
    if |bs| == 0 then First
    else
      var last := bs[|bs| - 1];
      match BoxLoopAfter(bs[..|bs| - 1])
      case Unbounded => Unbounded
      case First => if last.Some? then Union(last.value) else Unbounded
      case Union(b) => if last.Some? then Union(Aabbs.Surrounding(b, last.value)) else Unbounded
  }

  /** The list's `bounding_box`: none for an empty list, none as soon as a
      child has none, otherwise the union of the children's boxes. */
  function ListBox(bs: seq<Option<Aabbs.Aabb>>): Option<Aabbs.Aabb> {
    if |bs| == 0 then None
    else match BoxLoopAfter(bs)
      case Union(b) => Some(b)
      case _ => None
  }

  /** Every child has a box, and `b` contains all of them. */
  ghost predicate EnclosesAll(b: Aabbs.Aabb, bs: seq<Option<Aabbs.Aabb>>) {
    forall i :: 0 <= i < |bs| ==> bs[i].Some? && Aabbs.Contains(b, bs[i].value)
  }

  lemma {:induction false} BoxLoopInvariant(bs: seq<Option<Aabbs.Aabb>>)
    ensures BoxLoopAfter(bs).First? <==> |bs| == 0
    ensures BoxLoopAfter(bs).Unbounded? <==> exists i :: 0 <= i < |bs| && bs[i].None?
    ensures BoxLoopAfter(bs).Union? ==> EnclosesAll(BoxLoopAfter(bs).box, bs)
    ensures BoxLoopAfter(bs).Union? ==>
      forall c :: EnclosesAll(c, bs) ==> Aabbs.Contains(c, BoxLoopAfter(bs).box)
  {
    if |bs| > 0 {
      var n := |bs| - 1;
      var prefix := bs[..n];
      BoxLoopInvariant(prefix);
      assert forall j :: 0 <= j < n ==> prefix[j] == bs[j];
      assert forall c :: EnclosesAll(c, bs) ==> EnclosesAll(c, prefix);
      match BoxLoopAfter(prefix)
      case Unbounded =>
        var i :| 0 <= i < n && prefix[i].None?;
        assert bs[i].None?;
      case First =>
        if bs[n].None? {
          assert exists i :: 0 <= i < |bs| && bs[i].None?;
        }
      case Union(b) =>
        if bs[n].None? {
          assert exists i :: 0 <= i < |bs| && bs[i].None?;
        } else {
          var s := Aabbs.Surrounding(b, bs[n].value);
          forall i | 0 <= i < |bs|
            ensures bs[i].Some? && Aabbs.Contains(s, bs[i].value)
          {
            if i < n {
              Aabbs.ContainsTransitive(s, b, bs[i].value, Zero);
            }
          }
          forall c | EnclosesAll(c, bs)
            ensures Aabbs.Contains(c, s)
          {
            assert EnclosesAll(c, prefix);
            Aabbs.SurroundingIsLeast(b, bs[n].value, c);
          }
        }
    }
  }

  /** The list box is none exactly for an empty list or when some child has no
      box; otherwise it contains every child's box and is the least box that
      does, and a one-element list yields its child's box. */
  lemma ListBoxSpec(bs: seq<Option<Aabbs.Aabb>>)
    ensures ListBox(bs).None? <==> |bs| == 0 || exists i :: 0 <= i < |bs| && bs[i].None?
    ensures ListBox(bs).Some? ==> EnclosesAll(ListBox(bs).value, bs)
    ensures ListBox(bs).Some? ==>
      forall c :: EnclosesAll(c, bs) ==> Aabbs.Contains(c, ListBox(bs).value)
    ensures |bs| == 1 && bs[0].Some? ==> ListBox(bs) == bs[0]
  {
    BoxLoopInvariant(bs);
    if |bs| == 1 {
      assert bs[..0] == [];
    }
  }
}
