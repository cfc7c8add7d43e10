/** The older intersection code of src/types/solid_object.rs: hit records
    whose shading normal is turned with the x-only negation of the older
    `Vec3`, a sphere hit bounded by an open interval `(t_min, t_max)`, and a
    `Vec<Box<dyn SolidObject>>` whose loop narrows `closest_so_far`.

    `HitRecResult` is `Option<Hit<M>>` (`Miss` is `None`), and the record is
    the newer `Hit`: both carry point, normal, `t`, front-face flag and
    material. The older `Ray` (src/types/ray.rs is not part of this model) is
    taken to be the newer one, `at(t) = origin + t direction`. */
module OldSolids {
  import opened Num
  import opened Options
  import opened Vectors
  import Models
  import OldVectors

  /** A `SolidObject`: a sphere, or a vector of boxed solids. */
  datatype Solid<M> =
    | Sphere(center: Vec3, radius: real, material: M)
    | Group(items: seq<Solid<M>>)

  // ---------------------------------------------------------------------
  // Face normal.

  /** `set_face_normal`: the front-face flag says whether the ray travels
      against the outward normal (through the older, index-based dot
      product); a back face gets the older negation of the outward normal,
      which flips only its x component. */
  function SetFaceNormal(r: Ray, outward: Vec3): (res: (bool, Vec3))
    ensures res.0 <==> Dot(r.direction, outward) < 0.0
    ensures res.0 ==> res.1 == outward
    ensures !res.0 ==> res.1.x == -outward.x && res.1.y == outward.y && res.1.z == outward.z
  {
    OldVectors.DotAgrees(r.direction, outward);
    var frontFace := OldVectors.Dot(r.direction, outward) < 0.0;
    (frontFace, if frontFace then outward else OldVectors.Neg(outward))
  }

  /** The older flag agrees with the newer `get_face_normal`, and so does
      the normal exactly when the ray meets a front face or the outward
      normal lies on the x axis. */
  lemma SetFaceNormalAgrees(r: Ray, outward: Vec3)
    ensures SetFaceNormal(r, outward).0 == Models.FaceNormal(r, outward).0
    ensures SetFaceNormal(r, outward) == Models.FaceNormal(r, outward) <==>
      Dot(r.direction, outward) < 0.0 || (outward.y == 0.0 && outward.z == 0.0)
  {
    OldVectors.NegAsWritten(outward);
  }

  /** The input that shows the difference: a ray leaving through a back face
      whose outward normal has no x component (say direction and outward
      normal both `(0, 1, 0)`) keeps the outward normal as its shading
      normal, which then points along the ray instead of against it. */
  lemma BackFaceNormalFollowsRay(r: Ray, outward: Vec3)
    requires outward.x == 0.0 && Dot(r.direction, outward) > 0.0
    ensures !SetFaceNormal(r, outward).0
    ensures SetFaceNormal(r, outward).1 == outward
    ensures Dot(r.direction, SetFaceNormal(r, outward).1) > 0.0
  {
  }

  // ---------------------------------------------------------------------
  // Sphere.

  /** The ray-sphere quadratic written with the older products: `a` and
      `c` through the older `len_sqr`, `hf_b` through the older dot product,
      `radius.pow(2)` as `radius * radius`. */
  function OldSphereQuadratic(center: Vec3, radius: real, r: Ray): (q: Quadratic)
  {
    var oc := Sub(r.origin, center);
    Quadratic(OldVectors.LenSqr(r.direction), OldVectors.Dot(oc, r.direction),
              OldVectors.LenSqr(oc) - radius * radius)
  }

  /** It is the newer quadratic, so the newer roots and their properties
      apply. */
  lemma QuadraticAgrees(center: Vec3, radius: real, r: Ray)
    ensures OldSphereQuadratic(center, radius, r) == Models.SphereQuadratic(center, radius, r)
  {
    var oc := Sub(r.origin, center);
    OldVectors.LenSqrAgrees(r.direction);
    OldVectors.LenSqrAgrees(oc);
    OldVectors.DotAgrees(oc, r.direction);
  }

  /** The record for an accepted root `t`: the point `r.at(t)`, the outward
      normal `(point - center) / radius` turned by `set_face_normal`. */
  function SphereRecord<M>(center: Vec3, radius: real, material: M, r: Ray, t: real): (h: Models.Hit<M>)
    requires radius != 0.0
    ensures h.t == t && h.point == At(r, t) && h.material == material
  {
    var normals := SetFaceNormal(r, Div(Sub(At(r, t), center), radius));
    Models.Hit(At(r, t), normals.1, t, normals.0, material)
  }

  /** `Sphere::hit(r, t_min, t_max)`: a miss unless the discriminant is
      positive; otherwise the smaller root if it lies strictly inside
      `(t_min, t_max)`, else the larger root if that does, else a miss. */
  function SphereHit<M>(sqrt: real -> real, center: Vec3, radius: real, material: M, r: Ray,
                        tMin: real, tMax: real): (h: Option<Models.Hit<M>>)
    ensures Models.Discriminant(center, radius, r) <= 0.0 ==> h.None?
    ensures h.Some? ==> tMin < h.value.t < tMax
    ensures h.Some? ==> h.value.point == At(r, h.value.t) && h.value.material == material
  {
    QuadraticAgrees(center, radius, r);
    if Disc(OldSphereQuadratic(center, radius, r)) > 0.0 then
      Models.PositiveDiscriminant(center, radius, r);
      var (x, y) := Models.Roots(sqrt, center, radius, r);
      if x < tMax && x > tMin then Some(SphereRecord(center, radius, material, r, x))
      else if y < tMax && y > tMin then Some(SphereRecord(center, radius, material, r, y))
      else None
    else None
  }

  /** A sphere hit is the least point of the ray on the sphere strictly
      inside `(t_min, t_max)`, and the sphere misses exactly when the ray is
      tangent, misses it, or meets it only outside that interval. The shading
      normal has unit length, since the x-only negation keeps length. */
  lemma SphereHitIsLeastRoot<M>(sqrt: real -> real, center: Vec3, radius: real, material: M, r: Ray,
                                tMin: real, tMax: real)
    requires IsSqrt(sqrt)
    ensures var h := SphereHit(sqrt, center, radius, material, r, tMin, tMax);
      && (h.None? <==> Models.Discriminant(center, radius, r) <= 0.0
                       || forall s :: tMin < s < tMax ==> !Models.OnSphere(center, radius, At(r, s)))
      && (h.Some? ==> Models.OnSphere(center, radius, h.value.point))
      && (h.Some? ==> forall s :: tMin < s < tMax && Models.OnSphere(center, radius, At(r, s)) ==> h.value.t <= s)
      && (h.Some? ==> LenSqr(h.value.normal) == 1.0)
  {
    var h := SphereHit(sqrt, center, radius, material, r, tMin, tMax);
    if Models.Discriminant(center, radius, r) > 0.0 {
      Models.PositiveDiscriminant(center, radius, r);
      var (x, y) := Models.Roots(sqrt, center, radius, r);
      RootsAreThePoints(sqrt, center, radius, r, x, y);
      var t := if h.Some? then h.value.t else 0.0;
      SphereHitPicks(sqrt, center, radius, material, r, tMin, tMax, x, y);
      PickIsLeast(x, y, tMin, tMax, h.Some?, t, s => Models.OnSphere(center, radius, At(r, s)));
      if h.Some? {
        RecordNormalIsUnit(center, radius, material, r, h.value);
      }
    }
  }

  /** Which root `Sphere::hit` picks, and the record it builds there. */
  lemma SphereHitPicks<M>(sqrt: real -> real, center: Vec3, radius: real, material: M, r: Ray,
                          tMin: real, tMax: real, x: real, y: real)
    requires Models.Discriminant(center, radius, r) > 0.0
    requires Models.Roots(sqrt, center, radius, r) == (x, y)
    ensures var h := SphereHit(sqrt, center, radius, material, r, tMin, tMax);
      && (h.Some? ==> (h.value.t == x && tMin < x < tMax) || (h.value.t == y && tMin < y < tMax && !(tMin < x < tMax)))
      && (h.None? ==> !(tMin < x < tMax) && !(tMin < y < tMax))
      && radius != 0.0
      && (h.Some? ==> h.value == SphereRecord(center, radius, material, r, h.value.t))
  {
    QuadraticAgrees(center, radius, r);
    Models.PositiveDiscriminant(center, radius, r);
  }

  /** With a positive discriminant the two roots are the points of the ray
      on the sphere, in order. */
  lemma RootsAreThePoints(sqrt: real -> real, center: Vec3, radius: real, r: Ray, x: real, y: real)
    requires IsSqrt(sqrt) && Models.Discriminant(center, radius, r) > 0.0
    requires Models.Roots(sqrt, center, radius, r) == (x, y)
    ensures x <= y
    ensures forall s :: Models.OnSphere(center, radius, At(r, s)) <==> s == x || s == y
  {
    forall s | true
      ensures Models.OnSphere(center, radius, At(r, s)) <==> s == x || s == y
    {
      Models.SphereRoots(sqrt, center, radius, r, s);
    }
    Models.SphereRoots(sqrt, center, radius, r, x);
  }

  /** A record at a point of the sphere has a unit shading normal. */
  lemma RecordNormalIsUnit<M>(center: Vec3, radius: real, material: M, r: Ray, h: Models.Hit<M>)
    requires radius != 0.0 && Models.OnSphere(center, radius, At(r, h.t))
    requires h == SphereRecord(center, radius, material, r, h.t)
    ensures LenSqr(h.normal) == 1.0
  {
    Models.SphereNormalIsUnit(center, radius, At(r, h.t));
    OldNegKeepsLength(Div(Sub(At(r, h.t), center), radius));
  }

  /** Picking the first of two ordered roots that lies inside the interval
      picks the least root inside it, and picks none only when no root lies
      inside. */
  lemma PickIsLeast(x: real, y: real, tMin: real, tMax: real, found: bool, t: real, on: real -> bool)
    requires x <= y && forall s :: on(s) <==> s == x || s == y
    requires found ==> (t == x && tMin < x < tMax) || (t == y && tMin < y < tMax && !(tMin < x < tMax))
    requires !found ==> !(tMin < x < tMax) && !(tMin < y < tMax)
    ensures !found <==> forall s :: tMin < s < tMax ==> !on(s)
    ensures found ==> on(t) && forall s :: tMin < s < tMax && on(s) ==> t <= s
  {
    if found {
      assert on(t);
    }
  }

  /** The x-only negation keeps the squared length. */
  lemma OldNegKeepsLength(v: Vec3)
    ensures LenSqr(OldVectors.Neg(v)) == LenSqr(v)
  {
  }

  // ---------------------------------------------------------------------
  // Aggregate.

  /** `SolidObject::hit` for every solid. */
  function HitSolid<M>(sqrt: real -> real, s: Solid<M>, r: Ray, tMin: real, tMax: real): (h: Option<Models.Hit<M>>)
    ensures h.Some? ==> tMin < h.value.t < tMax
    decreases s, 1
  {
    match s
    case Sphere(center, radius, material) => SphereHit(sqrt, center, radius, material, r, tMin, tMax)
    case Group(items) => GroupHit(sqrt, items, r, tMin, tMax)
  }

  /** The loop of the `Vec` implementation: `hre` starts as `Miss` and
      `closest_so_far` as `t_max`. */
  function GroupHit<M>(sqrt: real -> real, items: seq<Solid<M>>, r: Ray, tMin: real, tMax: real)
    : (h: Option<Models.Hit<M>>)
    ensures h.Some? ==> tMin < h.value.t < tMax
    decreases items, 2
  {
    GroupFrom(sqrt, items, r, tMin, tMax, None)
  }

  /** The rest of that loop over `items`, from `closest_so_far = closest`
      and `hre = best`: each item is asked for a hit inside `(t_min,
      closest_so_far)`, and a hit becomes the new result and narrows the
      bound to its `t`. */
  function GroupFrom<M>(sqrt: real -> real, items: seq<Solid<M>>, r: Ray, tMin: real, closest: real,
                        best: Option<Models.Hit<M>>): (h: Option<Models.Hit<M>>)
    requires best.Some? ==> tMin < best.value.t
    ensures h.Some? ==> tMin < h.value.t
    ensures h.Some? && h != best ==> h.value.t < closest
    decreases items, 0
  {
    if |items| == 0 then best
    else
      match HitSolid(sqrt, items[0], r, tMin, closest)
      case Some(hit) => GroupFrom(sqrt, items[1..], r, tMin, hit.t, Some(hit))
      case None => GroupFrom(sqrt, items[1..], r, tMin, closest, best)
  }

  /** Every item's hit inside the whole interval `(t_min, t_max)`. */
  function Hits<M>(sqrt: real -> real, items: seq<Solid<M>>, r: Ray, tMin: real, tMax: real)
    : (hs: seq<Option<Models.Hit<M>>>)
    ensures |hs| == |items|
    ensures forall i :: 0 <= i < |items| ==> hs[i] == HitSolid(sqrt, items[i], r, tMin, tMax)
  {
    seq(|items|, i requires 0 <= i < |items| => HitSolid(sqrt, items[i], r, tMin, tMax))
  }

  /** A hit kept only if it lies before `c`. */
  function Narrow<M>(h: Option<Models.Hit<M>>, c: real): (n: Option<Models.Hit<M>>)
    ensures n.Some? <==> h.Some? && h.value.t < c
    ensures n.Some? ==> n == h
  {
    if h.Some? && h.value.t < c then h else None
  }

  /** The bound the loop holds for a result so far. */
  function Bound<M>(best: Option<Models.Hit<M>>, tMax: real): real {
    if best.Some? then best.value.t else tMax
  }

  /** Narrowing the upper end of the interval to `c <= t_max` keeps a
      sphere's hit if it lies before `c` and loses it otherwise: the hit is
      the least root in the interval, so no other root takes its place. */
  lemma SphereNarrows<M>(sqrt: real -> real, center: Vec3, radius: real, material: M, r: Ray,
                         tMin: real, tMax: real, c: real)
    requires IsSqrt(sqrt) && c <= tMax
    ensures SphereHit(sqrt, center, radius, material, r, tMin, c)
      == Narrow(SphereHit(sqrt, center, radius, material, r, tMin, tMax), c)
  {
    if Models.Discriminant(center, radius, r) > 0.0 {
      Models.PositiveDiscriminant(center, radius, r);
      Models.SphereRoots(sqrt, center, radius, r, 0.0);
    }
  }

  /** One step of the loop never passes a later hit at the same `t`: on
      the hits over the whole interval it is the newer list's `Closer`. */
  lemma StepIsCloser<M>(best: Option<Models.Hit<M>>, full: Option<Models.Hit<M>>, tMax: real)
    requires best.Some? ==> best.value.t <= tMax
    requires full.Some? ==> full.value.t < tMax
    ensures Narrow(full, Bound(best, tMax)).Some? ==> Models.Closer(best, full) == full
    ensures Narrow(full, Bound(best, tMax)).None? ==> Models.Closer(best, full) == best
  {
  }

  /** The nearest hit of a list with one more hit in front. */
  lemma ClosestCons<M>(h: Option<Models.Hit<M>>, rest: seq<Option<Models.Hit<M>>>)
    ensures Models.Closest([h] + rest) == Models.Closer(h, Models.Closest(rest))
  {
    Models.ClosestAppend([h], rest);
    assert [h][..0] == [];
    assert Models.Closest([h]) == Models.Closer(Models.Closest([]), h);
  }

  /** The hits of the items after the first. */
  lemma HitsTail<M>(sqrt: real -> real, items: seq<Solid<M>>, r: Ray, tMin: real, tMax: real)
    requires |items| > 0
    ensures Hits(sqrt, items, r, tMin, tMax)
      == [HitSolid(sqrt, items[0], r, tMin, tMax)] + Hits(sqrt, items[1..], r, tMin, tMax)
  {
    var hs := Hits(sqrt, items, r, tMin, tMax);
    var rest := Hits(sqrt, items[1..], r, tMin, tMax);
    assert forall i :: 0 <= i < |rest| ==> rest[i] == hs[i + 1];
    assert hs == [hs[0]] + hs[1..];
  }

  /** The loop from a result so far is that result's `Closer` with the
      nearest hit of the remaining items over the whole interval. */
  lemma {:induction false} GroupFromIsCloser<M>(sqrt: real -> real, items: seq<Solid<M>>, r: Ray,
                                                tMin: real, tMax: real, best: Option<Models.Hit<M>>)
    requires IsSqrt(sqrt)
    requires best.Some? ==> tMin < best.value.t <= tMax
    ensures GroupFrom(sqrt, items, r, tMin, Bound(best, tMax), best)
      == Models.Closer(best, Models.Closest(Hits(sqrt, items, r, tMin, tMax)))
    decreases items, 0
  {
    var hs := Hits(sqrt, items, r, tMin, tMax);
    if |items| == 0 {
      assert hs == [];
    } else {
      var full := HitSolid(sqrt, items[0], r, tMin, tMax);
      var c := Bound(best, tMax);
      SolidNarrows(sqrt, items[0], r, tMin, tMax, c);
      StepIsCloser(best, full, tMax);
      var next := Models.Closer(best, full);
      assert GroupFrom(sqrt, items, r, tMin, c, best)
        == GroupFrom(sqrt, items[1..], r, tMin, Bound(next, tMax), next);
      GroupFromIsCloser(sqrt, items[1..], r, tMin, tMax, next);
      var rest := Hits(sqrt, items[1..], r, tMin, tMax);
      HitsTail(sqrt, items, r, tMin, tMax);
      ClosestCons(full, rest);
      Models.CloserAssociative(best, full, Models.Closest(rest));
    }
  }

  /** Narrowing the interval narrows every solid's hit: for a sphere because
      its hit is the least root, for a vector because its hit is the nearest
      of its items' hits. */
  lemma {:induction false} SolidNarrows<M>(sqrt: real -> real, s: Solid<M>, r: Ray, tMin: real, tMax: real, c: real)
    requires IsSqrt(sqrt) && c <= tMax
    ensures HitSolid(sqrt, s, r, tMin, c) == Narrow(HitSolid(sqrt, s, r, tMin, tMax), c)
    decreases s, 1
  {
    match s
    case Sphere(center, radius, material) =>
      SphereNarrows(sqrt, center, radius, material, r, tMin, tMax, c);
    case Group(items) =>
      GroupNarrows(sqrt, items, r, tMin, tMax, c);
  }

  /** The vector's hit narrows like its items' hits. */
  lemma {:induction false} GroupNarrows<M>(sqrt: real -> real, items: seq<Solid<M>>, r: Ray, tMin: real,
                                           tMax: real, c: real)
    requires IsSqrt(sqrt) && c <= tMax
    ensures GroupHit(sqrt, items, r, tMin, c) == Narrow(GroupHit(sqrt, items, r, tMin, tMax), c)
    decreases items, 2
  {
    var wide, narrow := Hits(sqrt, items, r, tMin, tMax), Hits(sqrt, items, r, tMin, c);
    forall i | 0 <= i < |items|
      ensures narrow[i] == Narrow(wide[i], c)
    {
      SolidNarrows(sqrt, items[i], r, tMin, tMax, c);
    }
    GroupFromIsCloser(sqrt, items, r, tMin, tMax, None);
    GroupFromIsCloser(sqrt, items, r, tMin, c, None);
    ClosestNarrows(wide, narrow, c);
  }

  /** Keeping only the hits before `c` and then taking the nearest is taking
      the nearest and keeping it only if it lies before `c`. */
  lemma {:induction false} ClosestNarrows<M>(wide: seq<Option<Models.Hit<M>>>, narrow: seq<Option<Models.Hit<M>>>, c: real)
    requires |wide| == |narrow|
    requires forall i :: 0 <= i < |wide| ==> narrow[i] == Narrow(wide[i], c)
    ensures Models.Closest(narrow) == Narrow(Models.Closest(wide), c)
    decreases |wide|
  {
    if |wide| > 0 {
      var n := |wide| - 1;
      ClosestNarrows(wide[..n], narrow[..n], c);
      CloserNarrows(Models.Closest(wide[..n]), wide[n], c);
    }
  }

  /** One step of the nearest-hit loop commutes with narrowing. */
  lemma CloserNarrows<M>(a: Option<Models.Hit<M>>, h: Option<Models.Hit<M>>, c: real)
    ensures Models.Closer(Narrow(a, c), Narrow(h, c)) == Narrow(Models.Closer(a, h), c)
  {
  }

  /** The vector's hit is the newer list's loop over its items' hits on the
      whole interval: a miss exactly when no item is hit, otherwise the hit
      with the least `t`, the earliest item winning a tie because a later
      item is only asked for hits strictly before the bound. */
  lemma GroupHitIsNearest<M>(sqrt: real -> real, items: seq<Solid<M>>, r: Ray, tMin: real, tMax: real)
    requires IsSqrt(sqrt)
    ensures var h := GroupHit(sqrt, items, r, tMin, tMax);
      var hs := Hits(sqrt, items, r, tMin, tMax);
      && h == Models.Closest(hs)
      && (h.None? <==> forall i :: 0 <= i < |items| ==> HitSolid(sqrt, items[i], r, tMin, tMax).None?)
      && (h.Some? ==> exists i :: Models.FirstNearest(hs, i) && HitSolid(sqrt, items[i], r, tMin, tMax) == h)
  {
    var hs := Hits(sqrt, items, r, tMin, tMax);
    GroupFromIsCloser(sqrt, items, r, tMin, tMax, None);
    Models.ClosestIsFirstNearest(hs);
  }
}
