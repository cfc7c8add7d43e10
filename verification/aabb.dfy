/** Axis-aligned bounding boxes (src/aabb.rs): the per-axis slab test used by
    BVH traversal, and the union of two boxes.

    The slab test divides by direction components, so zero components produce
    infinities; `Ext` models the few IEEE-754 values the test can meet. A zero
    component is read as +0.0 (its reciprocal is +inf): `real` has no signed
    zero. */
module Aabbs {
  import opened Num
  import opened Vectors

  datatype Aabb = Aabb(min: Vec3, max: Vec3)

  /** `T_MIN` of src/models.rs, the smallest ray parameter accepted anywhere
      (declared here because the box test uses it and the models import boxes). */
  const TMin: real := 0.0001

  /** The box of zeros that the tracer substitutes for a missing box. */
  const ZeroBox := Aabb(Zero, Zero)

  /** Every axis has `min <= max`. */
  predicate Valid(b: Aabb) {
    forall i :: 0 <= i < 3 ==> Comp(b.min, i) <= Comp(b.max, i)
  }

  /** `outer` encloses `inner` on every axis. */
  predicate Contains(outer: Aabb, inner: Aabb) {
    forall i :: 0 <= i < 3 ==>
      Comp(outer.min, i) <= Comp(inner.min, i) && Comp(inner.max, i) <= Comp(outer.max, i)
  }

  /** A point lies inside (or on) the box. */
  predicate Inside(b: Aabb, p: Vec3) {
    forall i :: 0 <= i < 3 ==> Comp(b.min, i) <= Comp(p, i) <= Comp(b.max, i)
  }

  // ---------------------------------------------------------------------
  // Extended reals for the slab test.

  /** The IEEE-754 values the slab test can produce. */
  datatype Ext = Fin(v: real) | PosInf | NegInf | NaN

  /** `f64::recip` of a direction component (a zero is taken as +0.0). */
  function Recip(d: real): (e: Ext)
    ensures e.Fin? <==> d != 0.0
  {
    if d == 0.0 then PosInf else Fin(1.0 / d)
  }

  /** `a * e` for a finite `a`: an infinity times zero is NaN. */
  function MulExt(a: real, e: Ext): Ext {
    match e
    case Fin(v) => Fin(a * v)
    case PosInf => if a > 0.0 then PosInf else if a < 0.0 then NegInf else NaN
    case NegInf => if a > 0.0 then NegInf else if a < 0.0 then PosInf else NaN
    case NaN => NaN
  }

  /** IEEE `a < b`: false whenever a NaN is involved. */
  function LessExt(a: Ext, b: Ext): bool {
    match (a, b)
    case (NaN, _) => false
    case (_, NaN) => false
    case (Fin(x), Fin(y)) => x < y
    case (NegInf, NegInf) => false
    case (NegInf, _) => true
    case (_, PosInf) => !a.PosInf?
    case (_, _) => false
  }

  /** IEEE `a <= b`. */
  function LessEqExt(a: Ext, b: Ext): bool {
    LessExt(a, b) || (a == b && !a.NaN?)
  }

  /** Entry and exit parameters `(t_0, t_1)` of axis `i`, after the swap that
      happens when the inverse direction is negative. */
  function Slab(b: Aabb, r: Ray, i: nat): (Ext, Ext)
    requires i < 3
  {
    var inv := Recip(Comp(r.direction, i));
    var t0 := MulExt(Comp(b.min, i) - Comp(r.origin, i), inv);
    var t1 := MulExt(Comp(b.max, i) - Comp(r.origin, i), inv);
    if LessExt(inv, Fin(0.0)) then (t1, t0) else (t0, t1)
  }

  /** The per-axis interval `(t_min, t_max)`. The lower end is `t_0` when it
      exceeds `T_MIN`, else `T_MIN`. The upper end picks `t_1` only when it
      exceeds +inf, which no value does: it is always +inf. */
  function Bounds(b: Aabb, r: Ray, i: nat): (bounds: (Ext, Ext))
    requires i < 3
    ensures bounds.1 == PosInf
    ensures bounds.0 == Slab(b, r, i).0 || bounds.0 == Fin(TMin)
  {
    var (t0, t1) := Slab(b, r, i);
    var tMin := if LessExt(Fin(TMin), t0) then t0 else Fin(TMin);
    var tMax := if LessExt(PosInf, t1) then t1 else PosInf;
    (tMin, tMax)
  }

  /** Axis `i` makes the test return false (`t_max <= t_min`). */
  predicate AxisRejects(b: Aabb, r: Ray, i: nat)
    requires i < 3
  {
    var (tMin, tMax) := Bounds(b, r, i);
    LessEqExt(tMax, tMin)
  }

  /** An axis rejects the ray exactly when the ray has no motion along it and
      its origin lies below the box there: then `t_0` is +inf. With a non-zero
      component `t_0` is finite, so the axis never rejects. */
  lemma AxisRejectsIff(b: Aabb, r: Ray, i: nat)
    requires i < 3
    ensures AxisRejects(b, r, i) <==>
      Comp(r.direction, i) == 0.0 && Comp(r.origin, i) < Comp(b.min, i)
  {
    var d := Comp(r.direction, i);
    if d == 0.0 {
      assert Slab(b, r, i).0 == MulExt(Comp(b.min, i) - Comp(r.origin, i), PosInf);
    } else {
      assert Slab(b, r, i).0.Fin?;
    }
  }

  /** `AABB::hit`. The three axes are tested in turn and any rejecting axis
      ends the test with false. Since the interval is never intersected across
      axes, the test fails only for a ray that is stuck below the box on an axis
      along which it does not move; in particular every ray whose direction
      components are all non-zero passes. */
  function Hit(b: Aabb, r: Ray): (hit: bool)
    ensures hit <==> forall i :: 0 <= i < 3 ==>
      !(Comp(r.direction, i) == 0.0 && Comp(r.origin, i) < Comp(b.min, i))
  {
    AxisRejectsIff(b, r, 0);
    AxisRejectsIff(b, r, 1);
    AxisRejectsIff(b, r, 2);
    !AxisRejects(b, r, 0) && !AxisRejects(b, r, 1) && !AxisRejects(b, r, 2)
  }

  /** On an axis the ray moves along, with an ordered box, the swap leaves
      `t_0 <= t_1`, both finite. */
  lemma SlabOrdered(b: Aabb, r: Ray, i: nat)
    requires i < 3 && Comp(r.direction, i) != 0.0 && Comp(b.min, i) <= Comp(b.max, i)
    ensures Slab(b, r, i).0.Fin? && Slab(b, r, i).1.Fin?
    ensures Slab(b, r, i).0.v <= Slab(b, r, i).1.v
  {
    var d := Comp(r.direction, i);
    var lo, hi := Comp(b.min, i) - Comp(r.origin, i), Comp(b.max, i) - Comp(r.origin, i);
    var inv := 1.0 / d;
    assert hi * inv - lo * inv == (hi - lo) * inv;
    if d > 0.0 {
      assert inv > 0.0;
      assert (hi - lo) * inv >= 0.0;
    } else {
      assert inv < 0.0;
      assert (hi - lo) * inv <= 0.0;
    }
  }

  /** A ray moving along every axis always passes the box test, wherever the
      box is. */
  lemma HitWhenMovingOnEveryAxis(b: Aabb, r: Ray)
    requires r.direction.x != 0.0 && r.direction.y != 0.0 && r.direction.z != 0.0
    ensures Hit(b, r)
  {
  }

  // ---------------------------------------------------------------------
  // Box union.

  /** `AABB::surrounding_box`: the componentwise minimum of the minima and
      maximum of the maxima. It contains both inputs. */
  function Surrounding(a: Aabb, b: Aabb): (s: Aabb)
    ensures Contains(s, a) && Contains(s, b)
  {
    var small := Vec3(Min(a.min.x, b.min.x), Min(a.min.y, b.min.y), Min(a.min.z, b.min.z));
    var big := Vec3(Max(a.max.x, b.max.x), Max(a.max.y, b.max.y), Max(a.max.z, b.max.z));
    Aabb(small, big)
  }

  /** The union is the smallest box containing both inputs. */
  lemma SurroundingIsLeast(a: Aabb, b: Aabb, c: Aabb)
    requires Contains(c, a) && Contains(c, b)
    ensures Contains(c, Surrounding(a, b))
  {
  }

  /** Union is commutative, associative and idempotent, and keeps boxes
      ordered. */
  lemma SurroundingLaws(a: Aabb, b: Aabb, c: Aabb)
    ensures Surrounding(a, b) == Surrounding(b, a)
    ensures Surrounding(Surrounding(a, b), c) == Surrounding(a, Surrounding(b, c))
    ensures Surrounding(a, a) == a
    ensures Valid(a) && Valid(b) ==> Valid(Surrounding(a, b))
  {
    assert Valid(a) && Valid(b) ==> Valid(Surrounding(a, b)) by {
      if Valid(a) && Valid(b) {
        var s := Surrounding(a, b);
        forall i | 0 <= i < 3
          ensures Comp(s.min, i) <= Comp(s.max, i)
        {
          assert Comp(a.min, i) <= Comp(a.max, i);
        }
      }
    }
  }

  /** Containment is transitive, and a box contains a point of a box it
      contains. */
  lemma ContainsTransitive(a: Aabb, b: Aabb, c: Aabb, p: Vec3)
    ensures Contains(a, b) && Contains(b, c) ==> Contains(a, c)
    ensures Contains(a, b) && Inside(b, p) ==> Inside(a, p)
  {
  }
}
