/** The older materials of src/types/material.rs. They scatter like the
    newer ones with three differences: metal normalises the incoming
    direction and tests the mirror direction BEFORE adding the fuzz, so a
    fuzzed ray may still be sent into the surface; the dielectric computes
    `cos_theta` through the older x-only negation and refracts with the older
    `refract`; and every draw is an `f64`. The materials, the scatter record,
    the draws and the record of a hit are the newer datatypes, which carry
    the same fields. */
module OldMaterials {
  import opened Num
  import opened Options
  import opened Vectors
  import Models
  import Materials
  import OldVectors

  /** `Dielectric::schlick`, written out as in the older file:
      `r0 = ((1 - index) / (1 + index))^2`, then
      `r0 + (1 - r0) (1 - cosine)^5`. */
  function Schlick(cosine: real, index: real): real
    requires index != -1.0
  {
    var r0 := (1.0 - index) / (1.0 + index);
    var r0 := r0 * r0;
    r0 + (1.0 - r0) * Pow5(1.0 - cosine)
  }

  /** It is the newer approximation, so for a positive index and a cosine in
      [0, 1] it is a probability no less than the normal reflectance. */
  lemma SchlickAgrees(cosine: real, index: real)
    requires index != -1.0
    ensures Schlick(cosine, index) == Materials.Schlick(cosine, index)
    ensures 0.0 < index && 0.0 <= cosine <= 1.0 ==>
      Materials.R0(index) <= Schlick(cosine, index) <= 1.0
  {
    if 0.0 < index && 0.0 <= cosine <= 1.0 {
      Materials.SchlickUnit(cosine, index);
    }
  }

  /** The dielectric's `cos_theta`: the older dot product of the older
      negation of the unit direction with the normal, clamped to at most one. */
  function CosTheta(unitDirection: Vec3, normal: Vec3): (c: real)
    ensures c <= 1.0
  {
    Min(OldVectors.Dot(OldVectors.Neg(unitDirection), normal), 1.0)
  }

  /** Written out, only the x product changes sign; so it is the newer
      `cos_theta` exactly when the y and z products cancel. */
  lemma CosThetaAgrees(u: Vec3, n: Vec3)
    ensures CosTheta(u, n) == Min(-(u.x * n.x) + u.y * n.y + u.z * n.z, 1.0)
    ensures u.y * n.y + u.z * n.z == 0.0 ==> CosTheta(u, n) == Materials.CosTheta(u, n)
  {
    OldVectors.DotAgrees(OldVectors.Neg(u), n);
    DotNeg(u, n);
  }

  /** The direction the older dielectric sends the ray: the mirror direction
      under total internal reflection or when the draw falls below the
      reflectance, the older refraction otherwise. */
  function DielectricDirection(sqrt: real -> real, index: real, rIn: Ray, hit: Models.Hit<Materials.Material>,
                               draw: real): Vec3
    requires IsSqrt(sqrt) && rIn.direction != Zero && index != 0.0 && index != -1.0
  {
    var ratio := Materials.IndexRatio(index, hit.frontFace);
    var unitDirection := Unit(sqrt, rIn.direction);
    var cosTheta := CosTheta(unitDirection, hit.normal);
    if Materials.CannotRefract(sqrt, ratio, cosTheta) || draw < Schlick(cosTheta, ratio) then
      OldVectors.Reflect(unitDirection, hit.normal)
    else
      OldVectors.Refract(sqrt, unitDirection, hit.normal, ratio)
  }

  /** The older `scatter`. Lambertian surfaces always scatter, with their
      albedo, off the normal plus the unit sample; metal scatters, with its
      albedo, when the mirror image of the UNIT incoming direction leaves the
      surface, and then adds the fuzz; a dielectric never absorbs and filters
      nothing. Every scattered ray starts at the hit point. */
  function Scatter(sqrt: real -> real, rIn: Ray, hit: Models.Hit<Materials.Material>, d: Materials.Samples)
    : (s: Option<Materials.Scattered>)
    requires IsSqrt(sqrt) && Materials.Usable(hit.material)
    requires !hit.material.Lambertian? ==> rIn.direction != Zero
    ensures s.Some? ==> s.value.ray.origin == hit.point
    ensures hit.material.Lambertian? ==>
      s == Some(Materials.Scattered(hit.material.albedo, Ray(hit.point, Add(hit.normal, d.unitVector))))
    ensures hit.material.Metal? ==>
      (s.Some? <==> Dot(Materials.Reflect(Unit(sqrt, rIn.direction), hit.normal), hit.normal) > 0.0)
    ensures hit.material.Metal? && s.Some? ==> s.value.attenuation == hit.material.albedo
    ensures hit.material.Dielectric? ==> s.Some? && s.value.attenuation == Materials.White
  {
    match hit.material
    case Lambertian(albedo) =>
      Some(Materials.Scattered(albedo, Ray(hit.point, Add(hit.normal, d.unitVector))))
    case Metal(albedo, fuzz) =>
      var reflected := OldVectors.Reflect(Unit(sqrt, rIn.direction), hit.normal);
      OldVectors.ReflectAgrees(Unit(sqrt, rIn.direction), hit.normal);
      OldVectors.DotAgrees(reflected, hit.normal);
      if OldVectors.Dot(reflected, hit.normal) > 0.0 then
        Some(Materials.Scattered(albedo, Ray(hit.point, Add(reflected, Scale(fuzz, d.inSphere)))))
      else None
    case Dielectric(index) =>
      Some(Materials.Scattered(Materials.White, Ray(hit.point, DielectricDirection(sqrt, index, rIn, hit, d.uniform))))
  }

  // ---------------------------------------------------------------------
  // Against the newer materials.

  /** A Lambertian scatter is the newer one. */
  lemma LambertianAgrees(sqrt: real -> real, rIn: Ray, hit: Models.Hit<Materials.Material>, d: Materials.Samples)
    requires IsSqrt(sqrt) && hit.material.Lambertian?
    ensures Scatter(sqrt, rIn, hit, d) == Materials.Scatter(sqrt, rIn, hit, d)
  {
  }

  /** The unit vector of a unit vector is itself. */
  lemma UnitOfUnit(sqrt: real -> real, v: Vec3)
    requires IsSqrt(sqrt) && LenSqr(v) == 1.0
    ensures v != Zero && Unit(sqrt, v) == v
  {
    var l := Len(sqrt, v);
    SquareInjective(l, 1.0);
  }

  /** For a unit incoming direction, whenever both metals scatter they
      scatter the same ray. */
  lemma MetalAgreesWhenBothScatter(sqrt: real -> real, rIn: Ray, hit: Models.Hit<Materials.Material>,
                                   d: Materials.Samples)
    requires IsSqrt(sqrt) && hit.material.Metal? && LenSqr(rIn.direction) == 1.0
    ensures rIn.direction != Zero
    ensures Scatter(sqrt, rIn, hit, d).Some? && Materials.Scatter(sqrt, rIn, hit, d).Some? ==>
      Scatter(sqrt, rIn, hit, d) == Materials.Scatter(sqrt, rIn, hit, d)
  {
    UnitOfUnit(sqrt, rIn.direction);
    OldVectors.ReflectAgrees(rIn.direction, hit.normal);
  }

  /** The older metal tests the mirror direction before the fuzz: a unit ray
      arriving against a unit normal, with fuzz one and the sample `-normal`
      (a point of the unit ball), is scattered into the surface, while the
      newer metal absorbs it. For example the direction `(0.6, -0.8, 0)`
      against the normal `(0, 1, 0)` mirrors to `(0.6, 0.8, 0)`, which
      passes the test, and leaves as `(0.6, -0.2, 0)`. */
  lemma MetalScattersInward(sqrt: real -> real, rIn: Ray, hit: Models.Hit<Materials.Material>,
                            d: Materials.Samples)
    requires IsSqrt(sqrt) && hit.material.Metal? && hit.material.fuzz == 1.0
    requires LenSqr(rIn.direction) == 1.0 && LenSqr(hit.normal) == 1.0
    requires Dot(rIn.direction, hit.normal) < 0.0 && d.inSphere == Neg(hit.normal)
    ensures rIn.direction != Zero
    ensures Scatter(sqrt, rIn, hit, d).Some?
    ensures Dot(Scatter(sqrt, rIn, hit, d).value.ray.direction, hit.normal) <= 0.0
    ensures Materials.Scatter(sqrt, rIn, hit, d).None?
  {
    var v, n := rIn.direction, hit.normal;
    UnitOfUnit(sqrt, v);
    var m := Materials.Reflect(v, n);
    Materials.ReflectFlipsNormal(v, n);
    OldVectors.ReflectAgrees(v, n);
    CauchySchwarz(v, n);
    CosineBound(Dot(v, n), LenSqr(v), LenSqr(n));
    InwardDot(m, n, Dot(v, n));
  }

  /** The mirror direction `m` with `m . n = -c` for a unit `n` and
      `-1 <= c`, moved by `-n`, has `m . n - 1 <= 0` with `n`. */
  lemma InwardDot(m: Vec3, n: Vec3, c: real)
    requires LenSqr(n) == 1.0 && Dot(m, n) == -c && -1.0 <= c
    ensures Dot(Add(m, Scale(1.0, Neg(n))), n) <= 0.0
  {
    assert Scale(1.0, Neg(n)) == Scale(-1.0, n);
    DotLaws(m, Scale(-1.0, n), n, -1.0);
    DotLaws(n, n, n, -1.0);
  }

  /** A dielectric never absorbs and filters nothing; it picks the mirror
      direction exactly under total internal reflection or when the draw
      falls below the reflectance at the clamped `cos_theta`. */
  lemma DielectricChoice(sqrt: real -> real, rIn: Ray, hit: Models.Hit<Materials.Material>, d: Materials.Samples)
    requires IsSqrt(sqrt) && hit.material.Dielectric? && Materials.Usable(hit.material)
    requires rIn.direction != Zero
    ensures var s := Scatter(sqrt, rIn, hit, d);
      var ratio := Materials.IndexRatio(hit.material.index, hit.frontFace);
      var u := Unit(sqrt, rIn.direction);
      var c := CosTheta(u, hit.normal);
      && s.Some? && s.value.attenuation == Materials.White
      && c <= 1.0
      && (Materials.CannotRefract(sqrt, ratio, c) || d.uniform < Materials.Schlick(c, ratio) ==>
            s.value.ray.direction == Materials.Reflect(u, hit.normal))
      && (!(Materials.CannotRefract(sqrt, ratio, c) || d.uniform < Materials.Schlick(c, ratio)) ==>
            s.value.ray.direction == OldVectors.Refract(sqrt, u, hit.normal, ratio))
  {
    var ratio := Materials.IndexRatio(hit.material.index, hit.frontFace);
    var u := Unit(sqrt, rIn.direction);
    SchlickAgrees(CosTheta(u, hit.normal), ratio);
    OldVectors.ReflectAgrees(u, hit.normal);
  }

  /** When the y and z products of the unit direction and the normal cancel
      (for instance a normal on the x axis), the older dielectric scatters
      exactly like the newer one. */
  lemma DielectricAgrees(sqrt: real -> real, rIn: Ray, hit: Models.Hit<Materials.Material>, d: Materials.Samples)
    requires IsSqrt(sqrt) && hit.material.Dielectric? && Materials.Usable(hit.material)
    requires rIn.direction != Zero
    requires var u := Unit(sqrt, rIn.direction); u.y * hit.normal.y + u.z * hit.normal.z == 0.0
    ensures Scatter(sqrt, rIn, hit, d) == Materials.Scatter(sqrt, rIn, hit, d)
  {
    var index := hit.material.index;
    var ratio := Materials.IndexRatio(index, hit.frontFace);
    var u := Unit(sqrt, rIn.direction);
    CosThetaAgrees(u, hit.normal);
    SchlickAgrees(CosTheta(u, hit.normal), ratio);
    OldVectors.ReflectAgrees(u, hit.normal);
    OldVectors.RefractAgrees(sqrt, u, hit.normal, ratio);
    assert DielectricDirection(sqrt, index, rIn, hit, d.uniform)
      == Materials.DielectricDirection(sqrt, index, rIn, hit, d.uniform);
  }
}
