/** Materials (src/material.rs): how a hit surface scatters an incoming ray.
    Every draw of the thread RNG that a scatter makes is an explicit sample:
    the unit vector of a Lambertian bounce, the point in the unit ball that
    fuzzes a metal reflection, and the uniform number that decides between
    reflection and refraction in a dielectric. */
module Materials {
  import opened Num
  import opened Options
  import opened Vectors
  import opened Models

  datatype Material =
    | Lambertian(albedo: Vec3)
    | Metal(albedo: Vec3, fuzz: real)
    | Dielectric(index: real)

  /** `Scatter`: the colour filter of the bounce and the outgoing ray. */
  datatype Scattered = Scattered(attenuation: Vec3, ray: Ray)

  /** The random draws of one scatter: `random_unit_vector()`,
      `random_unit_sphere()` and `gen::<f32>()`. */
  datatype Samples = Samples(unitVector: Vec3, inSphere: Vec3, uniform: real)

  const White := Vec3(1.0, 1.0, 1.0)

  /** A dielectric whose index is 0 or -1 divides by zero in the index ratio
      or in `schlick`; every other material is usable. */
  predicate Usable(m: Material) {
    m.Dielectric? ==> m.index != 0.0 && m.index != -1.0
  }

  // ---------------------------------------------------------------------
  // Reflection and refraction.

  /** `reflect`: `v - 2 (v . n) n`. */
  function Reflect(v: Vec3, n: Vec3): Vec3 {
    Sub(v, Scale(2.0, Scale(Dot(v, n), n)))
  }

  /** Reflection is the move by `-2 (v . n)` along `n`. */
  lemma ReflectAlong(v: Vec3, n: Vec3)
    ensures Reflect(v, n) == Add(v, Scale(-2.0 * Dot(v, n), n))
  {
  }

  /** About a unit normal, reflection negates the normal component. */
  lemma ReflectFlipsNormal(v: Vec3, n: Vec3)
    requires LenSqr(n) == 1.0
    ensures Dot(Reflect(v, n), n) == -Dot(v, n)
  {
    var k := -2.0 * Dot(v, n);
    ReflectAlong(v, n);
    DotLaws(v, n, Scale(k, n), k);
    DotLaws(n, n, n, k);
  }

  /** About a unit normal, reflecting twice gives back the incident vector. */
  lemma ReflectInvolution(v: Vec3, n: Vec3)
    requires LenSqr(n) == 1.0
    ensures Reflect(Reflect(v, n), n) == v
  {
    var k := -2.0 * Dot(v, n);
    var w := Reflect(v, n);
    ReflectFlipsNormal(v, n);
    ReflectAlong(v, n);
    ReflectAlong(w, n);
    assert -2.0 * Dot(w, n) == -k;
    CancelAlong(v, n, k);
  }

  /** About a unit normal, reflection keeps the length of the vector. */
  lemma ReflectKeepsLength(v: Vec3, n: Vec3)
    requires LenSqr(n) == 1.0
    ensures LenSqr(Reflect(v, n)) == LenSqr(v)
  {
    var k := -2.0 * Dot(v, n);
    ReflectAlong(v, n);
    LenSqrAlong(v, n, k);
  }

  /** The part of the refracted ray perpendicular to the normal:
      `eta (uv + cos_theta n)` with `cos_theta = (-uv) . n`. */
  function RefractPerp(uv: Vec3, n: Vec3, eta: real): Vec3 {
    var cosTheta := Dot(Neg(uv), n);
    Scale(eta, Add(uv, Scale(cosTheta, n)))
  }

  /** The length of the parallel part, `sqrt(|1 - |perp|^2|)`. */
  function ParallelLength(sqrt: real -> real, perp: Vec3): (k: real)
    requires IsSqrt(sqrt)
    ensures RootOfGap(k, LenSqr(perp))
  {
    var s := 1.0 - LenSqr(perp);
    sqrt(if s < 0.0 then -s else s)
  }

  /** `refract`: the perpendicular part plus the parallel part, which points
      against the normal. */
  function Refract(sqrt: real -> real, uv: Vec3, n: Vec3, eta: real): (d: Vec3)
    requires IsSqrt(sqrt)
    ensures exists k :: k <= 0.0 && d == Add(RefractPerp(uv, n, eta), Scale(k, n))
  {
    var perp := RefractPerp(uv, n, eta);
    var k := -ParallelLength(sqrt, perp);
    Add(perp, Scale(k, n))
  }

  /** About a unit normal, the perpendicular part is orthogonal to it. */
  lemma RefractPerpOrthogonal(uv: Vec3, n: Vec3, eta: real)
    requires LenSqr(n) == 1.0
    ensures Dot(RefractPerp(uv, n, eta), n) == 0.0
  {
    var c := Dot(Neg(uv), n);
    DotLaws(uv, n, Scale(c, n), c);
    DotLaws(n, n, n, c);
    DotLaws(Add(uv, Scale(c, n)), n, n, eta);
  }

  /** About a unit normal, a perpendicular part of length at most one gives a
      unit refracted direction. */
  lemma RefractIsUnit(sqrt: real -> real, uv: Vec3, n: Vec3, eta: real)
    requires IsSqrt(sqrt) && LenSqr(n) == 1.0
    requires LenSqr(RefractPerp(uv, n, eta)) <= 1.0
    ensures LenSqr(Refract(sqrt, uv, n, eta)) == 1.0
  {
    var perp := RefractPerp(uv, n, eta);
    var p := ParallelLength(sqrt, perp);
    RefractPerpOrthogonal(uv, n, eta);
    LenSqrAlong(perp, n, -p);
    ParallelEval(Quadratic(LenSqr(n), Dot(perp, n), LenSqr(perp)), p);
  }

  /** For unit vectors the perpendicular part has squared length
      `eta^2 (1 - cos_theta^2)`, Snell's `(eta sin_theta)^2`. */
  lemma RefractPerpLength(uv: Vec3, n: Vec3, eta: real, c: real)
    requires LenSqr(uv) == 1.0 && LenSqr(n) == 1.0 && c == Dot(Neg(uv), n)
    ensures LenSqr(RefractPerp(uv, n, eta)) == eta * eta * (1.0 - c * c)
  {
    var w := Add(uv, Scale(c, n));
    DotNeg(uv, n);
    LenSqrAlong(uv, n, c);
    UnitEval(Quadratic(LenSqr(n), Dot(uv, n), LenSqr(uv)), c);
    assert LenSqr(w) == 1.0 - c * c;
    LenSqrScale(eta, w);
  }

  // ---------------------------------------------------------------------
  // Schlick's approximation.

  /** The reflectance at normal incidence, `((1 - eta) / (1 + eta))^2`. */
  function R0(eta: real): (r: real)
    requires eta != -1.0
    ensures 0.0 <= r
  {
    var q := (1.0 - eta) / (1.0 + eta);
    SquareZero(q);
    q * q
  }

  /** For a positive index the normal reflectance is below one. */
  lemma R0Below(eta: real)
    requires 0.0 < eta
    ensures R0(eta) < 1.0
  {
    var q := (1.0 - eta) / (1.0 + eta);
    assert q * (1.0 + eta) == 1.0 - eta;
    assert -1.0 < q < 1.0;
    if 0.0 <= q {
      assert q * q <= q * 1.0;
    } else {
      assert q * q <= (-q) * 1.0;
    }
  }

  /** `Dielectric::schlick`: the reflectance at a given cosine, with
      `powf(5.0)` as the exact fifth power. */
  function Schlick(cosine: real, eta: real): real
    requires eta != -1.0
  {
    var r0 := R0(eta);
    r0 + (1.0 - r0) * Pow5(1.0 - cosine)
  }

  /** At normal incidence the approximation is the normal reflectance. */
  lemma SchlickAtNormal(eta: real)
    requires eta != -1.0
    ensures Schlick(1.0, eta) == R0(eta)
  {
  }

  /** For a positive index and a cosine in [0, 1] the reflectance is a
      probability, no less than the normal reflectance. */
  lemma SchlickUnit(cosine: real, eta: real)
    requires 0.0 < eta && 0.0 <= cosine <= 1.0
    ensures R0(eta) <= Schlick(cosine, eta) <= 1.0
  {
    var r0, p := R0(eta), Pow5(1.0 - cosine);
    R0Below(eta);
    Pow5Unit(1.0 - cosine);
    ScaleDown(1.0 - r0, p);
    assert Schlick(cosine, eta) == r0 + (1.0 - r0) * p;
  }

  // ---------------------------------------------------------------------
  // Scattering.

  /** The index ratio `etai_over_etat`: `1 / index` on a front face, the
      index itself from inside. */
  function IndexRatio(index: real, frontFace: bool): (ratio: real)
    requires index != 0.0 && index != -1.0
    ensures ratio != -1.0 && ratio != 0.0
    ensures 0.0 < index ==> 0.0 < ratio
    ensures frontFace ==> ratio * index == 1.0
    ensures !frontFace ==> ratio == index
  {
    if frontFace then 1.0 / index else index
  }

  /** `sin_theta = sqrt(1 - cos_theta^2)`; `None` stands for the NaN that
      `sqrt` yields when `cos_theta^2 > 1`. */
  function SinTheta(sqrt: real -> real, cosTheta: real): (s: Option<real>)
    requires IsSqrt(sqrt)
    ensures s.Some? <==> cosTheta * cosTheta <= 1.0
    ensures s.Some? ==> 0.0 <= s.value && s.value * s.value == 1.0 - cosTheta * cosTheta
  {
    var x := 1.0 - cosTheta * cosTheta;
    if 0.0 <= x then Some(sqrt(x)) else None
  }

  /** The test `etai_over_etat * sin_theta > 1.0`, false for a NaN sine. */
  predicate CannotRefract(sqrt: real -> real, ratio: real, cosTheta: real)
    requires IsSqrt(sqrt)
  {
    var sin := SinTheta(sqrt, cosTheta);
    sin.Some? && ratio * sin.value > 1.0
  }

  /** `cos_theta` of the dielectric, clamped to at most one. */
  function CosTheta(unitDirection: Vec3, normal: Vec3): (c: real)
    ensures c <= 1.0
  {
    Min(Dot(Neg(unitDirection), normal), 1.0)
  }

  /** Between unit vectors the clamp is inactive and `cos_theta^2 <= 1`. */
  lemma UnitCosine(u: Vec3, n: Vec3)
    requires LenSqr(u) == 1.0 && LenSqr(n) == 1.0
    ensures CosTheta(u, n) == Dot(Neg(u), n)
    ensures CosTheta(u, n) * CosTheta(u, n) <= 1.0
  {
    DotNeg(u, n);
    CauchySchwarz(u, n);
    CosineBound(Dot(u, n), LenSqr(u), LenSqr(n));
  }

  /** When refraction is possible at a positive ratio, Snell's
      `(ratio sin_theta)^2` is at most one. */
  lemma RefractBranchBound(sqrt: real -> real, ratio: real, c: real)
    requires IsSqrt(sqrt) && 0.0 < ratio && c * c <= 1.0
    requires !CannotRefract(sqrt, ratio, c)
    ensures ratio * ratio * (1.0 - c * c) <= 1.0
  {
    assert ratio * SinTheta(sqrt, c).value <= 1.0;
    BoundedSquare(ratio, SinTheta(sqrt, c).value);
  }

  /** The direction a dielectric sends the ray: the mirror direction under
      total internal reflection or when the draw falls below Schlick's
      reflectance, the refracted direction otherwise. */
  function DielectricDirection(sqrt: real -> real, index: real, rIn: Ray, hit: Hit<Material>, draw: real)
    : Vec3
    requires IsSqrt(sqrt) && rIn.direction != Zero && index != 0.0 && index != -1.0
  {
    var ratio := IndexRatio(index, hit.frontFace);
    var unitDirection := Unit(sqrt, rIn.direction);
    var cosTheta := CosTheta(unitDirection, hit.normal);
    if CannotRefract(sqrt, ratio, cosTheta) || draw < Schlick(cosTheta, ratio) then
      Reflect(unitDirection, hit.normal)
    else
      Refract(sqrt, unitDirection, hit.normal, ratio)
  }

  /** `Material::scatter` for the material of the hit. Lambertian surfaces
      always scatter, with their albedo; metal scatters, with its albedo,
      only into a direction on the outside of the surface; a dielectric
      never absorbs and filters nothing. Every scattered ray starts at the
      hit point. */
  function Scatter(sqrt: real -> real, rIn: Ray, hit: Hit<Material>, d: Samples): (s: Option<Scattered>)
    requires IsSqrt(sqrt) && Usable(hit.material)
    requires hit.material.Dielectric? ==> rIn.direction != Zero
    ensures s.Some? ==> s.value.ray.origin == hit.point
    ensures hit.material.Lambertian? ==> s.Some? && s.value.attenuation == hit.material.albedo
    ensures hit.material.Metal? && s.Some? ==>
      s.value.attenuation == hit.material.albedo && Dot(s.value.ray.direction, hit.normal) > 0.0
    ensures hit.material.Metal? ==>
      (s.Some? <==> Dot(Add(Reflect(rIn.direction, hit.normal), Scale(hit.material.fuzz, d.inSphere)), hit.normal) > 0.0)
    ensures hit.material.Dielectric? ==> s.Some? && s.value.attenuation == White
  {
    match hit.material
    case Lambertian(albedo) =>
      Some(Scattered(albedo, Ray(hit.point, Add(hit.normal, d.unitVector))))
    case Metal(albedo, fuzz) =>
      var direction := Add(Reflect(rIn.direction, hit.normal), Scale(fuzz, d.inSphere));
      if Dot(direction, hit.normal) > 0.0 then Some(Scattered(albedo, Ray(hit.point, direction)))
      else None
    case Dielectric(index) =>
      Some(Scattered(White, Ray(hit.point, DielectricDirection(sqrt, index, rIn, hit, d.uniform))))
  }

  /** A Lambertian bounce off a unit normal, with a unit sample, never points
      into the surface. */
  lemma LambertianOutward(sqrt: real -> real, rIn: Ray, hit: Hit<Material>, d: Samples)
    requires IsSqrt(sqrt) && hit.material.Lambertian?
    requires LenSqr(hit.normal) == 1.0 && LenSqr(d.unitVector) == 1.0
    ensures Dot(Scatter(sqrt, rIn, hit, d).value.ray.direction, hit.normal) >= 0.0
  {
    var n, u := hit.normal, d.unitVector;
    CauchySchwarz(u, n);
    SquareAtMostOne(Dot(u, n));
    DotLaws(n, n, u, 1.0);
  }

  /** A metal without fuzz is a perfect mirror: about a unit normal it
      scatters exactly the rays that arrive against the normal. */
  lemma MirrorScattersIncoming(sqrt: real -> real, rIn: Ray, hit: Hit<Material>, d: Samples)
    requires IsSqrt(sqrt) && hit.material.Metal? && hit.material.fuzz == 0.0
    requires LenSqr(hit.normal) == 1.0
    ensures Scatter(sqrt, rIn, hit, d).Some? <==> Dot(rIn.direction, hit.normal) < 0.0
  {
    var reflected := Reflect(rIn.direction, hit.normal);
    ReflectFlipsNormal(rIn.direction, hit.normal);
    assert Add(reflected, Scale(0.0, d.inSphere)) == reflected;
  }

  /** The part of `v` orthogonal to `n` (for a unit `n`). */
  function Tangent(v: Vec3, n: Vec3): Vec3 {
    Sub(v, Scale(Dot(v, n), n))
  }

  /** About a unit normal, moving a vector along the normal keeps its
      tangential part. */
  lemma TangentAlong(v: Vec3, n: Vec3, k: real)
    requires LenSqr(n) == 1.0
    ensures Tangent(Add(v, Scale(k, n)), n) == Tangent(v, n)
  {
    var a := Dot(v, n);
    DotLaws(v, n, Scale(k, n), k);
    DotLaws(n, n, n, k);
    assert (a + k) * n.x == a * n.x + k * n.x;
    assert (a + k) * n.y == a * n.y + k * n.y;
    assert (a + k) * n.z == a * n.z + k * n.z;
  }

  /** About a unit normal, reflection keeps the tangential part. */
  lemma ReflectTangent(v: Vec3, n: Vec3)
    requires LenSqr(n) == 1.0
    ensures Tangent(Reflect(v, n), n) == Tangent(v, n)
  {
    ReflectAlong(v, n);
    TangentAlong(v, n, -2.0 * Dot(v, n));
  }

  /** About a unit normal, refraction scales the tangential part by the
      index ratio (Snell's law). */
  lemma RefractTangent(sqrt: real -> real, u: Vec3, n: Vec3, eta: real)
    requires IsSqrt(sqrt) && LenSqr(n) == 1.0
    ensures Tangent(Refract(sqrt, u, n, eta), n) == Scale(eta, Tangent(u, n))
  {
    var perp := RefractPerp(u, n, eta);
    TangentAlong(perp, n, -ParallelLength(sqrt, perp));
    RefractPerpOrthogonal(u, n, eta);
    TangentOrthogonal(perp, n);
    PerpIsTangent(u, n, eta);
  }

  /** A vector orthogonal to `n` is its own tangential part. */
  lemma TangentOrthogonal(v: Vec3, n: Vec3)
    requires Dot(v, n) == 0.0
    ensures Tangent(v, n) == v
  {
  }

  /** The perpendicular part the refraction computes is `eta` times the
      tangential part of the incident direction. */
  lemma PerpIsTangent(u: Vec3, n: Vec3, eta: real)
    ensures RefractPerp(u, n, eta) == Scale(eta, Tangent(u, n))
  {
    DotNeg(u, n);
    var c := Dot(u, n);
    assert (-c) * n.x == -(c * n.x) && (-c) * n.y == -(c * n.y) && (-c) * n.z == -(c * n.z);
  }

  /** About a unit normal, the refracted direction goes on through the
      surface, never back along the normal. */
  lemma RefractCrosses(sqrt: real -> real, u: Vec3, n: Vec3, eta: real)
    requires IsSqrt(sqrt) && LenSqr(n) == 1.0
    ensures Dot(Refract(sqrt, u, n, eta), n) <= 0.0
  {
    var perp := RefractPerp(u, n, eta);
    var k := -ParallelLength(sqrt, perp);
    RefractPerpOrthogonal(u, n, eta);
    DotLaws(perp, n, Scale(k, n), k);
    DotLaws(n, n, n, k);
  }

  /** A dielectric's direction is the mirror direction exactly when the
      refraction is impossible or the draw selects reflection. About a unit
      normal, the mirror direction keeps the tangential part and negates the
      normal part, and the refracted direction carries `ratio` times the
      tangential part and goes on through the surface. */
  lemma DielectricChoice(sqrt: real -> real, rIn: Ray, hit: Hit<Material>, d: Samples)
    requires IsSqrt(sqrt) && hit.material.Dielectric? && Usable(hit.material)
    requires rIn.direction != Zero
    ensures var ratio := IndexRatio(hit.material.index, hit.frontFace);
      var u := Unit(sqrt, rIn.direction);
      var c := CosTheta(u, hit.normal);
      var dir := Scatter(sqrt, rIn, hit, d).value.ray.direction;
      && (CannotRefract(sqrt, ratio, c) ==> dir == Reflect(u, hit.normal))
      && (!CannotRefract(sqrt, ratio, c) && d.uniform < Schlick(c, ratio) ==> dir == Reflect(u, hit.normal))
      && (!CannotRefract(sqrt, ratio, c) && Schlick(c, ratio) <= d.uniform ==>
            dir == Refract(sqrt, u, hit.normal, ratio))
      && (LenSqr(hit.normal) == 1.0 && (CannotRefract(sqrt, ratio, c) || d.uniform < Schlick(c, ratio)) ==>
            Tangent(dir, hit.normal) == Tangent(u, hit.normal) && Dot(dir, hit.normal) == -Dot(u, hit.normal))
      && (LenSqr(hit.normal) == 1.0 && !CannotRefract(sqrt, ratio, c) && Schlick(c, ratio) <= d.uniform ==>
            Tangent(dir, hit.normal) == Scale(ratio, Tangent(u, hit.normal)) && Dot(dir, hit.normal) <= 0.0)
  {
    var ratio := IndexRatio(hit.material.index, hit.frontFace);
    var u := Unit(sqrt, rIn.direction);
    if LenSqr(hit.normal) == 1.0 {
      ReflectTangent(u, hit.normal);
      ReflectFlipsNormal(u, hit.normal);
      RefractTangent(sqrt, u, hit.normal, ratio);
      RefractCrosses(sqrt, u, hit.normal, ratio);
    }
  }

  /** About a unit normal and for a positive index, a dielectric always sends
      the ray on in a unit direction, whether it reflects or refracts: when
      it refracts, `ratio sin_theta <= 1` bounds the perpendicular part. */
  lemma DielectricUnitDirection(sqrt: real -> real, rIn: Ray, hit: Hit<Material>, d: Samples)
    requires IsSqrt(sqrt) && hit.material.Dielectric? && 0.0 < hit.material.index
    requires rIn.direction != Zero && LenSqr(hit.normal) == 1.0
    ensures LenSqr(Scatter(sqrt, rIn, hit, d).value.ray.direction) == 1.0
  {
    var n := hit.normal;
    var ratio := IndexRatio(hit.material.index, hit.frontFace);
    var u := Unit(sqrt, rIn.direction);
    UnitCosine(u, n);
    if CannotRefract(sqrt, ratio, CosTheta(u, n)) || d.uniform < Schlick(CosTheta(u, n), ratio) {
      ReflectKeepsLength(u, n);
    } else {
      var c := CosTheta(u, n);
      RefractBranchBound(sqrt, ratio, c);
      RefractPerpLength(u, n, ratio, c);
      RefractIsUnit(sqrt, u, n, ratio);
    }
  }
}
