/** The tracer's `Vec3` and `Ray` (src/vector.rs): three reals used as point,
    direction and colour alike, with componentwise arithmetic, dot and cross
    products, normalisation and the per-channel byte quantisation of a summed
    pixel colour. */
module Vectors {
  import opened Num

  datatype Vec3 = Vec3(x: real, y: real, z: real)

  const Zero := Vec3(0.0, 0.0, 0.0)

  /** Component `i` of `v`, as the `[f64; 3]` conversion exposes it. */
  function Comp(v: Vec3, i: nat): real
    requires i < 3
  {
    if i == 0 then v.x else if i == 1 then v.y else v.z
  }

  /** The four lanes of `_mm256_set_pd(v.x, v.y, v.z, 0.0)`, lowest lane first:
      `_mm256_set_pd` lists its arguments from the highest lane down. */
  function Lanes(v: Vec3): seq<real> {
    [0.0, v.z, v.y, v.x]
  }

  /** `Vec3 + Vec3` through the AVX lane add: the lanes are added pairwise and
      the result is read back from lanes 3, 2, 1. The lane order restores the
      x, y, z order, so the sum is componentwise. */
  function Add(u: Vec3, v: Vec3): (r: Vec3)
    ensures r.x == u.x + v.x && r.y == u.y + v.y && r.z == u.z + v.z
  {
    var a, b := Lanes(u), Lanes(v);
    var lanes := [a[0] + b[0], a[1] + b[1], a[2] + b[2], a[3] + b[3]];
    Vec3(lanes[3], lanes[2], lanes[1])
  }

  function Sub(u: Vec3, v: Vec3): Vec3 {
    Vec3(u.x - v.x, u.y - v.y, u.z - v.z)
  }

  function Neg(v: Vec3): Vec3 {
    Vec3(-v.x, -v.y, -v.z)
  }

  /** Componentwise product `Vec3 * Vec3` (attenuation times colour). */
  function Mul(u: Vec3, v: Vec3): Vec3 {
    Vec3(u.x * v.x, u.y * v.y, u.z * v.z)
  }

  /** `f64 * Vec3`. */
  function Scale(s: real, v: Vec3): Vec3 {
    Vec3(s * v.x, s * v.y, s * v.z)
  }

  /** `Vec3 * f64`. */
  function Times(v: Vec3, s: real): Vec3 {
    Vec3(v.x * s, v.y * s, v.z * s)
  }

  /** `Vec3 / f64`, written as multiplication by `s.inv()`. The model demands a
      non-zero divisor: `inv` of zero is an infinity, which `real` lacks. */
  function Div(v: Vec3, s: real): Vec3
    requires s != 0.0
  {
    Times(v, 1.0 / s)
  }

  /** Sum of the three components. */
  function Accumulate(v: Vec3): real {
    v.x + v.y + v.z
  }

  /** `Vec3::dot`: the accumulated componentwise product. */
  function Dot(u: Vec3, v: Vec3): (d: real)
    ensures d == u.x * v.x + u.y * v.y + u.z * v.z
  {
    Accumulate(Mul(u, v))
  }

  /** `Vec3::cross`. The result is orthogonal to both operands. */
  function Cross(u: Vec3, v: Vec3): (c: Vec3)
    ensures Dot(c, u) == 0.0 && Dot(c, v) == 0.0
  {
    Vec3(u.y * v.z - u.z * v.y,
         -(u.x * v.z) + u.z * v.x,
         u.x * v.y - u.y * v.x)
  }

  /** `len_sqr`: never negative, and zero exactly for the zero vector. */
  function LenSqr(v: Vec3): (l: real)
    ensures 0.0 <= l
    ensures l == 0.0 <==> v == Zero
  {
    SquareZero(v.x);
    SquareZero(v.y);
    SquareZero(v.z);
    var l := Dot(v, v);
    assert l == 0.0 ==> v.x * v.x == 0.0 && v.y * v.y == 0.0 && v.z * v.z == 0.0;
    l
  }

  /** `len`: the non-negative root of `len_sqr`. */
  function Len(sqrt: real -> real, v: Vec3): (l: real)
    requires IsSqrt(sqrt)
    ensures 0.0 <= l && l * l == LenSqr(v)
    ensures v != Zero ==> 0.0 < l
  {
    var s := LenSqr(v);
    assert 0.0 <= sqrt(s) && sqrt(s) * sqrt(s) == s;
    sqrt(s)
  }

  /** `unit`: `v` divided by its length. The source leaves the zero vector
      undefined (a division by zero), so the model demands a non-zero `v`.
      The result has squared length one and scales back to `v`. */
  function Unit(sqrt: real -> real, v: Vec3): (u: Vec3)
    requires IsSqrt(sqrt) && v != Zero
    ensures LenSqr(u) == 1.0
    ensures Times(u, Len(sqrt, v)) == v
  {
    var l := Len(sqrt, v);
    var u := Div(v, l);
    LenSqrScale(1.0 / l, v);
    assert u == Scale(1.0 / l, v);
    assert (1.0 / l) * (1.0 / l) * (l * l) == 1.0;
    u
  }

  /** Scaling a vector scales its squared length by the square of the factor. */
  lemma LenSqrScale(s: real, v: Vec3)
    ensures LenSqr(Scale(s, v)) == s * s * LenSqr(v)
  {
    assert (s * v.x) * (s * v.x) == s * s * (v.x * v.x);
    assert (s * v.y) * (s * v.y) == s * s * (v.y * v.y);
    assert (s * v.z) * (s * v.z) == s * s * (v.z * v.z);
  }

  /** One channel of the pixel colour (`r`, `g`, `b`): the sum of `samples`
      path colours is divided by `samples`, square-rooted (gamma 2), clamped to
      [0, 0.999], multiplied by 256 and truncated. The IEEE special cases are
      spelt out: with zero samples the scale is +inf, a positive sum becomes
      +inf and clamps to 0.999 (byte 255), while a zero or negative sum turns
      into NaN; a NaN channel, and the NaN root of a negative scaled value,
      survive the clamp and cast to 0. */
  function Channel(sqrt: real -> real, c: real, samples: nat): (b: int)
    requires IsSqrt(sqrt)
    ensures 0 <= b <= 255
    ensures c <= 0.0 ==> b == 0
    ensures samples == 0 && 0.0 < c ==> b == 255
    ensures 0 < samples && 0.0 <= c ==>
      b == ToByte(Clamp(sqrt(c / samples as real), 0.0, 0.999))
  {
    if samples == 0 then
      if c > 0.0 then ToByte(0.999) else 0
    else
      var scaled := c / samples as real;
      if scaled < 0.0 then 0
      else if c == 0.0 then
        SqrtOfSquare(sqrt, 0.0);
        ToByte(Clamp(sqrt(scaled), 0.0, 0.999))
      else ToByte(Clamp(sqrt(scaled), 0.0, 0.999))
  }

  /** A brighter channel never quantises to a smaller byte. */
  lemma ChannelMonotone(sqrt: real -> real, c: real, d: real, samples: nat)
    requires IsSqrt(sqrt) && c <= d
    ensures Channel(sqrt, c, samples) <= Channel(sqrt, d, samples)
  {
    if 0 < samples && 0.0 <= c {
      var n := samples as real;
      DivMonotone(c, d, n);
      SqrtMonotone(sqrt, c / n, d / n);
      ToByteMonotone(Clamp(sqrt(c / n), 0.0, 0.999), Clamp(sqrt(d / n), 0.0, 0.999));
    }
  }

  /** Ray with an origin and a (not necessarily unit) direction. */
  datatype Ray = Ray(origin: Vec3, direction: Vec3)

  /** `Ray::at`: the point `origin + t * direction`. */
  function At(r: Ray, t: real): (p: Vec3)
    ensures Sub(p, r.origin) == Scale(t, r.direction)
    ensures t == 0.0 ==> p == r.origin
  {
    Add(r.origin, Scale(t, r.direction))
  }

  // ---------------------------------------------------------------------
  // Algebraic laws of the operations above.

  lemma AddCommutative(u: Vec3, v: Vec3)
    ensures Add(u, v) == Add(v, u)
  {
  }

  /** `v - v` is the zero vector and negation is an involution whose sum with
      the original is zero. */
  lemma NegationLaws(v: Vec3)
    ensures Sub(v, v) == Zero
    ensures Neg(Neg(v)) == v
    ensures Add(v, Neg(v)) == Zero
  {
  }

  /** `s * v == v * s`, and division is multiplication by the reciprocal. */
  lemma ScalarLaws(s: real, v: Vec3)
    ensures Scale(s, v) == Times(v, s)
    ensures s != 0.0 ==> Div(v, s) == Scale(1.0 / s, v)
  {
  }

  /** The dot product is symmetric and linear in its first argument. */
  lemma DotLaws(u: Vec3, v: Vec3, w: Vec3, s: real)
    ensures Dot(u, v) == Dot(v, u)
    ensures Dot(Add(u, w), v) == Dot(u, v) + Dot(w, v)
    ensures Dot(Scale(s, u), v) == s * Dot(u, v)
  {
  }

  /** Negating one operand negates the dot product. */
  lemma DotNeg(u: Vec3, v: Vec3)
    ensures Dot(Neg(u), v) == -Dot(u, v)
  {
    assert (-u.x) * v.x == -(u.x * v.x) && (-u.y) * v.y == -(u.y * v.y) && (-u.z) * v.z == -(u.z * v.z);
  }

  /** The cross product is anti-commutative. */
  lemma CrossAntiCommutative(u: Vec3, v: Vec3)
    ensures Cross(u, v) == Neg(Cross(v, u))
  {
  }

  /** Lagrange's identity: `|u|^2 |v|^2 = (u.v)^2 + |u x v|^2`. */
  lemma Lagrange(u: Vec3, v: Vec3)
    ensures LenSqr(u) * LenSqr(v) == Dot(u, v) * Dot(u, v) + LenSqr(Cross(u, v))
  {
    CrossLenSqr(u, v);
    LagrangeIdentity(u.x, u.y, u.z, v.x, v.y, v.z, LenSqr(u), LenSqr(v), Dot(u, v), LenSqr(Cross(u, v)));
  }

  /** The squared length of the cross product, written out. */
  lemma CrossLenSqr(u: Vec3, v: Vec3)
    ensures LenSqr(Cross(u, v))
      == (u.y * v.z - u.z * v.y) * (u.y * v.z - u.z * v.y) + (u.z * v.x - u.x * v.z) * (u.z * v.x - u.x * v.z)
         + (u.x * v.y - u.y * v.x) * (u.x * v.y - u.y * v.x)
  {
    assert Cross(u, v) == Vec3(u.y * v.z - u.z * v.y, u.z * v.x - u.x * v.z, u.x * v.y - u.y * v.x);
  }

  /** The squared length of `o + s d` as a quadratic in `s`. */
  lemma LenSqrAlong(o: Vec3, d: Vec3, s: real)
    ensures LenSqr(Add(o, Scale(s, d))) == Eval(Quadratic(LenSqr(d), Dot(o, d), LenSqr(o)), s)
  {
    SquareAlong(o.x, o.y, o.z, d.x, d.y, d.z, s);
  }

  /** Moving by `k` along `d` and back again returns to the start. */
  lemma CancelAlong(v: Vec3, d: Vec3, k: real)
    ensures Add(Add(v, Scale(k, d)), Scale(-k, d)) == v
  {
    assert (-k) * d.x == -(k * d.x) && (-k) * d.y == -(k * d.y) && (-k) * d.z == -(k * d.z);
  }

  /** Cauchy-Schwarz, from Lagrange's identity. */
  lemma CauchySchwarz(u: Vec3, v: Vec3)
    ensures Dot(u, v) * Dot(u, v) <= LenSqr(u) * LenSqr(v)
  {
    Lagrange(u, v);
  }

  /** Componentwise product is associative and commutative; the path
      integrator's two forms rely on this to regroup attenuations. */
  lemma MulLaws(u: Vec3, v: Vec3, w: Vec3)
    ensures Mul(Mul(u, v), w) == Mul(u, Mul(v, w))
    ensures Mul(u, v) == Mul(v, u)
  {
  }

  /** The unit tests of src/vector.rs, on the model. */
  lemma SourceTestVectors()
    ensures Add(Vec3(1.0, 2.0, 3.0), Vec3(3.0, 2.0, 1.0)) == Vec3(4.0, 4.0, 4.0)
    ensures Sub(Vec3(3.0, 2.0, 1.0), Vec3(3.0, 2.0, 1.0)) == Zero
    ensures Mul(Vec3(1.0, 2.0, 3.0), Vec3(3.0, 2.0, 1.0)) == Vec3(3.0, 4.0, 3.0)
    ensures Neg(Vec3(1.0, 2.0, 3.0)) == Vec3(-1.0, -2.0, -3.0)
    ensures Scale(2.0, Vec3(1.0, 2.0, 3.0)) == Vec3(2.0, 4.0, 6.0)
    ensures Div(Vec3(1.0, 2.0, 3.0), 2.0) == Vec3(0.5, 1.0, 1.5)
    ensures Dot(Vec3(1.0, 2.0, 3.0), Vec3(3.0, 2.0, 1.0)) == 10.0
    ensures Cross(Vec3(1.0, 2.0, 3.0), Vec3(3.0, 2.0, 1.0)) == Vec3(-4.0, 8.0, -4.0)
  {
  }

  /** The length and normalisation tests of src/vector.rs, on the model. */
  lemma SourceTestLengths(sqrt: real -> real)
    requires IsSqrt(sqrt)
    ensures Len(sqrt, Vec3(1.0, 2.0, 3.0)) == sqrt(14.0)
    ensures Unit(sqrt, Vec3(1.0, 2.0, 3.0))
      == Vec3(1.0 / sqrt(14.0), 2.0 / sqrt(14.0), 3.0 / sqrt(14.0))
  {
    var v := Vec3(1.0, 2.0, 3.0);
    assert LenSqr(v) == 14.0;
    var l := Len(sqrt, v);
    assert l == sqrt(14.0);
    assert Unit(sqrt, v) == Times(v, 1.0 / l);
  }
}
