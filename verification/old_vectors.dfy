/** The older `Vec3` of src/types/vector.rs. It stores `[f64; 3]` behind an
    index operator and spells out the same componentwise sum, difference,
    products and quotient as src/vector.rs, so the model reuses the Vectors
    carrier and those operations. What is its own is stated here: indexing,
    the products written through the indices, a negation that flips only the
    x component, `reflect`, `refract` (whose `cos_theta` goes through that
    negation) and the numeric part of `as_color`. */
module OldVectors {
  import opened Num
  import opened Vectors
  import Materials

  /** `Index`: component `i`. The source asserts `i < 3`; the model makes it
      a precondition. */
  function Index(v: Vec3, i: nat): real
    requires i < 3
  {
    if i == 0 then v.x else if i == 1 then v.y else v.z
  }

  /** The three indices are the accessors `x()`, `y()`, `z()`, and they
      rebuild the vector. */
  lemma IndexRebuilds(v: Vec3)
    ensures Vec3(Index(v, 0), Index(v, 1), Index(v, 2)) == v
    ensures forall i :: 0 <= i < 3 ==> Index(v, i) == Comp(v, i)
  {
  }

  /** `f64 * Vec3`, which hands over to `Vec3 * f64`. */
  function ScaleLeft(s: real, v: Vec3): (r: Vec3)
    ensures r == Times(v, s)
  {
    Times(v, s)
  }

  /** Because of the hand-over, scalar multiplication commutes and agrees
      with the newer module's `f64 * Vec3`. */
  lemma ScaleCommutes(s: real, v: Vec3)
    ensures ScaleLeft(s, v) == Scale(s, v)
    ensures ScaleLeft(s, v).x == v.x * s && ScaleLeft(s, v).y == v.y * s && ScaleLeft(s, v).z == v.z * s
  {
  }

  /** `Vec3::dot`, through the index accessors. */
  function Dot(u: Vec3, v: Vec3): real {
    Index(u, 0) * Index(v, 0) + Index(u, 1) * Index(v, 1) + Index(u, 2) * Index(v, 2)
  }

  /** `Vec3::cross`, through the index accessors. */
  function Cross(u: Vec3, v: Vec3): Vec3 {
    Vec3(Index(u, 1) * Index(v, 2) - Index(u, 2) * Index(v, 1),
         -(Index(u, 0) * Index(v, 2)) + Index(u, 2) * Index(v, 0),
         Index(u, 0) * Index(v, 1) - Index(u, 1) * Index(v, 0))
  }

  /** `len_sqr`: the dot product of a vector with itself. */
  function LenSqr(v: Vec3): real {
    Dot(v, v)
  }

  /** The older dot product is the newer one, so it is symmetric. */
  lemma DotAgrees(u: Vec3, v: Vec3)
    ensures Dot(u, v) == Vectors.Dot(u, v) && Dot(u, v) == Dot(v, u)
  {
  }

  /** The older cross product is the newer one. */
  lemma CrossAgrees(u: Vec3, v: Vec3)
    ensures Cross(u, v) == Vectors.Cross(u, v)
  {
  }

  /** The older `len_sqr` is the newer one, so it is never negative. */
  lemma LenSqrAgrees(v: Vec3)
    ensures LenSqr(v) == Vectors.LenSqr(v) && 0.0 <= LenSqr(v)
  {
    DotAgrees(v, v);
  }

  /** The older cross product is anti-commutative and orthogonal to both
      operands. */
  lemma CrossAntiCommutes(u: Vec3, v: Vec3)
    ensures Cross(u, v) == Vectors.Neg(Cross(v, u))
    ensures Dot(Cross(u, v), u) == 0.0 && Dot(Cross(u, v), v) == 0.0
  {
    CrossAgrees(u, v);
    CrossAgrees(v, u);
    DotAgrees(Cross(u, v), u);
    DotAgrees(Cross(u, v), v);
    Vectors.CrossAntiCommutative(u, v);
  }

  /** `Neg` as written: only the x component changes sign. */
  function Neg(v: Vec3): Vec3 {
    Vec3(-Index(v, 0), Index(v, 1), Index(v, 2))
  }

  /** Applying the x-only negation twice still gives the vector back, but a
      vector plus its "negation" is zero only when its y and z components are
      already zero; the negation agrees with the componentwise one under the
      same condition. */
  lemma NegAsWritten(v: Vec3)
    ensures Neg(Neg(v)) == v
    ensures Add(v, Neg(v)) == Zero <==> v.y == 0.0 && v.z == 0.0
    ensures Neg(v) == Vectors.Neg(v) <==> v.y == 0.0 && v.z == 0.0
  {
  }

  /** The input that shows it: `(1, 2, 3) + -(1, 2, 3)` is `(0, 4, 6)`, not
      the zero vector that the componentwise negation gives. */
  lemma NegDoesNotCancel()
    ensures Add(Vec3(1.0, 2.0, 3.0), Neg(Vec3(1.0, 2.0, 3.0))) == Vec3(0.0, 4.0, 6.0)
    ensures Add(Vec3(1.0, 2.0, 3.0), Vectors.Neg(Vec3(1.0, 2.0, 3.0))) == Zero
  {
  }

  /** `reflect`: `incident - 2 ((incident . normal) normal)`. */
  function Reflect(incident: Vec3, normal: Vec3): Vec3 {
    Sub(incident, ScaleLeft(2.0, ScaleLeft(Dot(incident, normal), normal)))
  }

  /** The older reflection is the newer one. */
  lemma ReflectAgrees(v: Vec3, n: Vec3)
    ensures Reflect(v, n) == Materials.Reflect(v, n)
  {
    DotAgrees(v, n);
    ScaleCommutes(Dot(v, n), n);
    ScaleCommutes(2.0, Scale(Dot(v, n), n));
  }

  /** About a unit normal the older reflection is an involution that negates
      the normal component. */
  lemma ReflectInvolution(v: Vec3, n: Vec3)
    requires LenSqr(n) == 1.0
    ensures Reflect(Reflect(v, n), n) == v
    ensures Dot(Reflect(v, n), n) == -Dot(v, n)
  {
    LenSqrAgrees(n);
    var w := Reflect(v, n);
    ReflectAgrees(v, n);
    ReflectAgrees(w, n);
    DotAgrees(v, n);
    DotAgrees(w, n);
    Materials.ReflectFlipsNormal(v, n);
    Materials.ReflectInvolution(v, n);
  }

  /** `cos_theta` of `refract`: `(-uv) . normal`, with the x-only negation. */
  function RefractCos(uv: Vec3, normal: Vec3): real {
    Dot(Neg(uv), normal)
  }

  /** The perpendicular part `eta (uv + cos_theta normal)`. */
  function RefractPerp(uv: Vec3, normal: Vec3, eta: real): Vec3 {
    ScaleLeft(eta, Add(uv, ScaleLeft(RefractCos(uv, normal), normal)))
  }

  /** The length of the parallel part, `sqrt(|1 - |perp|^2|)`. */
  function ParallelLength(sqrt: real -> real, perp: Vec3): (k: real)
    requires IsSqrt(sqrt)
    ensures RootOfGap(k, LenSqr(perp))
  {
    var s := 1.0 - LenSqr(perp);
    sqrt(if s < 0.0 then -s else s)
  }

  /** `refract`: the perpendicular part plus the parallel part
      `-sqrt(|1 - |perp|^2|) normal`, which points against the normal. */
  function Refract(sqrt: real -> real, uv: Vec3, normal: Vec3, eta: real): (d: Vec3)
    requires IsSqrt(sqrt)
    ensures exists k :: k <= 0.0 && d == Add(RefractPerp(uv, normal, eta), Scale(k, normal))
  {
    var perp := RefractPerp(uv, normal, eta);
    var k := -ParallelLength(sqrt, perp);
    assert ScaleLeft(k, normal) == Scale(k, normal);
    Add(perp, ScaleLeft(k, normal))
  }

  /** The older `cos_theta` is the newer one exactly when the y and z parts
      of `uv . normal` cancel. */
  lemma RefractCosAgreesIff(uv: Vec3, n: Vec3)
    ensures RefractCos(uv, n) == Vectors.Dot(Vectors.Neg(uv), n) <==> uv.y * n.y + uv.z * n.z == 0.0
  {
    RefractCosFormula(uv, n);
    DotNeg(uv, n);
  }

  /** The older refraction is the newer one wherever the x-only negation does
      not matter to `cos_theta`, that is wherever the y and z parts of
      `uv . normal` cancel. (The converse does not hold for the whole
      refraction: at `eta = 0` both give `-normal` for every `uv`.) */
  lemma RefractAgrees(sqrt: real -> real, uv: Vec3, n: Vec3, eta: real)
    requires IsSqrt(sqrt) && uv.y * n.y + uv.z * n.z == 0.0
    ensures RefractCos(uv, n) == Vectors.Dot(Vectors.Neg(uv), n)
    ensures Refract(sqrt, uv, n, eta) == Materials.Refract(sqrt, uv, n, eta)
  {
    RefractPerpAgrees(uv, n, eta);
    var perp := RefractPerp(uv, n, eta);
    LenSqrAgrees(perp);
    assert ParallelLength(sqrt, perp) == Materials.ParallelLength(sqrt, perp);
    var k := -ParallelLength(sqrt, perp);
    ScaleCommutes(k, n);
  }

  /** Under the same condition the perpendicular parts agree. */
  lemma RefractPerpAgrees(uv: Vec3, n: Vec3, eta: real)
    requires uv.y * n.y + uv.z * n.z == 0.0
    ensures RefractCos(uv, n) == Vectors.Dot(Vectors.Neg(uv), n)
    ensures RefractPerp(uv, n, eta) == Materials.RefractPerp(uv, n, eta)
  {
    var c := RefractCos(uv, n);
    RefractCosFormula(uv, n);
    ScaleCommutes(c, n);
    ScaleCommutes(eta, Add(uv, Scale(c, n)));
  }

  /** The older `cos_theta` written out: the x term changes sign, the others
      do not. */
  lemma RefractCosFormula(uv: Vec3, n: Vec3)
    ensures RefractCos(uv, n) == -(uv.x * n.x) + uv.y * n.y + uv.z * n.z
  {
  }

  /** The input that shows it: a unit ray falling straight onto a unit
      normal with no x component (such as `(0, 1, 0)`), between media of
      equal index. The newer `refract` lets the ray pass unchanged; the older
      one computes `cos_theta = -1` instead of `1`, and sends the ray on in
      the same direction but with length `2 + sqrt 3`. */
  lemma RefractHeadOn(sqrt: real -> real, n: Vec3)
    requires IsSqrt(sqrt) && Vectors.LenSqr(n) == 1.0 && n.x == 0.0
    ensures Materials.Refract(sqrt, Vectors.Neg(n), n, 1.0) == Vectors.Neg(n)
    ensures RefractCos(Vectors.Neg(n), n) == -1.0
    ensures Vectors.Dot(Refract(sqrt, Vectors.Neg(n), n, 1.0), n) <= -2.0
    ensures Refract(sqrt, Vectors.Neg(n), n, 1.0) == Scale(-(2.0 + sqrt(3.0)), n)
  {
    HeadOnNewer(sqrt, n, Vectors.Neg(n));
    HeadOnOlder(sqrt, n, Vectors.Neg(n));
  }

  lemma HeadOnNewer(sqrt: real -> real, n: Vec3, uv: Vec3)
    requires IsSqrt(sqrt) && Vectors.LenSqr(n) == 1.0 && uv == Vectors.Neg(n)
    ensures Materials.Refract(sqrt, uv, n, 1.0) == uv
  {
    var perp := Materials.RefractPerp(uv, n, 1.0);
    HeadOnPerp(uv, n, perp);
    ParallelOfNull(sqrt, perp);
    NewerRefractWith(sqrt, uv, n, 1.0, perp, 1.0);
    PassesUnchanged(perp, n, uv, Materials.Refract(sqrt, uv, n, 1.0));
  }

  /** A null perpendicular part and a unit parallel part give back `-n`. */
  lemma PassesUnchanged(perp: Vec3, n: Vec3, uv: Vec3, d: Vec3)
    requires perp.x == 0.0 && perp.y == 0.0 && perp.z == 0.0 && uv == Vectors.Neg(n)
    requires d == Add(perp, Scale(-1.0, n))
    ensures d == uv
  {
  }

  /** Head on, the newer perpendicular part vanishes. */
  lemma HeadOnPerp(uv: Vec3, n: Vec3, perp: Vec3)
    requires Vectors.LenSqr(n) == 1.0 && uv == Vectors.Neg(n)
    requires perp == Materials.RefractPerp(uv, n, 1.0)
    ensures perp.x == 0.0 && perp.y == 0.0 && perp.z == 0.0
  {
    assert Vectors.Neg(uv) == n;
    assert Vectors.Dot(n, n) == 1.0;
  }

  lemma HeadOnOlder(sqrt: real -> real, n: Vec3, uv: Vec3)
    requires IsSqrt(sqrt) && Vectors.LenSqr(n) == 1.0 && n.x == 0.0 && uv == Vectors.Neg(n)
    ensures RefractCos(uv, n) == -1.0
    ensures Vectors.Dot(Refract(sqrt, uv, n, 1.0), n) <= -2.0
    ensures Refract(sqrt, uv, n, 1.0) == Scale(-(2.0 + sqrt(3.0)), n)
  {
    RefractCosFormula(uv, n);
    assert RefractCos(uv, n) == -Vectors.LenSqr(n);
    var perp := Scale(1.0, Add(uv, Scale(-1.0, n)));
    assert perp == Scale(-2.0, n);
    var p := ParallelLength(sqrt, perp);
    RefractWith(sqrt, uv, n, 1.0, -1.0, perp, p);
    HeadOnParallel(sqrt, n, perp, p);
    BackAlong(n, p, Refract(sqrt, uv, n, 1.0));
  }

  /** Head on, the older perpendicular part `-2 n` has squared length 4, so
      the parallel part has length `sqrt |1 - 4| = sqrt 3`. */
  lemma HeadOnParallel(sqrt: real -> real, n: Vec3, perp: Vec3, p: real)
    requires IsSqrt(sqrt) && Vectors.LenSqr(n) == 1.0 && perp == Scale(-2.0, n)
    requires p == ParallelLength(sqrt, perp)
    ensures p == sqrt(3.0)
  {
    LenSqrAgrees(perp);
    DotLaws(n, n, n, -2.0);
    DotLaws(n, Scale(-2.0, n), n, -2.0);
    assert Vectors.LenSqr(perp) == 4.0;
  }

  /** `-2 n - p n` for a unit `n` and `p >= 0` is `-(2 + p) n`, whose dot
      product with `n` is at most `-2`. */
  lemma BackAlong(n: Vec3, p: real, d: Vec3)
    requires Vectors.LenSqr(n) == 1.0 && 0.0 <= p
    requires d == Add(Scale(-2.0, n), Scale(-p, n))
    ensures d == Scale(-(2.0 + p), n)
    ensures Vectors.Dot(d, n) <= -2.0
  {
    assert d == Scale(-2.0 - p, n);
    DotLaws(n, n, n, -2.0 - p);
  }

  /** The same defect at any angle: a unit direction `(x, y, 0)` falling
      onto the normal `(0, 1, 0)` between media of equal index. The newer
      `refract` lets it pass unchanged; the older one computes
      `cos_theta = y` instead of `-y`, so the perpendicular part is
      `(x, 2 y, 0)` and the ray leaves more than twice as steep. */
  lemma RefractOblique(sqrt: real -> real, uv: Vec3, n: Vec3)
    requires IsSqrt(sqrt) && n.x == 0.0 && n.y == 1.0 && n.z == 0.0
    requires uv.z == 0.0 && uv.x * uv.x + uv.y * uv.y == 1.0 && uv.y < 0.0
    ensures Materials.Refract(sqrt, uv, n, 1.0) == uv
    ensures Refract(sqrt, uv, n, 1.0).y < 2.0 * uv.y
  {
    ObliqueNewer(sqrt, uv, n);
    ObliqueOlder(sqrt, uv, n);
  }

  /** The input that shows it at an angle: `(0.6, -0.8, 0)` passes the newer
      `refract` unchanged, and the older one sends it below `y = -1.6`. */
  lemma RefractObliqueExample(sqrt: real -> real)
    requires IsSqrt(sqrt)
    ensures Materials.Refract(sqrt, Vec3(0.6, -0.8, 0.0), Vec3(0.0, 1.0, 0.0), 1.0) == Vec3(0.6, -0.8, 0.0)
    ensures Refract(sqrt, Vec3(0.6, -0.8, 0.0), Vec3(0.0, 1.0, 0.0), 1.0).y < -1.6
  {
    RefractOblique(sqrt, Vec3(0.6, -0.8, 0.0), Vec3(0.0, 1.0, 0.0));
  }

  lemma ObliqueNewer(sqrt: real -> real, uv: Vec3, n: Vec3)
    requires IsSqrt(sqrt) && n.x == 0.0 && n.y == 1.0 && n.z == 0.0
    requires uv.z == 0.0 && uv.x * uv.x + uv.y * uv.y == 1.0 && uv.y < 0.0
    ensures Materials.Refract(sqrt, uv, n, 1.0) == uv
  {
    var perp := Materials.RefractPerp(uv, n, 1.0);
    ObliqueNewerPerp(uv, n, perp);
    var p := Materials.ParallelLength(sqrt, perp);
    GapRoot(p, perp.x * perp.x, -uv.y);
    NewerRefractWith(sqrt, uv, n, 1.0, perp, p);
  }

  /** The newer perpendicular part keeps only the x component. */
  lemma ObliqueNewerPerp(uv: Vec3, n: Vec3, perp: Vec3)
    requires n.x == 0.0 && n.y == 1.0 && n.z == 0.0 && uv.z == 0.0
    requires perp == Materials.RefractPerp(uv, n, 1.0)
    ensures perp == Vec3(uv.x, 0.0, 0.0)
  {
    assert Vectors.Dot(Vectors.Neg(uv), n) == -uv.y;
  }

  /** The root of `|1 - l|` for `l = 1 - r^2` and `r >= 0` is `r`. */
  lemma GapRoot(k: real, l: real, r: real)
    requires RootOfGap(k, l) && 0.0 <= r && l + r * r == 1.0
    ensures k == r
  {
    assert 0.0 <= k * k && 0.0 <= r * r;
    assert k * k == r * r;
    SquareInjective(k, r);
  }

  lemma ObliqueOlder(sqrt: real -> real, uv: Vec3, n: Vec3)
    requires IsSqrt(sqrt) && n.x == 0.0 && n.y == 1.0 && n.z == 0.0
    requires uv.z == 0.0 && uv.x * uv.x + uv.y * uv.y == 1.0 && uv.y < 0.0
    ensures Refract(sqrt, uv, n, 1.0).y < 2.0 * uv.y
  {
    RefractCosFormula(uv, n);
    var c := RefractCos(uv, n);
    assert c == uv.y;
    var perp := Scale(1.0, Add(uv, Scale(c, n)));
    var p := ParallelLength(sqrt, perp);
    RefractWith(sqrt, uv, n, 1.0, c, perp, p);
    ObliqueOlderGap(uv, n, perp, p);
  }

  /** The older perpendicular part is longer than one, so the parallel part
      has positive length. */
  lemma ObliqueOlderGap(uv: Vec3, n: Vec3, perp: Vec3, p: real)
    requires n.x == 0.0 && n.y == 1.0 && n.z == 0.0
    requires uv.z == 0.0 && uv.x * uv.x + uv.y * uv.y == 1.0 && uv.y < 0.0
    requires perp == Scale(1.0, Add(uv, Scale(uv.y, n)))
    requires RootOfGap(p, LenSqr(perp))
    ensures 0.0 < p
  {
    assert perp == Vec3(uv.x, 2.0 * uv.y, 0.0);
    LenSqrAgrees(perp);
    var q := uv.y * uv.y;
    assert LenSqr(perp) == 1.0 + 3.0 * q;
    SquareZero(uv.y);
    assert p * p == 3.0 * q || p * p == -3.0 * q;
    assert p != 0.0;
  }

  /** The older refraction for a known `cos_theta` and parallel length. */
  lemma RefractWith(sqrt: real -> real, uv: Vec3, n: Vec3, eta: real, c: real, perp: Vec3, p: real)
    requires IsSqrt(sqrt) && c == RefractCos(uv, n)
    requires perp == Scale(eta, Add(uv, Scale(c, n)))
    requires p == ParallelLength(sqrt, perp)
    ensures RefractPerp(uv, n, eta) == perp
    ensures Refract(sqrt, uv, n, eta) == Add(perp, Scale(-p, n)) && 0.0 <= p
  {
    ScaleCommutes(c, n);
    ScaleCommutes(eta, Add(uv, Scale(c, n)));
    ScaleCommutes(-p, n);
  }

  /** The newer refraction for a known perpendicular part and parallel
      length. */
  lemma NewerRefractWith(sqrt: real -> real, uv: Vec3, n: Vec3, eta: real, perp: Vec3, p: real)
    requires IsSqrt(sqrt) && perp == Materials.RefractPerp(uv, n, eta)
    requires p == Materials.ParallelLength(sqrt, perp)
    ensures Materials.Refract(sqrt, uv, n, eta) == Add(perp, Scale(-p, n))
  {
  }

  /** With a null perpendicular part the parallel part has length one. */
  lemma ParallelOfNull(sqrt: real -> real, perp: Vec3)
    requires IsSqrt(sqrt) && perp.x == 0.0 && perp.y == 0.0 && perp.z == 0.0
    ensures Materials.ParallelLength(sqrt, perp) == 1.0
  {
    RootOfNoGap(Materials.ParallelLength(sqrt, perp), Vectors.LenSqr(perp));
  }

  /** The numeric part of `as_color` for one channel: the channel is
      multiplied by `1 / samples` (an `i64` converted to `f64`), square-rooted,
      clamped to [0, 0.999], multiplied by 256 and cast to `i64`. As in the
      newer quantisation, zero samples make the scale +inf, so only a
      positive channel survives (as 255), and a NaN from the square root of a
      negative value casts to 0. */
  function AsColorChannel(sqrt: real -> real, c: real, samples: int): (b: int)
    requires IsSqrt(sqrt)
    ensures 0 <= b <= 255
  {
    if samples == 0 then
      if c > 0.0 then ToByte(0.999) else 0
    else
      var scaled := c * (1.0 / samples as real);
      if scaled < 0.0 then 0 else ToByte(Clamp(sqrt(scaled), 0.0, 0.999))
  }

  /** `as_color`: the three channels of a summed pixel colour. */
  function AsColor(sqrt: real -> real, v: Vec3, samples: int): (rgb: (int, int, int))
    requires IsSqrt(sqrt)
    ensures 0 <= rgb.0 <= 255 && 0 <= rgb.1 <= 255 && 0 <= rgb.2 <= 255
  {
    (AsColorChannel(sqrt, Index(v, 0), samples),
     AsColorChannel(sqrt, Index(v, 1), samples),
     AsColorChannel(sqrt, Index(v, 2), samples))
  }

  /** For a non-negative sample count `as_color` quantises every channel
      exactly like the newer `r`, `g` and `b`; a negative count turns every
      positive channel black. */
  lemma AsColorAgrees(sqrt: real -> real, v: Vec3, samples: int)
    requires IsSqrt(sqrt)
    ensures 0 <= samples ==>
      AsColor(sqrt, v, samples) == (Channel(sqrt, v.x, samples), Channel(sqrt, v.y, samples), Channel(sqrt, v.z, samples))
    ensures samples < 0 && 0.0 < v.x ==> AsColor(sqrt, v, samples).0 == 0
  {
    if 0 < samples {
      ChannelAgrees(sqrt, v.x, samples);
      ChannelAgrees(sqrt, v.y, samples);
      ChannelAgrees(sqrt, v.z, samples);
    } else if samples < 0 && 0.0 < v.x {
      assert v.x * (1.0 / samples as real) < 0.0;
    }
  }

  /** One channel: multiplying by `1 / samples` is dividing by `samples`. */
  lemma ChannelAgrees(sqrt: real -> real, c: real, samples: nat)
    requires IsSqrt(sqrt) && 0 < samples
    ensures AsColorChannel(sqrt, c, samples) == Channel(sqrt, c, samples)
  {
    var n := samples as real;
    DivSign(c, n);
    if c < 0.0 {
      assert AsColorChannel(sqrt, c, samples) == 0;
    } else {
      ChannelOfScaled(sqrt, c, samples, c / n);
    }
  }

  /** A positive count and a non-negative scaled channel `q` give the byte
      of `q`'s clamped root. */
  lemma ChannelOfScaled(sqrt: real -> real, c: real, samples: int, q: real)
    requires IsSqrt(sqrt) && samples != 0
    requires c * (1.0 / samples as real) == q && 0.0 <= q
    ensures AsColorChannel(sqrt, c, samples) == ToByte(Clamp(sqrt(q), 0.0, 0.999))
  {
  }

  /** Dividing by a positive count is multiplying by its inverse, and keeps
      the sign. */
  lemma DivSign(c: real, n: real)
    requires 0.0 < n
    ensures c * (1.0 / n) == c / n
    ensures c < 0.0 ==> c / n < 0.0
    ensures 0.0 <= c ==> 0.0 <= c / n
  {
    if 0.0 <= c {
      DivMonotone(0.0, c, n);
    }
  }
}
