/** Numeric building blocks shared by both vector modules: the square root that
    the tracer takes from `f64::sqrt`, `f64::min`/`f64::max`, `num::clamp`, the
    fifth power that stands for `powf(5.0)`, and the final `as u8` / `as i64`
    conversion of a clamped channel. Everything is over `real`; rounding, NaN and
    infinities are modelled explicitly where the tracer relies on them. */
module Num {

  /** `sqrt` agrees with the real square root on non-negative inputs. On negative
      inputs, where `f64::sqrt` yields NaN, nothing is promised. */
  ghost predicate IsSqrt(sqrt: real -> real) {
    forall x :: 0.0 <= x ==> 0.0 <= sqrt(x) && sqrt(x) * sqrt(x) == x
  }

  /** `sqrt` gives the square root of the one value `x`. */
  predicate IsSqrtAt(sqrt: real -> real, x: real) {
    0.0 <= sqrt(x) && sqrt(x) * sqrt(x) == x
  }

  /** Two non-negative reals with the same square are equal. */
  lemma SquareInjective(a: real, b: real)
    requires 0.0 <= a && 0.0 <= b && a * a == b * b
    ensures a == b
  {
    assert (a - b) * (a + b) == 0.0;
    if a + b != 0.0 {
      assert a - b == ((a - b) * (a + b)) / (a + b);
    }
  }

  /** A product with a positive factor is non-negative only if the other
      factor is. */
  lemma NonNegativeFactor(p: real, q: real)
    requires 0.0 < q && 0.0 <= p * q
    ensures 0.0 <= p
  {
    assert p == (p * q) / q;
  }

  /** Only zero squares to zero. */
  lemma SquareZero(a: real)
    ensures 0.0 <= a * a
    ensures a * a == 0.0 <==> a == 0.0
  {
    if a != 0.0 {
      assert (a * a) / a == a;
    }
  }

  /** Division by a positive number preserves order. */
  lemma DivMonotone(a: real, b: real, n: real)
    requires a <= b && 0.0 < n
    ensures a / n <= b / n
  {
    assert b / n - a / n == (b - a) / n;
  }

  /** The square root of a square is the base, for a non-negative base. */
  lemma SqrtOfSquare(sqrt: real -> real, a: real)
    requires IsSqrt(sqrt) && 0.0 <= a
    ensures sqrt(a * a) == a
  {
    var s := sqrt(a * a);
    assert 0.0 <= s && s * s == a * a;
    SquareInjective(s, a);
  }

  /** The square root of a positive number is positive. */
  lemma SqrtPositive(sqrt: real -> real, x: real)
    requires IsSqrt(sqrt) && 0.0 < x
    ensures 0.0 < sqrt(x)
  {
    assert sqrt(x) * sqrt(x) == x;
  }

  /** The square root is monotone on the non-negative reals. */
  lemma SqrtMonotone(sqrt: real -> real, x: real, y: real)
    requires IsSqrt(sqrt) && 0.0 <= x <= y
    ensures sqrt(x) <= sqrt(y)
  {
    var a, b := sqrt(x), sqrt(y);
    assert 0.0 <= a && a * a == x && 0.0 <= b && b * b == y;
    assert (b - a) * (b + a) >= 0.0;
    if b + a != 0.0 {
      NonNegativeFactor(b - a, b + a);
    }
  }

  /** A square of at most one has its base in [-1, 1]. */
  lemma SquareAtMostOne(a: real)
    requires a * a <= 1.0
    ensures -1.0 <= a <= 1.0
  {
  }

  /** A square bounded by the square of a non-negative bound keeps the base
      within the bound. */
  lemma SquareBound(a: real, bound: real)
    requires 0.0 <= bound && a * a <= bound * bound
    ensures -bound <= a <= bound
  {
    if a < 0.0 {
      assert (-a) * (-a) == a * a;
      SqrtBase(-a, bound);
    } else {
      SqrtBase(a, bound);
    }
  }

  lemma SqrtBase(a: real, bound: real)
    requires 0.0 <= a && 0.0 <= bound && a * a <= bound * bound
    ensures a <= bound
  {
    assert (bound - a) * (bound + a) >= 0.0;
    if bound + a != 0.0 {
      NonNegativeFactor(bound - a, bound + a);
    }
  }

  /** A discriminant `h^2 - a (o - rr)` is bounded by `a rr` when `h^2 <= o a`
      (Cauchy-Schwarz); so a positive one needs `a` and `rr` positive. */
  lemma DiscriminantBound(h: real, a: real, o: real, rr: real)
    requires h * h <= o * a && 0.0 <= a && 0.0 <= rr && h * h - a * (o - rr) > 0.0
    ensures 0.0 < a && 0.0 < rr
  {
    var p := a * rr;
    assert a * (o - rr) == o * a - p;
    assert 0.0 < p;
  }

  /** A product is zero exactly when a factor is. */
  lemma ZeroProduct(p: real, q: real)
    ensures p * q == 0.0 <==> p == 0.0 || q == 0.0
  {
    if p != 0.0 {
      assert q == (p * q) / p;
    }
  }

  /** The coefficients of the quadratic `a t^2 + 2 halfB t + c`, the form in
      which the tracer writes the ray-sphere equation. */
  datatype Quadratic = Quadratic(a: real, halfB: real, c: real)

  /** The reduced discriminant `halfB^2 - a c`. */
  function Disc(q: Quadratic): real {
    q.halfB * q.halfB - q.a * q.c
  }

  /** The value of the quadratic at `s`. */
  function Eval(q: Quadratic, s: real): real {
    q.a * s * s + 2.0 * q.halfB * s + q.c
  }

  /** Lowering the constant term lowers every value by the same amount. */
  lemma EvalShift(q: Quadratic, k: real, s: real)
    ensures Eval(Quadratic(q.a, q.halfB, q.c - k), s) == Eval(q, s) - k
  {
  }

  /** The two candidate roots `(-halfB -/+ sqrt(disc)) / a`, smaller first. */
  function QuadRoots(sqrt: real -> real, q: Quadratic): (real, real)
    requires q.a != 0.0
  {
    ((-q.halfB - sqrt(Disc(q))) / q.a, (-q.halfB + sqrt(Disc(q))) / q.a)
  }

  /** The coefficients of `a t^2 + 2 halfB t + c` satisfy `halfB^2 <= (c + rr) a`
      with `a` and `rr` non-negative: what Cauchy-Schwarz gives for the
      ray-sphere equation, with `rr` the squared radius. */
  predicate CauchyBound(q: Quadratic, rr: real) {
    0.0 <= q.a && 0.0 <= rr && q.halfB * q.halfB <= (q.c + rr) * q.a
  }

  /** Under that bound a positive discriminant needs `a` and `rr` positive. */
  lemma PositiveDisc(q: Quadratic, rr: real)
    requires CauchyBound(q, rr) && Disc(q) > 0.0
    ensures 0.0 < q.a && 0.0 < rr
  {
    DiscriminantBound(q.halfB, q.a, q.c + rr, rr);
  }

  /** With a positive leading coefficient and a square root of a non-negative
      discriminant, the quadratic vanishes exactly at the two ordered roots. */
  lemma QuadRootsSpec(sqrt: real -> real, q: Quadratic, s: real)
    requires 0.0 < q.a && 0.0 <= Disc(q) && IsSqrtAt(sqrt, Disc(q))
    ensures QuadRoots(sqrt, q).0 <= QuadRoots(sqrt, q).1
    ensures Eval(q, s) == 0.0 <==> s == QuadRoots(sqrt, q).0 || s == QuadRoots(sqrt, q).1
  {
    QuadraticRoots(q.a, q.halfB, q.c, Disc(q), sqrt(Disc(q)), s);
  }

  /** The same over plain reals: with `root` the square root of the
      discriminant, `a s^2 + 2 h s + c` vanishes exactly at `(-h -/+ root) / a`. */
  lemma QuadraticRoots(a: real, h: real, c: real, d: real, root: real, s: real)
    requires 0.0 < a && 0.0 <= root && root * root == d && d == h * h - a * c
    ensures (-h - root) / a <= (-h + root) / a
    ensures a * s * s + 2.0 * h * s + c == 0.0 <==> s == (-h - root) / a || s == (-h + root) / a
  {
    OrderedRoots(a, h, root);
    var q := a * s + h;
    var quad := a * s * s + 2.0 * h * s + c;
    CompletedSquare(a, h, c, s);
    DifferenceOfSquares(q, root);
    assert (q - root) * (q + root) == a * quad;
    ZeroProduct(a, quad);
    ZeroProduct(q - root, q + root);
    RootOfLinear(a, h, s, root);
    RootOfLinear(a, h, s, -root);
  }

  /** The two roots are ordered. */
  lemma OrderedRoots(a: real, h: real, root: real)
    requires 0.0 < a && 0.0 <= root
    ensures (-h - root) / a <= (-h + root) / a
  {
    assert (-h + root) / a - (-h - root) / a == (2.0 * root) / a;
  }

  /** Completing the square: `(a s + h)^2 = a (a s^2 + 2 h s + c) + h^2 - a c`. */
  lemma CompletedSquare(a: real, h: real, c: real, s: real)
    ensures (a * s + h) * (a * s + h) == a * (a * s * s + 2.0 * h * s + c) + (h * h - a * c)
  {
  }

  lemma DifferenceOfSquares(x: real, y: real)
    ensures (x - y) * (x + y) == x * x - y * y
  {
  }

  /** `a s + h = k` exactly when `s = (k - h) / a`. */
  lemma RootOfLinear(a: real, h: real, s: real, k: real)
    requires 0.0 < a
    ensures a * s + h == k <==> s == (-h + k) / a
  {
    if s == (-h + k) / a {
      assert a * s == -h + k;
    }
  }

  /** The squared length of `o + s d`, componentwise, as a quadratic in `s`. */
  lemma SquareAlong(ox: real, oy: real, oz: real, dx: real, dy: real, dz: real, s: real)
    ensures (ox + s * dx) * (ox + s * dx) + (oy + s * dy) * (oy + s * dy) + (oz + s * dz) * (oz + s * dz)
      == (dx * dx + dy * dy + dz * dz) * s * s + 2.0 * (ox * dx + oy * dy + oz * dz) * s
         + (ox * ox + oy * oy + oz * oz)
  {
  }

  /** Lagrange's identity in three dimensions, over plain reals: with `lu`,
      `lv` the squared lengths of `(a, b, c)` and `(d, e, f)`, `dot` their dot
      product and `lc` the squared length of their cross product,
      `lu lv = dot^2 + lc`. */
  lemma LagrangeIdentity(a: real, b: real, c: real, d: real, e: real, f: real,
                         lu: real, lv: real, dot: real, lc: real)
    requires lu == a * a + b * b + c * c && lv == d * d + e * e + f * f
    requires dot == a * d + b * e + c * f
    requires lc == (b * f - c * e) * (b * f - c * e) + (c * d - a * f) * (c * d - a * f)
                   + (a * e - b * d) * (a * e - b * d)
    ensures lu * lv == dot * dot + lc
  {
  }

  /** The negation of a product of unit-bounded factors, as in a cosine of
      unit vectors: its square is at most one, and so is the value itself. */
  lemma CosineBound(d: real, lu: real, lv: real)
    requires d * d <= lu * lv && lu == 1.0 && lv == 1.0
    ensures (-d) * (-d) <= 1.0 && -d <= 1.0
  {
    assert (-d) * (-d) == d * d;
    SquareAtMostOne(d);
  }

  /** The quadratic `s^2 - 2 c s + 1` at `s = c`. */
  lemma UnitEval(q: Quadratic, c: real)
    requires q.a == 1.0 && q.halfB == -c && q.c == 1.0
    ensures Eval(q, c) == 1.0 - c * c
  {
  }

  /** `k` is the non-negative square root of `|1 - l|`. */
  predicate RootOfGap(k: real, l: real) {
    0.0 <= k && (k * k == 1.0 - l || k * k == l - 1.0)
  }

  /** The root of `|1 - 0|` is one. */
  lemma RootOfNoGap(k: real, l: real)
    requires RootOfGap(k, l) && l == 0.0
    ensures k == 1.0
  {
    SquareZero(k);
    SquareInjective(k, 1.0);
  }

  /** A part of squared length `l <= 1` plus an orthogonal unit part scaled
      by `-p`, where `p^2 = |1 - l|`, has squared length one. */
  lemma ParallelEval(q: Quadratic, p: real)
    requires q.a == 1.0 && q.halfB == 0.0 && q.c <= 1.0
    requires RootOfGap(p, q.c)
    ensures Eval(q, -p) == 1.0
  {
    SquareZero(p);
    assert (-p) * (-p) == p * p;
  }

  /** The quadratic `s^2 + a^2` of two orthogonal parts, one of them a unit
      vector scaled by `s`. */
  lemma EvalOrthogonal(q: Quadratic, s: real, a: real)
    requires q.a == 1.0 && q.halfB == 0.0 && q.c == a * a
    ensures Eval(q, s) == s * s + a * a
  {
  }

  /** `f64::min` for operands that are not NaN. */
  function Min(a: real, b: real): (m: real)
    ensures m <= a && m <= b && (m == a || m == b)
  {
    if a <= b then a else b
  }

  /** `f64::max` for operands that are not NaN. */
  function Max(a: real, b: real): (m: real)
    ensures a <= m && b <= m && (m == a || m == b)
  {
    if a <= b then b else a
  }

  /** `num::clamp`: the input when it lies in [lo, hi], otherwise the bound it
      crosses (the library's debug assertion demands `lo <= hi`). */
  function Clamp(x: real, lo: real, hi: real): (c: real)
    requires lo <= hi
    ensures lo <= c <= hi
    ensures lo <= x <= hi ==> c == x
    ensures x < lo ==> c == lo
    ensures hi < x ==> c == hi
  {
    if x < lo then lo else if x > hi then hi else x
  }

  /** A fraction of a non-negative amount lies between zero and the amount. */
  lemma ScaleDown(a: real, p: real)
    requires 0.0 <= a && 0.0 <= p <= 1.0
    ensures 0.0 <= a * p <= a
  {
    assert a * p <= a * 1.0;
  }

  /** A product of non-negative factors that is at most one has its square
      at most one. */
  lemma BoundedSquare(a: real, t: real)
    requires 0.0 <= a && 0.0 <= t && a * t <= 1.0
    ensures a * a * (t * t) <= 1.0
  {
    var p := a * t;
    assert p * p <= p * 1.0;
    assert a * a * (t * t) == p * p;
  }

  /** `b.powf(5.0)`, which is exact for the fifth power of a real. */
  function Pow5(b: real): real {
    b * b * b * b * b
  }

  /** A power of a base in [0, 1] stays in [0, 1]. */
  lemma Pow5Unit(b: real)
    requires 0.0 <= b <= 1.0
    ensures 0.0 <= Pow5(b) <= 1.0
  {
    var b2 := b * b;
    assert 0.0 <= b2 <= 1.0 by { assert b * b <= b * 1.0; }
    var b4 := b2 * b2;
    assert 0.0 <= b4 <= 1.0 by { assert b2 * b2 <= b2 * 1.0; }
    assert Pow5(b) == b4 * b;
    assert b4 * b <= b4 * 1.0;
  }

  /** `(256.0 * c) as u8` (or `as i64`) for a channel already clamped to
      [0, 0.999]: the cast truncates, and the result is a byte value. */
  function ToByte(c: real): (b: int)
    requires 0.0 <= c <= 0.999
    ensures 0 <= b <= 255
    ensures b as real <= 256.0 * c < b as real + 1.0
  {
    (256.0 * c).Floor
  }

  /** Truncation to a byte is monotone in the clamped channel. */
  lemma ToByteMonotone(c: real, d: real)
    requires 0.0 <= c <= d <= 0.999
    ensures ToByte(c) <= ToByte(d)
  {
  }
}
