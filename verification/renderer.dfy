/** The path integrator and the sequential renderer (src/renderer.rs).

    A path is driven by what happens to each ray: it escapes to the sky, it
    is absorbed, or it bounces on with an attenuation. `Trace` computes that
    outcome from the world and the draws of one scatter; the integrators take
    the outcomes as an oracle `step(k, r)` indexed by the bounce number `k`,
    which is how the recursive and the iterative integrator can be compared on
    the same random draws. */
module Renderer {
  import opened Num
  import opened Options
  import opened Vectors
  import opened Models
  import opened Materials
  import opened Cameras

  /** What becomes of a ray at one bounce. */
  datatype Event = Escape | Absorb | Bounce(attenuation: Vec3, next: Ray)

  const Black := Zero

  /** Every component lies in [0, 1]. */
  predicate InUnitCube(v: Vec3) {
    0.0 <= v.x <= 1.0 && 0.0 <= v.y <= 1.0 && 0.0 <= v.z <= 1.0
  }

  /** One bounce in the world: `world.hit`, then the scatter of the hit's
      material with the draws `d`. */
  function Trace(sqrt: real -> real, world: Model<Material>, d: Samples, r: Ray): (e: Event)
    requires IsSqrt(sqrt) && AllMaterials(world, Usable) && r.direction != Zero
    ensures e.Escape? <==> HitModel(sqrt, world, r).None?
    ensures e.Bounce? ==> e.next.origin == HitModel(sqrt, world, r).value.point
  {
    match HitModel(sqrt, world, r)
    case None => Escape
    case Some(hit) =>
      HitMaterial(sqrt, world, r, Usable);
      match Scatter(sqrt, r, hit, d)
      case None => Absorb
      case Some(s) => Bounce(s.attenuation, s.ray)
  }

  /** A material that filters light and does not amplify it. */
  predicate Dims(m: Material) {
    Usable(m) && (m.Lambertian? || m.Metal? ==> InUnitCube(m.albedo))
  }

  /** In a world of such materials every bounce attenuates within [0, 1]. */
  lemma TraceAttenuates(sqrt: real -> real, world: Model<Material>, d: Samples, r: Ray)
    requires IsSqrt(sqrt) && AllMaterials(world, Dims) && r.direction != Zero
    ensures AllMaterials(world, Usable)
    ensures Trace(sqrt, world, d, r).Bounce? ==> InUnitCube(Trace(sqrt, world, d, r).attenuation)
  {
    AllMaterialsWeaken(world, Dims, Usable);
    HitMaterial(sqrt, world, r, Dims);
  }

  /** `P` everywhere and `P` implying `Q` give `Q` everywhere. */
  lemma {:induction false} AllMaterialsWeaken<M>(m: Model<M>, P: M -> bool, Q: M -> bool)
    requires AllMaterials(m, P) && forall x :: P(x) ==> Q(x)
    ensures AllMaterials(m, Q)
    decreases m
  {
    match m
    case Sphere(_, _, _) =>
    case List(items) =>
      forall i | 0 <= i < |items|
        ensures AllMaterials(items[i], Q)
      {
        AllMaterialsWeaken(items[i], P, Q);
      }
    case Node(left, right, _) =>
      AllMaterialsWeaken(left, P, Q);
      AllMaterialsWeaken(right, P, Q);
  }

  /** Along the path that `ray_color` follows from `r` with `depth` levels
      left, starting at bounce `k`, every ray that is still looked at has a
      non-zero direction (whose `unit()` would otherwise divide by zero). */
  predicate MovesAlong(step: (nat, Ray) -> Event, r: Ray, depth: nat, k: nat)
    decreases depth
  {
    depth == 0 ||
      (r.direction != Zero &&
       (step(k, r).Bounce? ==> MovesAlong(step, step(k, r).next, depth - 1, k + 1)))
  }

  /** The outcomes in a world: bounce `k` traces the world with the draws
      `bounces(k)`. A zero direction, which no path admitted by `MovesAlong`
      ever asks about, is given an arbitrary outcome. */
  function WorldStep(sqrt: real -> real, world: Model<Material>, bounces: nat -> Samples): (nat, Ray) -> Event
    requires IsSqrt(sqrt) && AllMaterials(world, Usable)
  {
    (k: nat, r: Ray) => if r.direction == Zero then Absorb else Trace(sqrt, world, bounces(k), r)
  }

  /** Bounce `k` of a moving ray is the trace of the world with the draws
      of that bounce. */
  lemma WorldStepTraces(sqrt: real -> real, world: Model<Material>, bounces: nat -> Samples, k: nat, r: Ray)
    requires IsSqrt(sqrt) && AllMaterials(world, Usable) && r.direction != Zero
    ensures WorldStep(sqrt, world, bounces)(k, r) == Trace(sqrt, world, bounces(k), r)
  {
  }

  /** In a world of dimming materials the outcomes only attenuate within
      [0, 1]. */
  lemma WorldAttenuates(sqrt: real -> real, world: Model<Material>, bounces: nat -> Samples)
    requires IsSqrt(sqrt) && AllMaterials(world, Dims)
    ensures AllMaterials(world, Usable)
    ensures Attenuating(WorldStep(sqrt, world, bounces))
  {
    AllMaterialsWeaken(world, Dims, Usable);
    var step := WorldStep(sqrt, world, bounces);
    forall k: nat, r: Ray | step(k, r).Bounce?
      ensures InUnitCube(step(k, r).attenuation)
    {
      WorldStepTraces(sqrt, world, bounces, k, r);
      TraceAttenuates(sqrt, world, bounces(k), r);
    }
  }

  /** The oracle only attenuates within [0, 1]. */
  ghost predicate Attenuating(step: (nat, Ray) -> Event) {
    forall k: nat, r: Ray :: step(k, r).Bounce? ==> InUnitCube(step(k, r).attenuation)
  }

  // ---------------------------------------------------------------------
  // Sky.

  /** The sky colour: white blended towards (0.5, 0.7, 1.0) by
      `t = 0.5 (unit.y + 1)`. Each component lies in [0.5, 1]. */
  function Background(sqrt: real -> real, direction: Vec3): (c: Vec3)
    requires IsSqrt(sqrt) && direction != Zero
    ensures 0.5 <= c.x <= 1.0 && 0.5 <= c.y <= 1.0 && 0.5 <= c.z <= 1.0
  {
    var u := Unit(sqrt, direction);
    UnitComponent(u);
    var t := 0.5 * (u.y + 1.0);
    Add(Scale(1.0 - t, White), Scale(t, Vec3(0.5, 0.7, 1.0)))
  }

  /** A component of a unit vector lies in [-1, 1]. */
  lemma UnitComponent(u: Vec3)
    requires LenSqr(u) == 1.0
    ensures -1.0 <= u.y <= 1.0
  {
    SquareZero(u.x);
    SquareZero(u.z);
    SquareAtMostOne(u.y);
  }

  // ---------------------------------------------------------------------
  // Integrators.

  /** `ray_color(r, world, depth)` on the outcomes `step(k, _)`, `step(k + 1,
      _)`, ... : black when the depth is exhausted or the ray is absorbed, the
      sky on escape, and otherwise the attenuation times the colour of the
      scattered ray one level deeper. */
  function RayColor(sqrt: real -> real, step: (nat, Ray) -> Event, r: Ray, depth: nat, k: nat): Vec3
    requires IsSqrt(sqrt) && MovesAlong(step, r, depth, k)
    decreases depth
  {
    if depth == 0 then Black
    else
      match step(k, r)
      case Escape => Background(sqrt, r.direction)
      case Absorb => Black
      case Bounce(attenuation, next) => Mul(attenuation, RayColor(sqrt, step, next, depth - 1, k + 1))
  }

  /** `ray_color_iter(r, world, max_depth)`: the running product of the
      attenuations, multiplied into the sky colour when the ray escapes; black
      once `current_depth` drops below zero or on absorption. It computes
      `ray_color` with one level more. */
  method RayColorIter(sqrt: real -> real, step: (nat, Ray) -> Event, r: Ray, maxDepth: nat) returns (c: Vec3)
    requires IsSqrt(sqrt) && MovesAlong(step, r, maxDepth + 1, 0)
    ensures c == RayColor(sqrt, step, r, maxDepth + 1, 0)
  {
    var color := White;
    var current: Ray := r;
    var currentDepth: int := maxDepth;
    var k: nat := 0;
    ghost var target := IterColor(sqrt, step, White, r, maxDepth, 0);
    IterColorIsRayColor(sqrt, step, White, r, maxDepth, 0);
    MulWhite(RayColor(sqrt, step, r, maxDepth + 1, 0));
    while true
      invariant -1 <= currentDepth && k as int + currentDepth == maxDepth
      invariant MovesAlong(step, current, currentDepth + 1, k)
      invariant IterColor(sqrt, step, color, current, currentDepth, k) == target
      decreases currentDepth + 1
    {
      if currentDepth < 0 {
        return Black;
      }
      match step(k, current)
      case Escape =>
        return Mul(color, Background(sqrt, current.direction));
      case Absorb =>
        return Black;
      case Bounce(attenuation, next) =>
        color := Mul(color, attenuation);
        current := next;
        currentDepth := currentDepth - 1;
        k := k + 1;
    }
  }

  /** `ray_color_iter` with the depth test it evidently intends, `current_depth
      <= 0`: it follows at most `max_depth` bounces and so computes
      `ray_color` with the same depth. */
  method RayColorIterBounded(sqrt: real -> real, step: (nat, Ray) -> Event, r: Ray, maxDepth: nat) returns (c: Vec3)
    requires IsSqrt(sqrt) && MovesAlong(step, r, maxDepth, 0)
    ensures c == RayColor(sqrt, step, r, maxDepth, 0)
  {
    var color := White;
    var current: Ray := r;
    var currentDepth: nat := maxDepth;
    var k: nat := 0;
    ghost var target := BoundedColor(sqrt, step, White, r, maxDepth, 0);
    BoundedColorIsRayColor(sqrt, step, White, r, maxDepth, 0);
    MulWhite(RayColor(sqrt, step, r, maxDepth, 0));
    while true
      invariant MovesAlong(step, current, currentDepth, k)
      invariant BoundedColor(sqrt, step, color, current, currentDepth, k) == target
      decreases currentDepth
    {
      if currentDepth <= 0 {
        return Black;
      }
      match step(k, current)
      case Escape =>
        return Mul(color, Background(sqrt, current.direction));
      case Absorb =>
        return Black;
      case Bounce(attenuation, next) =>
        color := Mul(color, attenuation);
        current := next;
        currentDepth := currentDepth - 1;
        k := k + 1;
    }
  }

  /** The corrected loop run from a running colour `color`, the ray `r`,
      `current_depth = depth` and bounce `k`. */
  function BoundedColor(sqrt: real -> real, step: (nat, Ray) -> Event, color: Vec3, r: Ray, depth: nat, k: nat): Vec3
    requires IsSqrt(sqrt) && MovesAlong(step, r, depth, k)
    decreases depth
  {
    if depth == 0 then Black
    else
      match step(k, r)
      case Escape => Mul(color, Background(sqrt, r.direction))
      case Absorb => Black
      case Bounce(attenuation, next) => BoundedColor(sqrt, step, Mul(color, attenuation), next, depth - 1, k + 1)
  }

  /** The corrected loop from `current_depth = depth` computes the running
      colour times `ray_color` with `depth` levels. */
  lemma {:induction false} BoundedColorIsRayColor(sqrt: real -> real, step: (nat, Ray) -> Event, color: Vec3,
                                                  r: Ray, depth: nat, k: nat)
    requires IsSqrt(sqrt) && MovesAlong(step, r, depth, k)
    ensures BoundedColor(sqrt, step, color, r, depth, k) == Mul(color, RayColor(sqrt, step, r, depth, k))
    decreases depth
  {
    if depth == 0 {
      MulBlack(color);
    } else {
      match step(k, r)
      case Escape =>
      case Absorb =>
        MulBlack(color);
      case Bounce(attenuation, next) =>
        BoundedColorIsRayColor(sqrt, step, Mul(color, attenuation), next, depth - 1, k + 1);
        MulLaws(color, attenuation, RayColor(sqrt, step, next, depth - 1, k + 1));
    }
  }

  /** The loop of `ray_color_iter` run from a running colour `color`, the
      ray `r`, `current_depth = depth` and bounce `k`. */
  function IterColor(sqrt: real -> real, step: (nat, Ray) -> Event, color: Vec3, r: Ray, depth: int, k: nat): Vec3
    requires IsSqrt(sqrt) && -1 <= depth && MovesAlong(step, r, depth + 1, k)
    decreases depth + 1
  {
    if depth < 0 then Black
    else
      match step(k, r)
      case Escape => Mul(color, Background(sqrt, r.direction))
      case Absorb => Black
      case Bounce(attenuation, next) => IterColor(sqrt, step, Mul(color, attenuation), next, depth - 1, k + 1)
  }

  /** The loop from `current_depth = depth` computes the running colour times
      `ray_color` with `depth + 1` levels. */
  lemma {:induction false} IterColorIsRayColor(sqrt: real -> real, step: (nat, Ray) -> Event, color: Vec3,
                                               r: Ray, depth: int, k: nat)
    requires IsSqrt(sqrt) && -1 <= depth && MovesAlong(step, r, depth + 1, k)
    ensures IterColor(sqrt, step, color, r, depth, k) == Mul(color, RayColor(sqrt, step, r, depth + 1, k))
    decreases depth + 1
  {
    if depth < 0 {
      MulBlack(color);
    } else {
      match step(k, r)
      case Escape =>
      case Absorb =>
        MulBlack(color);
      case Bounce(attenuation, next) =>
        IterColorIsRayColor(sqrt, step, Mul(color, attenuation), next, depth - 1, k + 1);
        MulLaws(color, attenuation, RayColor(sqrt, step, next, depth, k + 1));
    }
  }

  /** White leaves every colour as it is. */
  lemma MulWhite(v: Vec3)
    ensures Mul(White, v) == v
  {
  }

  /** Black absorbs every colour. */
  lemma MulBlack(v: Vec3)
    ensures Mul(v, Black) == Black
  {
  }

  /** The two integrators differ: with the depth that makes `ray_color`
      return black at once, `ray_color_iter` still looks at the sky. */
  lemma IterAllowsOneMoreBounce(sqrt: real -> real, step: (nat, Ray) -> Event, r: Ray)
    requires IsSqrt(sqrt) && MovesAlong(step, r, 1, 0) && step(0, r).Escape?
    ensures RayColor(sqrt, step, r, 0 + 1, 0) != RayColor(sqrt, step, r, 0, 0)
  {
  }

  /** The product of two colours in [0, 1] stays in [0, 1]. */
  lemma MulInUnitCube(u: Vec3, v: Vec3)
    requires InUnitCube(u) && InUnitCube(v)
    ensures InUnitCube(Mul(u, v))
  {
    ScaleDown(v.x, u.x);
    ScaleDown(v.y, u.y);
    ScaleDown(v.z, u.z);
  }

  /** With attenuations in [0, 1] every path colour lies in [0, 1]. */
  lemma {:induction false} RayColorInUnitCube(sqrt: real -> real, step: (nat, Ray) -> Event, r: Ray,
                                               depth: nat, k: nat)
    requires IsSqrt(sqrt) && MovesAlong(step, r, depth, k) && Attenuating(step)
    ensures InUnitCube(RayColor(sqrt, step, r, depth, k))
    decreases depth
  {
    if depth > 0 {
      match step(k, r)
      case Escape =>
      case Absorb =>
      case Bounce(attenuation, next) =>
        RayColorInUnitCube(sqrt, step, next, depth - 1, k + 1);
        MulInUnitCube(attenuation, RayColor(sqrt, step, next, depth - 1, k + 1));
    }
  }

  // ---------------------------------------------------------------------
  // Pixels and scanlines.

  /** `Pixel`: three bytes. */
  datatype Pixel = Pixel(r: int, g: int, b: int)

  /** The depth `core_render` passes to `ray_color_iter`. */
  const MaxDepth: nat := 50

  /** The draws of one sample of one pixel: the two jitters, the lens sample
      and the scatter draws of each bounce of the path. */
  datatype SampleDraws = SampleDraws(du: real, dv: real, disk: Vec3, bounces: nat -> Samples)

  /** The camera ray of sample draws `d` for pixel `i` of scanline `j`, at
      `u = (i + du) / (width - 1)`, `v = (j + dv) / (height - 1)`. */
  function SampleRay(cam: Camera, width: nat, height: nat, j: nat, i: nat, d: SampleDraws): Ray
    requires 2 <= width && 2 <= height
  {
    GetRay(cam, (i as real + d.du) / (width - 1) as real, (j as real + d.dv) / (height - 1) as real, d.disk)
  }

  /** Every sample the renderer draws, `samples` per pixel, follows a path
      of non-zero directions. */
  ghost predicate Drawable(sqrt: real -> real, world: Model<Material>, cam: Camera, width: nat, height: nat,
                           samples: nat, draws: (nat, nat, nat) -> SampleDraws)
    requires IsSqrt(sqrt) && AllMaterials(world, Usable) && 2 <= width && 2 <= height
  {
    forall j: nat, i: nat, s: nat | j < height && i < width && s < samples ::
      MovesAlong(WorldStep(sqrt, world, draws(j, i, s).bounces),
                 SampleRay(cam, width, height, j, i, draws(j, i, s)), MaxDepth + 1, 0)
  }

  /** The precondition every per-pixel function shares. */
  ghost predicate Renderable(sqrt: real -> real, world: Model<Material>, cam: Camera, width: nat, height: nat,
                             samples: nat, draws: (nat, nat, nat) -> SampleDraws)
  {
    IsSqrt(sqrt) && AllMaterials(world, Usable) && 2 <= width && 2 <= height
      && Drawable(sqrt, world, cam, width, height, samples, draws)
  }

  /** The colour of sample `s` of pixel `i` of scanline `j`. */
  function SampleColor(sqrt: real -> real, cam: Camera, width: nat, height: nat, samples: nat,
                       world: Model<Material>, draws: (nat, nat, nat) -> SampleDraws, j: nat, i: nat, s: nat): Vec3
    requires Renderable(sqrt, world, cam, width, height, samples, draws)
    requires j < height && i < width && s < samples
  {
    var d := draws(j, i, s);
    RayColor(sqrt, WorldStep(sqrt, world, d.bounces), SampleRay(cam, width, height, j, i, d), MaxDepth + 1, 0)
  }

  /** The sum of the first `n` sample colours of a pixel. */
  function PixelSum(sqrt: real -> real, cam: Camera, width: nat, height: nat, samples: nat,
                    world: Model<Material>, draws: (nat, nat, nat) -> SampleDraws, j: nat, i: nat, n: nat): Vec3
    requires Renderable(sqrt, world, cam, width, height, samples, draws)
    requires j < height && i < width && n <= samples
  {
    if n == 0 then Black
    else Add(PixelSum(sqrt, cam, width, height, samples, world, draws, j, i, n - 1),
             SampleColor(sqrt, cam, width, height, samples, world, draws, j, i, n - 1))
  }

  /** The bytes of a summed colour of `samples` samples. */
  function Quantize(sqrt: real -> real, sum: Vec3, samples: nat): (p: Pixel)
    requires IsSqrt(sqrt)
    ensures 0 <= p.r <= 255 && 0 <= p.g <= 255 && 0 <= p.b <= 255
  {
    Pixel(Channel(sqrt, sum.x, samples), Channel(sqrt, sum.y, samples), Channel(sqrt, sum.z, samples))
  }

  /** The pixel `i` of scanline `j`. */
  function PixelOf(sqrt: real -> real, cam: Camera, width: nat, height: nat, samples: nat,
                   world: Model<Material>, draws: (nat, nat, nat) -> SampleDraws, j: nat, i: nat): Pixel
    requires Renderable(sqrt, world, cam, width, height, samples, draws)
    requires j < height && i < width
  {
    Quantize(sqrt, PixelSum(sqrt, cam, width, height, samples, world, draws, j, i, samples), samples)
  }

  /** The scanline `j` as `core_render` produces it. */
  function LineOf(sqrt: real -> real, cam: Camera, width: nat, height: nat, samples: nat,
                  world: Model<Material>, draws: (nat, nat, nat) -> SampleDraws, j: nat): seq<Pixel>
    requires Renderable(sqrt, world, cam, width, height, samples, draws)
    requires j < height
  {
    seq(width, i requires 0 <= i < width => PixelOf(sqrt, cam, width, height, samples, world, draws, j, i))
  }

  /** The inner loop of `core_render`: the sum of the colours of `samples`
      jittered camera rays of pixel `i`, each traced by `ray_color_iter`. */
  method SumSamples(sqrt: real -> real, cam: Camera, height: nat, width: nat, samples: nat, j: nat, i: nat,
                    world: Model<Material>, draws: (nat, nat, nat) -> SampleDraws) returns (pixelColor: Vec3)
    requires Renderable(sqrt, world, cam, width, height, samples, draws)
    requires j < height && i < width
    ensures pixelColor == PixelSum(sqrt, cam, width, height, samples, world, draws, j, i, samples)
  {
    pixelColor := Black;
    for s := 0 to samples
      invariant pixelColor == PixelSum(sqrt, cam, width, height, samples, world, draws, j, i, s)
    {
      var c := TraceSample(sqrt, cam, width, height, samples, world, draws, j, i, s);
      pixelColor := Add(pixelColor, c);
    }
  }

  /** One sample of the inner loop: the jittered camera ray traced by
      `ray_color_iter` with the depth `core_render` uses. */
  method TraceSample(sqrt: real -> real, cam: Camera, width: nat, height: nat, samples: nat, world: Model<Material>,
                     draws: (nat, nat, nat) -> SampleDraws, j: nat, i: nat, s: nat) returns (c: Vec3)
    requires Renderable(sqrt, world, cam, width, height, samples, draws)
    requires j < height && i < width && s < samples
    ensures c == SampleColor(sqrt, cam, width, height, samples, world, draws, j, i, s)
  {
    var d := draws(j, i, s);
    c := RayColorIter(sqrt, WorldStep(sqrt, world, d.bounces), SampleRay(cam, width, height, j, i, d), MaxDepth);
  }

  /** `core_render` for scanline `j`: for each of the `width` pixels, sum the
      colours of `samples` jittered camera rays traced by `ray_color_iter`,
      then quantise the sum. */
  method CoreRender(sqrt: real -> real, cam: Camera, height: nat, width: nat, samples: nat, j: nat,
                    world: Model<Material>, draws: (nat, nat, nat) -> SampleDraws) returns (line: seq<Pixel>)
    requires Renderable(sqrt, world, cam, width, height, samples, draws)
    requires j < height
    ensures line == LineOf(sqrt, cam, width, height, samples, world, draws, j)
  {
    ghost var target := LineOf(sqrt, cam, width, height, samples, world, draws, j);
    line := [];
    for i := 0 to width
      invariant line == target[..i]
    {
      var pixelColor := SumSamples(sqrt, cam, height, width, samples, j, i, world, draws);
      var pixel := Quantize(sqrt, pixelColor, samples);
      assert pixel == target[i];
      PrefixStep(line, target, i, pixel);
      line := line + [pixel];
    }
    assert target[..width] == target;
  }

  /** Appending the next element of `target` to its prefix of length `i`
      gives the prefix of length `i + 1`. */
  lemma PrefixStep<T>(line: seq<T>, target: seq<T>, i: nat, x: T)
    requires i < |target| && line == target[..i] && x == target[i]
    ensures line + [x] == target[..i + 1]
  {
  }

  /** The frame row that scanline `j` is written to: the image is stored top
      row first while scanlines count up from the bottom. */
  function RowOf(height: nat, j: nat): (row: nat)
    requires j < height
    ensures row < height
  {
    height - j - 1
  }

  /** The row map is its own inverse, so it is a bijection on [0, height):
      every row receives exactly one scanline. */
  lemma RowOfIsBijection(height: nat, j: nat, j': nat)
    requires j < height && j' < height
    ensures RowOf(height, RowOf(height, j)) == j
    ensures RowOf(height, j) == RowOf(height, j') ==> j == j'
  {
  }

  /** The sequential `render`: a frame of `height` empty rows, then each
      scanline `j` in turn stored at row `height - j - 1`. Every row ends up
      holding the scanline that maps to it. */
  method Render(sqrt: real -> real, world: Model<Material>, cam: Camera, width: nat, height: nat, samples: nat,
                draws: (nat, nat, nat) -> SampleDraws) returns (frame: seq<seq<Pixel>>)
    requires Renderable(sqrt, world, cam, width, height, samples, draws)
    ensures |frame| == height
    ensures forall row :: 0 <= row < height ==>
      frame[row] == LineOf(sqrt, cam, width, height, samples, world, draws, RowOf(height, row))
  {
    frame := seq(height, _ => []);
    for j := 0 to height
      invariant |frame| == height
      invariant forall row :: 0 <= row < height - j ==> frame[row] == []
      invariant forall row :: height - j <= row < height ==>
        frame[row] == LineOf(sqrt, cam, width, height, samples, world, draws, RowOf(height, row))
    {
      var line := CoreRender(sqrt, cam, height, width, samples, j, world, draws);
      frame := frame[RowOf(height, j) := line];
    }
  }
}
