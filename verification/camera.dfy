/** The thin-lens camera (src/camera.rs). `Camera::new` derives an
    orthonormal frame `(u, v, w)` from the viewing geometry and the viewport
    corner and spans from it; `get_ray` shoots from a point of the lens disk
    towards a point of the viewport. The tangent of half the vertical field of
    view is taken as a parameter. */
module Cameras {
  import opened Num
  import opened Vectors

  datatype Camera = Camera(
    origin: Vec3,
    lowerLeftCorner: Vec3,
    horizontal: Vec3,
    vertical: Vec3,
    u: Vec3,
    v: Vec3,
    w: Vec3,
    lensRadius: real)

  /** `Camera::new`, given `h = tan(theta / 2)` for the vertical field of view
      `theta`. The two normalisations need `look_from != look_at` and a `v_up`
      not parallel to the viewing direction. The camera sits at `look_from`,
      its lens radius is half the aperture, and `w` is the unit vector from
      `look_at` back to `look_from`. */
  function NewCamera(sqrt: real -> real, lookFrom: Vec3, lookAt: Vec3, vUp: Vec3,
                     h: real, aspectRatio: real, aperture: real, focusDistance: real): (c: Camera)
    requires IsSqrt(sqrt) && Sub(lookFrom, lookAt) != Zero
    requires Cross(vUp, Unit(sqrt, Sub(lookFrom, lookAt))) != Zero
    ensures c.origin == lookFrom
    ensures c.lensRadius == aperture / 2.0
    ensures LenSqr(c.w) == 1.0 && Times(c.w, Len(sqrt, Sub(lookFrom, lookAt))) == Sub(lookFrom, lookAt)
    ensures LenSqr(c.u) == 1.0 && Dot(c.u, c.w) == 0.0 && Dot(c.u, vUp) == 0.0
  {
    var viewportHeight := 2.0 * h;
    var viewportWidth := aspectRatio * viewportHeight;
    var w := Unit(sqrt, Sub(lookFrom, lookAt));
    var u := Unit(sqrt, Cross(vUp, w));
    UnitOrthogonal(sqrt, Cross(vUp, w), vUp);
    UnitOrthogonal(sqrt, Cross(vUp, w), w);
    var v := Cross(w, u);
    var origin := lookFrom;
    var horizontal := Scale(focusDistance * viewportWidth, u);
    var vertical := Scale(focusDistance * viewportHeight, v);
    var lowerLeftCorner := Sub(Sub(Sub(origin, Div(horizontal, 2.0)), Div(vertical, 2.0)), Scale(focusDistance, w));
    Camera(origin, lowerLeftCorner, horizontal, vertical, u, v, w, aperture / 2.0)
  }

  /** Normalising keeps orthogonality. */
  lemma UnitOrthogonal(sqrt: real -> real, a: Vec3, b: Vec3)
    requires IsSqrt(sqrt) && a != Zero && Dot(a, b) == 0.0
    ensures Dot(Unit(sqrt, a), b) == 0.0
  {
    var l := Len(sqrt, a);
    DotLaws(a, b, a, 1.0 / l);
    assert Unit(sqrt, a) == Scale(1.0 / l, a);
  }

  /** The frame is orthonormal: `v = w x u` is a unit vector orthogonal to
      both, and `u` is orthogonal to `w`. */
  lemma FrameIsOrthonormal(sqrt: real -> real, lookFrom: Vec3, lookAt: Vec3, vUp: Vec3,
                           h: real, aspectRatio: real, aperture: real, focusDistance: real)
    requires IsSqrt(sqrt) && Sub(lookFrom, lookAt) != Zero
    requires Cross(vUp, Unit(sqrt, Sub(lookFrom, lookAt))) != Zero
    ensures var c := NewCamera(sqrt, lookFrom, lookAt, vUp, h, aspectRatio, aperture, focusDistance);
      && LenSqr(c.v) == 1.0 && Dot(c.v, c.w) == 0.0 && Dot(c.v, c.u) == 0.0
  {
    var c := NewCamera(sqrt, lookFrom, lookAt, vUp, h, aspectRatio, aperture, focusDistance);
    CrossOfOrthonormal(c.w, c.u, LenSqr(c.w), LenSqr(c.u), Dot(c.w, c.u));
  }

  /** The cross product of two orthogonal unit vectors is a unit vector. */
  lemma CrossOfOrthonormal(a: Vec3, b: Vec3, la: real, lb: real, d: real)
    requires la == LenSqr(a) && lb == LenSqr(b) && d == Dot(a, b)
    requires la == 1.0 && lb == 1.0 && d == 0.0
    ensures LenSqr(Cross(a, b)) == 1.0
  {
    Lagrange(a, b);
  }

  /** A sample of `random_unit_disk`: in the unit disk of the `z = 0` plane. */
  predicate InUnitDisk(p: Vec3) {
    p.z == 0.0 && p.x * p.x + p.y * p.y <= 1.0
  }

  /** The lens offset `u rd.x + v rd.y` for `rd = lens_radius * disk`. */
  function LensOffset(c: Camera, disk: Vec3): Vec3 {
    var rd := Scale(c.lensRadius, disk);
    Add(Times(c.u, rd.x), Times(c.v, rd.y))
  }

  /** For an orthonormal `u`, `v` and a sample of the unit disk, the lens
      offset stays within the lens radius. */
  lemma LensOffsetWithinLens(c: Camera, disk: Vec3)
    requires LenSqr(c.u) == 1.0 && LenSqr(c.v) == 1.0 && Dot(c.u, c.v) == 0.0
    requires InUnitDisk(disk)
    ensures LenSqr(LensOffset(c, disk)) <= c.lensRadius * c.lensRadius
  {
    var a, b := c.lensRadius * disk.x, c.lensRadius * disk.y;
    OffsetSplit(c, disk, a, b);
    OrthogonalSum(c.u, c.v, a, b);
    OffsetBound(c.lensRadius, disk.x, disk.y, a, b, b * b + a * a);
  }

  /** The lens offset as a combination of `u` and `v`. */
  lemma OffsetSplit(c: Camera, disk: Vec3, a: real, b: real)
    requires a == c.lensRadius * disk.x && b == c.lensRadius * disk.y
    ensures LensOffset(c, disk) == Add(Scale(a, c.u), Scale(b, c.v))
  {
    var rd := Scale(c.lensRadius, disk);
    assert rd.x == a && rd.y == b;
    ScalarLaws(a, c.u);
    ScalarLaws(b, c.v);
    assert LensOffset(c, disk) == Add(Times(c.u, a), Times(c.v, b));
  }

  /** Pythagoras for an orthonormal pair. */
  lemma OrthogonalSum(u: Vec3, v: Vec3, a: real, b: real)
    requires LenSqr(u) == 1.0 && LenSqr(v) == 1.0 && Dot(u, v) == 0.0
    ensures LenSqr(Add(Scale(a, u), Scale(b, v))) == b * b + a * a
  {
    var p := Scale(a, u);
    LenSqrAlong(p, v, b);
    DotLaws(u, v, u, a);
    LenSqrScale(a, u);
    EvalOrthogonal(Quadratic(LenSqr(v), Dot(p, v), LenSqr(p)), b, a);
  }

  /** `(r x)^2 + (r y)^2 <= r^2` inside the unit disk. */
  lemma OffsetBound(r: real, x: real, y: real, a: real, b: real, e: real)
    requires x * x + y * y <= 1.0 && a == r * x && b == r * y
    requires e == b * b + a * a
    ensures e <= r * r
  {
    assert e == r * r * (x * x + y * y);
    SquareZero(r);
    ScaleDown(r * r, x * x + y * y);
  }

  /** `Camera::get_ray` for viewport coordinates `(s, t)` and the lens
      sample `disk`: from the origin moved across the lens, towards the point
      `lower_left_corner + s horizontal + t vertical`. */
  function GetRay(c: Camera, s: real, t: real, disk: Vec3): (r: Ray)
    ensures r.origin == Add(c.origin, LensOffset(c, disk))
    ensures At(r, 1.0) == Add(Add(c.lowerLeftCorner, Scale(s, c.horizontal)), Scale(t, c.vertical))
  {
    var offset := LensOffset(c, disk);
    var target := Add(Add(c.lowerLeftCorner, Scale(s, c.horizontal)), Scale(t, c.vertical));
    Ray(Add(c.origin, offset), Sub(Sub(target, c.origin), offset))
  }

  /** Whatever the lens sample, the ray passes through the viewport point of
      `(s, t)` at parameter one. */
  lemma RayHitsViewportPoint(c: Camera, s: real, t: real, disk: Vec3)
    ensures At(GetRay(c, s, t, disk), 1.0)
      == Add(Add(c.lowerLeftCorner, Scale(s, c.horizontal)), Scale(t, c.vertical))
  {
  }

  /** The corner relation `Camera::new` sets up:
      `lower_left_corner = origin - horizontal / 2 - vertical / 2 - f w`. */
  predicate CornerAt(c: Camera, focusDistance: real) {
    c.lowerLeftCorner
      == Sub(Sub(Sub(c.origin, Div(c.horizontal, 2.0)), Div(c.vertical, 2.0)), Scale(focusDistance, c.w))
  }

  /** A new camera's corner is placed half a viewport left and down of the
      point the focus distance ahead. */
  lemma NewCameraCorner(sqrt: real -> real, lookFrom: Vec3, lookAt: Vec3, vUp: Vec3,
                        h: real, aspectRatio: real, aperture: real, focusDistance: real)
    requires IsSqrt(sqrt) && Sub(lookFrom, lookAt) != Zero
    requires Cross(vUp, Unit(sqrt, Sub(lookFrom, lookAt))) != Zero
    ensures CornerAt(NewCamera(sqrt, lookFrom, lookAt, vUp, h, aspectRatio, aperture, focusDistance), focusDistance)
  {
  }

  /** Without a lens radius every ray starts at the camera origin. */
  lemma PinholeRay(c: Camera, s: real, t: real, disk: Vec3)
    requires c.lensRadius == 0.0
    ensures GetRay(c, s, t, disk).origin == c.origin
  {
  }

  /** With aperture zero the lens is a pinhole: every ray starts at
      `look_from`, whatever the lens sample. */
  lemma PinholeOrigin(sqrt: real -> real, lookFrom: Vec3, lookAt: Vec3, vUp: Vec3,
                      h: real, aspectRatio: real, focusDistance: real, s: real, t: real, disk: Vec3)
    requires IsSqrt(sqrt) && Sub(lookFrom, lookAt) != Zero
    requires Cross(vUp, Unit(sqrt, Sub(lookFrom, lookAt))) != Zero
    ensures GetRay(NewCamera(sqrt, lookFrom, lookAt, vUp, h, aspectRatio, 0.0, focusDistance), s, t, disk).origin
      == lookFrom
  {
    PinholeRay(NewCamera(sqrt, lookFrom, lookAt, vUp, h, aspectRatio, 0.0, focusDistance), s, t, disk);
  }

  /** Through the centre of the viewport, with no lens offset, the ray looks
      straight down `-w` over the focus distance. */
  lemma CentreRay(c: Camera, focusDistance: real)
    requires CornerAt(c, focusDistance)
    ensures GetRay(c, 0.5, 0.5, Zero).direction == Scale(-focusDistance, c.w)
  {
  }
}
