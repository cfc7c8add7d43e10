# rustracer in Dafny

This project models the core of the rustracer path tracer. That core covers:
- the `Vec3` type and its operations;
- the axis-aligned bounding box (`AABB`) and its slab test;
- spheres and lists of models with their nearest hit and bounding box;
- the bounding volume hierarchy (`BvhNode`): its construction and its traversal;
- the three materials (Lambertian, metal, dielectric) and how they scatter;
- the thin-lens camera;
- the two path integrators (`ray_color`, `ray_color_iter`);
- the per-scanline loop that turns samples into bytes (`core_render`, `render`).

The repository also keeps an older generation of the same types under `src/types/`:
- a vector with an `Index` impl and an x-only negation;
- solid objects narrowing `closest_so_far` over a `(t_min, t_max)` interval;
- materials that test the metal reflection before fuzzing it.

These are modelled too, each next to the newer code, with lemmas that say where the two agree and where they part.

Modelling choices:
- An `f64` (and an `f32`) is a `real`. The square root is a parameter `sqrt` constrained by `Num.IsSqrt`, and so is the tangent behind the camera's viewport height (`h`).
- Every draw of the thread RNG is an explicit parameter:
  - the unit vector, ball point and uniform number of a scatter (`Materials.Samples`);
  - the pixel jitter and lens sample (`Renderer.SampleDraws`);
  - the split-axis draw of each BVH range;
  - the comparator sort.
- A world is a `Models.Model<M>`: a sphere, a list, or a BVH node holding its box. The BVH's output is a `Bvh.Tree<M>` mapped back to a model.
- The integrators take the world as an oracle `step(k, r)`. It says whether bounce `k` of ray `r` escapes, is absorbed, or bounces with an attenuation and a new ray. `Renderer.WorldStep` builds that oracle from a world and per-bounce draws by `Renderer.Trace`, which is hit-then-scatter.

The modules follow the files:
- `Vectors`: src/vector.rs
- `Aabbs`: src/aabb.rs
- `Models`: src/models.rs
- `Bvh`: src/bvh.rs
- `Materials`: src/material.rs
- `Cameras`: src/camera.rs
- `Renderer`: src/renderer.rs
- `OldVectors`: src/types/vector.rs
- `OldSolids`: src/types/solid_object.rs
- `OldMaterials`: src/types/material.rs

`Num` and `Options` hold the real-arithmetic lemmas and `Option`.

Behaviours of the code worth knowing:
- `Sphere::hit` accepts any root `t >= T_MIN` (0.0001). There is no `t_max`, and the bound is inclusive. Only the older solid object uses a strict `(t_min, t_max)`.
- The AABB slab test never narrows a running interval. Its upper end is always `+inf`.
- `BvhNode::new` sorts the whole vector, not the slice. It draws the axis from `{x, y}` only.
- A BVH node returns its left child's hit whenever there is one, not the nearer of the two.
- `ray_color_iter` follows one bounce more than `ray_color` with the same depth.

## Model

| member | source | states |
|---|---|---|
| Vectors.Add | src/vector.rs:123-144 | the lane-wise AVX sum, read back in x, y, z order, is the componentwise sum |
| Vectors.Dot | src/vector.rs:27-29 | the accumulated lane product is `u.x v.x + u.y v.y + u.z v.z` |
| Vectors.Cross | src/vector.rs:31-37 | the cross product is orthogonal to both operands |
| Vectors.LenSqr | src/vector.rs:39-41 | the squared length is non-negative and zero exactly for the zero vector |
| Vectors.Len | src/vector.rs:43-45 | the length is non-negative, squares to the squared length, and is positive for every non-zero vector |
| Vectors.Unit | src/vector.rs:47-49 | `unit()` of a non-zero vector has length one and, scaled back by the length, gives the vector |
| Vectors.Channel | src/vector.rs:91-110 | a colour byte is in 0..255, zero for a non-positive channel, and `256 * clamp(sqrt(c / samples), 0, 0.999)` truncated for positive samples; zero samples follow the IEEE `+inf`/`NaN` outcomes |
| Vectors.ChannelMonotone | src/vector.rs:91-110 | a brighter channel never yields a smaller byte |
| Vectors.At | src/vector.rs:213-217 | `at(t)` lies `t` directions from the origin and is the origin at `t = 0` |
| Vectors.AddCommutative | src/vector.rs:123-144 | addition commutes |
| Vectors.NegationLaws | src/vector.rs:154-160 | negation is an involution, and `v - v` and `v + -v` are zero |
| Vectors.ScalarLaws | src/vector.rs:162-200 | `f64 * Vec3` equals `Vec3 * f64`, and dividing by `s` is scaling by `1 / s` |
| Vectors.MulLaws | src/vector.rs:182-192 | the componentwise product is associative and commutative |
| Vectors.DotLaws | src/vector.rs:27-29 | the dot product is symmetric and linear in its first operand |
| Vectors.DotNeg | src/vector.rs:154-160 | the dot product with a negated vector is the negated dot product |
| Vectors.CrossAntiCommutative | src/vector.rs:31-37 | `u x v = -(v x u)` |
| Vectors.Lagrange | src/vector.rs:31-41 | `|u|^2 |v|^2 = (u . v)^2 + |u x v|^2` |
| Vectors.CauchySchwarz | src/vector.rs:27-41 | `(u . v)^2 <= |u|^2 |v|^2` |
| Vectors.SourceTestVectors | src/vector.rs:232-270 | the unit tests' expected sums, differences, products, negation, quotient, dot and cross products hold |
| Vectors.SourceTestLengths | src/vector.rs:272-280 | the unit tests' length `sqrt 14` and unit vector `(1, 2, 3) / sqrt 14` hold |
| Aabbs.Recip | src/aabb.rs:21 | the reciprocal is finite exactly for a non-zero component |
| Aabbs.Bounds | src/aabb.rs:30-31 | the entry bound is `t_0` or `T_MIN`, and the exit bound is always `+inf` |
| Aabbs.AxisRejectsIff | src/aabb.rs:20-35 | one axis rejects the ray exactly when the direction is zero on that axis and the origin lies below the slab |
| Aabbs.Hit | src/aabb.rs:13-39 | the box is hit exactly when no axis has a zero direction with the origin below the slab, because the upper bound `+inf` never falls under the lower one otherwise |
| Aabbs.SlabOrdered | src/aabb.rs:23-28 | on an axis the ray moves along, for an ordered box, both slab ends are finite and after the swap the entry is no later than the exit |
| Aabbs.HitWhenMovingOnEveryAxis | src/aabb.rs:13-39 | a ray moving on every axis hits every box, whatever its position |
| Aabbs.Surrounding | src/aabb.rs:41-51 | the surrounding box contains both boxes |
| Aabbs.SurroundingIsLeast | src/aabb.rs:41-51 | every box containing both contains the surrounding box |
| Aabbs.SurroundingLaws | src/aabb.rs:41-51 | the union is commutative, associative and idempotent and keeps boxes well ordered |
| Models.FaceNormal | src/models.rs:18-27 | `front_face` holds exactly when the ray opposes the outward normal; the normal is outward on the front face, flipped otherwise, and always opposes the ray |
| Models.SphereHit | src/models.rs:41-79 | no hit without a positive discriminant; a hit has `t >= T_MIN`, its point on the ray, and the sphere's material |
| Models.SphereHitAtSmallerRoot | src/models.rs:53-63 | when the smaller root clears `T_MIN` the hit is at the smaller root |
| Models.SphereHitIsLeastRoot | src/models.rs:41-79 | the hit is the least point of the ray on the sphere with `t >= T_MIN`; it misses exactly when there is none; its normal is unit and opposes the ray |
| Models.SphereRoots | src/models.rs:46-51 | the two roots are ordered and are exactly the parameters where the ray meets the sphere |
| Models.SphereNormalIsUnit | src/models.rs:55 | `(p - center) / radius` of a point on the sphere has unit length |
| Models.SphereBox | src/models.rs:81-86 | a sphere's box is well ordered for a non-negative radius |
| Models.SphereBoxEncloses | src/models.rs:81-86 | every point of the sphere lies in its box |
| Models.BoundingBox | src/models.rs:81-86 | only a list can be without a box: a sphere's `bounding_box` and a node's are always present |
| Models.SphereBoundingBox | src/models.rs:81-86 | the box `bounding_box` gives a sphere of non-negative radius holds every point of the sphere |
| Models.ClosestIsFirstNearest | src/models.rs:89-106 | the list's loop finds nothing exactly when no child is hit, and otherwise the least `t`, the earliest child winning ties |
| Models.ListHitIsNearest | src/models.rs:89-106 | the list's hit is the nearest child hit, earliest on ties, and none exactly when no child is hit |
| Models.ClosestAppend | src/models.rs:96-103 | the loop over a concatenation is the loop over the second part started from the first part's result |
| Models.HitMaterial | src/models.rs:89-106 | a hit carries the material of some sphere of the model |
| Models.BoxLoopInvariant | src/models.rs:108-131 | the box loop is still at its first child only for no children, has stopped exactly when some child has no box, and otherwise holds the least box enclosing every child |
| Models.ListBoxSpec | src/models.rs:108-131 | a list's box is none exactly for an empty list or a child without a box; otherwise it encloses every child's box, is the least such box, and is the child's box for one child |
| Bvh.BoxCompareIsStrict | src/bvh.rs:16-34 | `box_compare` is irreflexive, asymmetric and transitive; it compares spheres by the start of their extent; two boxless models never compare |
| Bvh.Axis | src/bvh.rs:44 | the axis is x or y, never z, and each is drawn by some draw |
| Bvh.MakeNode | src/bvh.rs:76-97 | a node's stored box contains both child boxes |
| Bvh.Build | src/bvh.rs:36-98 | the construction as written yields a node and leaves a permutation of the vector behind |
| Bvh.BuildShape | src/bvh.rs:52-73 | one model sits on both sides; two models sit in input order whatever the comparator says; a larger range has two nodes below it; every box contains its children's boxes |
| Bvh.BuildSmall | src/bvh.rs:52-62 | one or two models leave the vector unchanged and place exactly those models |
| Bvh.BuildBoxEncloses | src/bvh.rs:75-97 | the box a built node stores, which `bounding_box` returns, encloses the box of every model the tree places, a boxless model counting as the zero box |
| Bvh.SortRangeKeeps | src/bvh.rs:64-70 | sorting only the range leaves the rest of the vector alone and permutes the range |
| Bvh.BuildRangePlacesRange | src/bvh.rs:64-73 | with the sort restricted to `[start, end)` the tree places exactly the models of the range, the vector outside it is untouched, and the range is permuted |
| Bvh.BuildLosesModels | src/bvh.rs:64-73 | on five spheres and a correct comparator sort, the construction as written never places spheres 3 and 4 |
| Bvh.BuildRangeKeepsModels | src/bvh.rs:64-73 | on the same five spheres the range-restricted construction places all five |
| Bvh.BuildRangePlacesAll | src/bvh.rs:64-73 | over a whole non-empty vector the range-restricted construction places every model of it |
| Bvh.SplitRanges | src/bvh.rs:52-73 | every range `BvhNode::new` recurses on lies inside the range it was called on |
| Bvh.Descend | src/bvh.rs:64-73 | following the first recursive call stays inside the starting range |
| Bvh.EmptyRangeNeverEnds | src/bvh.rs:52-73 | an empty range recurses on two ranges, the first of them the same empty range, at every depth |
| Bvh.SplitRangesShrink | src/bvh.rs:52-73 | on a non-empty range every recursive call is on a non-empty, strictly shorter range inside it |
| Bvh.BuildWorld | src/bvh.rs:36-98 | a world yields no tree exactly when it is empty, and otherwise a tree that places every model of it |
| Bvh.NodeHitLeftFirst | src/bvh.rs:101-112 | a missed box is a miss; otherwise a node misses only if both children miss, and returns the left hit whenever there is one |
| Bvh.NodeHitIsNotNearest | src/bvh.rs:104-107 | for unit spheres centred `far` and `near < far` along a ray of unit direction, a node with the far sphere on the left returns the hit at `t = far - 1` although the right sphere is hit at `t = near - 1` |
| Bvh.AlongSphereHit | src/models.rs:41-63 | a ray of unit direction meets the unit sphere centred `s` along it first at `t = s - 1` once that clears `T_MIN` |
| Bvh.NodeHitNearestIsNearest | src/bvh.rs:101-112 | the nearest-hit node misses exactly when the box or both children miss, and otherwise returns the nearer child hit, the left one on ties |
| Bvh.TreeHitNearestIsClosest | src/bvh.rs:101-112 | the nearest-hit traversal of a whole tree equals the list's loop over the leaves whose boxes the ray hits |
| Bvh.TreeHitNearestIsNearest | src/bvh.rs:101-112 | that traversal misses exactly when no reached leaf is hit, otherwise returns the nearest reached leaf hit, and reaches every placed model when the ray hits every box |
| Bvh.LeavesArePlaced | src/bvh.rs:76-97 | the leaves of a tree are the models it places |
| Materials.ReflectFlipsNormal | src/material.rs:31-33 | the mirror direction has the negated component along a unit normal |
| Materials.ReflectInvolution | src/material.rs:31-33 | reflecting twice in a unit normal gives the direction back |
| Materials.ReflectKeepsLength | src/material.rs:31-33 | reflection in a unit normal keeps the length |
| Materials.Refract | src/material.rs:59-64 | the refracted direction is the perpendicular part plus a non-positive multiple of the normal |
| Materials.RefractPerpOrthogonal | src/material.rs:59-64 | for unit vectors the perpendicular part is orthogonal to the normal |
| Materials.RefractIsUnit | src/material.rs:59-64 | where refraction is possible the refracted direction has unit length |
| Materials.R0 | src/material.rs:71-76 | the normal reflectance is non-negative |
| Materials.R0Below | src/material.rs:71-76 | for a positive index the normal reflectance is below one |
| Materials.SchlickAtNormal | src/material.rs:71-76 | at `cosine = 1` the approximation is the normal reflectance |
| Materials.SchlickUnit | src/material.rs:71-76 | for a positive index and a cosine in [0, 1] the reflectance lies in [r0, 1] |
| Materials.IndexRatio | src/material.rs:83-87 | the ratio is `1 / index` on the front face and `index` otherwise, never 0 or -1, and positive for a positive index |
| Materials.SinTheta | src/material.rs:92 | `sin_theta` is a number exactly when `cos^2 <= 1`, and then it is the non-negative root of `1 - cos^2` |
| Materials.CosTheta | src/material.rs:91 | `cos_theta` is clamped to at most one |
| Materials.UnitCosine | src/material.rs:91 | for unit vectors `cos_theta` is `-u . n` and its square is at most one |
| Materials.RefractBranchBound | src/material.rs:103-119 | on the refraction branch `ratio^2 (1 - cos^2) <= 1` |
| Materials.Scatter | src/material.rs:19-122 | every scattered ray starts at the hit point; Lambertian always scatters with its albedo; metal scatters with its albedo exactly when the fuzzed mirror direction leaves the surface; a dielectric always scatters and filters nothing |
| Materials.LambertianOutward | src/material.rs:19-29 | with a unit normal and a unit sample the Lambertian ray leaves the surface |
| Materials.MirrorScattersIncoming | src/material.rs:40-57 | an unfuzzed metal scatters exactly the rays arriving against its normal |
| Materials.ReflectTangent | src/material.rs:31-33 | about a unit normal, reflection keeps the part orthogonal to the normal |
| Materials.RefractTangent | src/material.rs:59-64 | about a unit normal, refraction multiplies the part orthogonal to the normal by the index ratio (Snell's law) |
| Materials.RefractCrosses | src/material.rs:59-64 | about a unit normal, the refracted direction never points along the normal |
| Materials.DielectricChoice | src/material.rs:79-122 | the dielectric mirrors under total internal reflection or when the draw falls below the reflectance, and refracts otherwise; about a unit normal the mirror keeps the tangential part and negates the normal part, and the refraction scales the tangential part by the index ratio and crosses the surface |
| Materials.DielectricUnitDirection | src/material.rs:79-122 | for a positive index and a unit normal the dielectric's outgoing direction has unit length |
| Cameras.NewCamera | src/camera.rs:16-45 | the camera sits at `look_from`, its lens radius is half the aperture, `w` is the unit vector from `look_at` to `look_from`, and `u` is a unit vector orthogonal to `w` and `v_up` |
| Cameras.FrameIsOrthonormal | src/camera.rs:27-29 | `u`, `v`, `w` are pairwise orthogonal unit vectors |
| Cameras.LensOffsetWithinLens | src/camera.rs:47-48 | a lens sample in the unit disk moves the origin by at most the lens radius |
| Cameras.GetRay | src/camera.rs:46-53 | the ray starts at the origin moved by the lens offset and reaches the viewport point `lower_left_corner + s horizontal + t vertical` at parameter one |
| Cameras.RayHitsViewportPoint | src/camera.rs:46-53 | at `t = 1` the ray reaches the viewport point `lower_left_corner + s horizontal + t vertical` |
| Cameras.PinholeOrigin | src/camera.rs:43-51 | with aperture zero every ray starts at `look_from` |
| Cameras.CentreRay | src/camera.rs:46-53 | for the corner `new` places, the centre sample without lens offset looks along `-w` at the focus distance |
| Renderer.Trace | src/renderer.rs:16-27 | one bounce escapes exactly when the world is not hit, and a bounce starts at the hit point |
| Renderer.TraceAttenuates | src/renderer.rs:16-22 | with albedos in [0, 1] a bounce attenuates within [0, 1] |
| Renderer.WorldStepTraces | src/renderer.rs:41-53 | bounce `k` of the world oracle is the trace with that bounce's draws |
| Renderer.WorldAttenuates | src/renderer.rs:41-53 | a world of dimming materials only attenuates within [0, 1] |
| Renderer.Background | src/renderer.rs:23-27 | every sky colour component lies in [0.5, 1] |
| Renderer.RayColorIter | src/renderer.rs:31-61 | the iterative integrator computes the recursive one with one more depth level |
| Renderer.IterAllowsOneMoreBounce | src/renderer.rs:37-39 | at `max_depth = 0` the iterative integrator still looks at the sky where the recursive one returns black |
| Renderer.RayColorIterBounded | src/renderer.rs:31-61 | with the depth test `current_depth <= 0` the iterative integrator computes the recursive one with the same depth |
| Renderer.BoundedColorIsRayColor | src/renderer.rs:33-60 | the loop with the test `current_depth <= 0`, from any state, yields the running colour times the recursive colour with the same depth |
| Renderer.IterColorIsRayColor | src/renderer.rs:33-60 | the loop from any state yields the running colour times the recursive colour one level deeper |
| Renderer.RayColorInUnitCube | src/renderer.rs:11-29 | with attenuations in [0, 1] every path colour lies in [0, 1] |
| Renderer.Quantize | src/renderer.rs:77 | each pixel byte lies in 0..255 |
| Renderer.SumSamples | src/renderer.rs:68-76 | the sample loop sums the colours of the jittered camera rays traced with depth 50 |
| Renderer.TraceSample | src/renderer.rs:70-74 | one sample is the camera ray at `((i + du) / (width - 1), (j + dv) / (height - 1))` traced by `ray_color_iter` |
| Renderer.CoreRender | src/renderer.rs:63-82 | a scanline holds, in order, the quantised sample sum of each of its `width` pixels |
| Renderer.RowOfIsBijection | src/renderer.rs:89 | the row map `height - j - 1` is its own inverse, so every row receives exactly one scanline |
| Renderer.Render | src/renderer.rs:84-94 | the frame has `height` rows and row `height - j - 1` holds scanline `j` |
| OldVectors.IndexRebuilds | src/types/vector.rs:129-136 | indices 0, 1, 2 are x, y, z |
| OldVectors.ScaleCommutes | src/types/vector.rs:182-188 | `f64 * Vec3` scales every component |
| OldVectors.DotAgrees | src/types/vector.rs:39-41 | the older dot product is the newer one and symmetric |
| OldVectors.CrossAgrees | src/types/vector.rs:43-51 | the older cross product is the newer one |
| OldVectors.LenSqrAgrees | src/types/vector.rs:31-33 | the older squared length is the newer one |
| OldVectors.CrossAntiCommutes | src/types/vector.rs:43-51 | the older cross product anti-commutes and is orthogonal to both operands |
| OldVectors.NegAsWritten | src/types/vector.rs:158-166 | the x-only negation is an involution, cancels a vector exactly when its y and z are zero, and agrees with true negation exactly then |
| OldVectors.NegDoesNotCancel | src/types/vector.rs:158-166 | `(1, 2, 3) + -(1, 2, 3)` is `(0, 4, 6)` |
| OldVectors.ReflectAgrees | src/types/vector.rs:98-100 | the older reflection is the newer one |
| OldVectors.ReflectInvolution | src/types/vector.rs:98-100 | the older reflection in a unit normal is an involution that negates the normal component |
| OldVectors.Refract | src/types/vector.rs:102-107 | the refracted direction is the perpendicular part plus a non-positive multiple of the normal |
| OldVectors.RefractCosFormula | src/types/vector.rs:103 | the older `cos_theta` is `-(u.x n.x) + u.y n.y + u.z n.z` |
| OldVectors.RefractCosAgreesIff | src/types/vector.rs:102-107 | the older `cos_theta` equals the newer one if and only if the y and z products of `uv` and the normal cancel |
| OldVectors.RefractAgrees | src/types/vector.rs:102-107 | wherever the y and z products cancel, the older refraction is the newer one (the converse fails for the whole refraction: at `eta = 0` both give `-n` for every `uv`) |
| OldVectors.RefractHeadOn | src/types/vector.rs:102-107 | head on along a unit normal with no x component, the newer refraction passes the ray `-n` unchanged, while the older one computes `cos_theta = -1` and returns `-(2 + sqrt 3) n`: the same direction, with `d . n <= -2` |
| OldVectors.RefractOblique | src/types/vector.rs:102-107 | a unit direction `(x, y, 0)` with `y < 0` onto the normal `(0, 1, 0)` at ratio 1 passes the newer refraction unchanged, while the older one leaves with a y component below `2 y` |
| OldVectors.RefractObliqueExample | src/types/vector.rs:102-107 | `(0.6, -0.8, 0)` passes the newer refraction unchanged, while the older one leaves with a y component below `-1.6` |
| OldVectors.AsColor | src/types/vector.rs:109-126 | every byte of `as_color` lies in 0..255 |
| OldVectors.AsColorAgrees | src/types/vector.rs:109-126 | for non-negative samples `as_color` is the newer channel bytes; for negative samples a positive channel gives 0 |
| OldSolids.SetFaceNormal | src/types/solid_object.rs:20-27 | `front_face` holds exactly when the ray opposes the outward normal; on the back face only x is negated |
| OldSolids.SetFaceNormalAgrees | src/types/solid_object.rs:20-27 | the older face flag is the newer one, and the normals agree exactly on the front face or when y and z of the outward normal are zero |
| OldSolids.BackFaceNormalFollowsRay | src/types/solid_object.rs:20-27 | an outward normal without x component, met from behind, is kept as it is, so the shading normal points along the ray |
| OldSolids.QuadraticAgrees | src/types/solid_object.rs:42-46 | the older quadratic is the newer one |
| OldSolids.SphereHit | src/types/solid_object.rs:41-74 | no hit without a positive discriminant; a hit lies strictly inside `(t_min, t_max)` with its point on the ray and the sphere's material |
| OldSolids.SphereHitIsLeastRoot | src/types/solid_object.rs:41-74 | the hit is the least point on the sphere strictly inside `(t_min, t_max)`, none exactly when there is no such point, with a unit normal |
| OldSolids.HitSolid | src/types/solid_object.rs:41-89 | every hit lies strictly inside `(t_min, t_max)` |
| OldSolids.SolidNarrows | src/types/solid_object.rs:41-89 | hitting with a smaller `t_max` keeps exactly the hits below it |
| OldSolids.GroupFromIsCloser | src/types/solid_object.rs:78-89 | narrowing `closest_so_far` as the loop goes computes the newer list's `Closer` fold over the children's full-range hits |
| OldSolids.GroupHitIsNearest | src/types/solid_object.rs:78-89 | the group hit is the nearest child hit in range, earliest on ties, and none exactly when no child is hit in range |
| OldMaterials.SchlickAgrees | src/types/material.rs:62-67 | the older approximation is the newer one and, for a positive index and a cosine in [0, 1], lies in [r0, 1] |
| OldMaterials.CosThetaAgrees | src/types/material.rs:80 | the older `cos_theta` is `min(-(u.x n.x) + u.y n.y + u.z n.z, 1)`, the newer one when the y and z products cancel |
| OldMaterials.Scatter | src/types/material.rs:23-106 | every ray starts at the hit point; Lambertian scatters off `normal + sample` with its albedo; metal scatters with its albedo exactly when the unfuzzed mirror of the unit direction leaves the surface; a dielectric always scatters and filters nothing |
| OldMaterials.LambertianAgrees | src/types/material.rs:23-33 | the older Lambertian scatter is the newer one |
| OldMaterials.MetalAgreesWhenBothScatter | src/types/material.rs:40-55 | for a unit incoming direction, whenever both metals scatter they scatter the same ray |
| OldMaterials.MetalScattersInward | src/types/material.rs:42-48 | with fuzz 1 and the ball sample `-normal`, a unit ray arriving against a unit normal is scattered into the surface by the older metal and absorbed by the newer one |
| OldMaterials.DielectricChoice | src/types/material.rs:70-106 | the older dielectric mirrors under total internal reflection or when the draw falls below the reflectance, and otherwise refracts with the older `refract` |
| OldMaterials.DielectricAgrees | src/types/material.rs:70-106 | when the y and z products of the unit direction and the normal cancel, the older dielectric scatters exactly like the newer one |

## Left out

- Vectors.Div: requires a non-zero divisor. In the source a zero divisor gives infinities or NaN, which `real` cannot hold.
- Vectors.Unit: requires a non-zero vector. The source divides by a zero length and yields NaN.
- Renderer.Background: requires a non-zero direction, because it calls `unit()`.
- Materials.DielectricDirection: requires a non-zero incoming direction, for the same reason. Materials.Scatter requires this for a dielectric.
- OldMaterials.Scatter: requires a non-zero incoming direction for metal and dielectric, which call `unit()`.
- Materials.Usable: excludes a dielectric of index 0 or -1. These divide by zero in the index ratio or in `schlick`.
- Aabbs.Recip: reads a zero direction component as `+0.0`, giving `+inf`. The source can also meet `-0.0`, whose reciprocal is `-inf`.
- Aabbs.Hit: states the slab test for `+0.0` only. With a `-0.0` component the swap fires, and that axis rejects exactly when the origin lies above the slab, not below it.
- Renderer.RayColor: requires every ray looked at along the path to have a non-zero direction (`Renderer.MovesAlong`). In the source a zero scattered direction, such as a Lambertian `normal + sample` that cancels, gives a NaN colour and byte 0.
- Renderer.RayColorIter: carries the same non-zero-direction requirement. So do Renderer.CoreRender and Renderer.Render, through `Renderer.Drawable`.
- Renderer.WorldStep: gives a zero direction an arbitrary outcome (absorbed). `Renderer.MovesAlong` keeps every modelled path from asking about one.
- Renderer.SampleRay: requires width and height of at least 2. The source divides by `width - 1` and `height - 1`, so it gives infinities or NaN for a one-pixel dimension.
- Renderer.CoreRender: carries the same width and height bound.
- Renderer.SampleColor: takes pixel indices inside the image (`j < height`, `i < width`) and a sample index below `samples`, as the loops of `core_render` and `render` produce them. So do the other per-pixel members. `Renderer.Drawable` asks for non-zero paths only for those samples.
- Bvh.Build: the sort is any permutation the caller supplies (`sort_unstable_by` with a comparator that is not a total order has no stronger promise). The axis draws are a parameter indexed by range.
- Bvh.Build: an empty range is excluded, because the source recurses on it without end (see the findings). `Bvh.BuildWorld` is the guarded entry point.
- Bvh.TreeHitNearestIsNearest: relates the traversal to the leaves whose enclosing boxes the ray hits. That a missed box holds no hit is not proved for arbitrary spheres.
- Bvh: the `time0`/`time1` parameters of `BvhNode::new` and `bounding_box` are ignored by every model, and are dropped.
- Cameras.NewCamera: takes the tangent `h` of half the vertical field of view as a parameter. `deg_to_rad` and `tan` are not modelled.
- Cameras.NewCamera: requires `look_from != look_at` and `Cross(v_up, w) != 0`. A `v_up` parallel to the view direction makes the source normalise a zero vector and fill `u` and `v` with NaN.
- The `f32`/`f64` mix is not modelled. The sphere discriminant is an `f32`, the dielectric draw is an `f32`, and everything is `real` here. Rounding and overflow are not modelled either.
- The random samplers `random`, `random_unit_disk`, `random_unit_sphere`, `random_unit_vector` and the `Distribution<Vec3>` impl are out. Their results are parameters. `Cameras.InUnitDisk` states what the disk sampler returns.
- The AVX intrinsics are modelled by their lane semantics only.
- `render_par` and the rayon thread pool are out. The sequential `render` is modelled; the parallel one writes the same rows.
- The progress output (`eprintln`), `Display`, and the `as_color` string formatting are out.
- src/main.rs (scene construction, command line, image encoding) is not part of this model.
- src/types/ray.rs is not part of this model.

## Findings

| source | as written | input that shows it | evidently intended | confidence | as-written member | corrected member |
|---|---|---|---|---|---|---|
| src/bvh.rs:64-73 | `BvhNode::new` sorts the whole `models` vector before building `[start, mid)` and `[mid, end)` | five unit spheres `v0..v4` in x order whose y order starts with `v3, v4`, axis x at the top and y on `[2, 5)`: the top call's x sort leaves the vector as it is and `[0, 2)` is built without sorting; the call on `[2, 5)` sorts the whole vector by y into `[v3, v4, v0, v1, v2]`, so it places `v0`, `v1` and `v2` again while `v3` and `v4` land in `[0, 2)`, which is already built, and are never placed | sort only `models[start..end]` | not executed | Bvh.BuildLosesModels | Bvh.BuildRangePlacesRange |
| src/bvh.rs:104-107 | a node returns its left child's hit whenever there is one | the ray from the origin along +x, a left unit sphere at `(10, 0, 0)` hit at `t = 9` and a right one at `(5, 0, 0)` hit at `t = 4`: the node returns `t = 9` | return the nearer of the two child hits | not executed | Bvh.NodeHitIsNotNearest | Bvh.TreeHitNearestIsNearest |
| src/renderer.rs:37-39 | `ray_color_iter` starts at `current_depth = max_depth` and stops only below zero | `max_depth = 0` with a ray that escapes: the sky colour instead of black | stop at `current_depth <= 0`, as `ray_color` does at depth 0 | not executed | Renderer.IterAllowsOneMoreBounce | Renderer.RayColorIterBounded |
| src/types/vector.rs:158-166 | `Neg` negates only the x component | `(1, 2, 3) + -(1, 2, 3)` is `(0, 4, 6)` | negate every component | not executed | OldVectors.NegDoesNotCancel | Vectors.NegationLaws |
| src/types/vector.rs:102-107 | `refract` computes `cos_theta` through the x-only negation | the unit direction `(0.6, -0.8, 0)` onto the normal `(0, 1, 0)` at ratio 1: the perpendicular part is `(0.6, -1.6, 0)` and the ray leaves below `y = -1.6` instead of unchanged (head on along a unit normal `n` with no x component, `-n` leaves as `-(2 + sqrt 3) n` instead of `-n`) | `cos_theta = -uv . n` | not executed | OldVectors.RefractOblique | Materials.RefractTangent |
| src/types/material.rs:42-48 | metal tests the mirror direction before adding the fuzz | unit direction `(0.6, -0.8, 0)`, normal `(0, 1, 0)`, fuzz 1, ball sample `(0, -1, 0)`: the ray leaves as `(0.6, -0.2, 0)`, into the surface | test the fuzzed direction, as src/material.rs does | not executed | OldMaterials.MetalScattersInward | Materials.Scatter |
| src/types/solid_object.rs:20-27 | the back-face normal is the x-only negation of the outward normal | outward normal `(0, 1, 0)` seen from a ray going `(0, 1, 0)`: the normal stays `(0, 1, 0)` and points along the ray | negate the whole normal | not executed | OldSolids.BackFaceNormalFollowsRay | Models.FaceNormal |
| src/bvh.rs:52-73 | an empty range falls to the split branch with `mid = start` and calls `BvhNode::new(start, start)` again | an empty world, `BvhNode::new(&mut vec![], 0, 0, ..)`: the first recursive call is the same empty range, so the construction never returns | refuse an empty range, returning no tree for an empty world | not executed | Bvh.EmptyRangeNeverEnds | Bvh.BuildWorld |
