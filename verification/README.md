# raytracer-wasm core in Dafny

A model of the ray tracer in `src/lib`, with its proofs. The model covers:

- the colour and vector algebra of `utils.rs`;
- the sphere and plane primitives of `object.rs`;
- the renderer of `scene.rs`: scene construction, primary rays, the nearest-hit fold, hard shadows, energy-limited reflection, the pixel enumeration and the animation step;
- the RGBA buffer loop of `draw` in `mod.rs`.

Floating point is idealised as `real`. `sqrt`, `tan` and `sin_cos` are not defined here. A `Maths.Libm` value carries them as plain functions. Lemmas that need their laws take them as premises:
- `IsSqrt`: `sqrt(x) >= 0` and `sqrt(x)^2 = x` for `x >= 0`.
- `IsSinCos`: `sin^2 + cos^2 = 1`.

π is the decimal constant of `std::f64::consts::PI`. `f64::INFINITY`, the start value of `closest`, becomes `Scenes.Bound.Unbounded`. Channels are a `uint8` newtype. The unchecked `Color` add therefore carries its no-wrap condition as a precondition, and the blend in `handle_object` is proved to meet it.

Modules follow the source:
- `Vectors` and `Colors` come from `utils.rs`.
- `Objects` comes from `object.rs`.
- `Scenes` comes from `scene.rs`.
- `NearestHit` states what `handle_ray` computes without its fold.
- `Draw` comes from `mod.rs`.
- `Maths` and `Wrappers` hold the real-arithmetic helpers and `Option`.

Four behaviours of `src/lib` worth knowing:
- The reflection recursion does not always terminate. With reflectivity 1 the energy factor never falls below 1e-3.
- `Color` add is used in shading, by the reflection blend. It is proved never to wrap there, whatever the reflectivity.
- Only spheres can cast a shadow. The plane never occludes the light.
- `Sphere::intersect` is the formula for a unit direction, and `Ray::reflect` does not normalise the reflected direction. Sphere hits along reflected rays are therefore not on the sphere in general. A sphere the reflected ray misses can be reported hit: `Vectors.ReflectedRayNotUnit`, `Objects.ReflectedRayFalseHit` and `Objects.ReflectedRayMissesSphere` give such a ray and sphere. The sphere lemmas assume a unit direction.

## Model

| member | source | states |
|---|---|---|
| `Colors.Clamp` | src/lib/utils.rs:15-23 | the result is 255 above 255, 0 below 0, and otherwise the truncation `v <= x < v + 1`; it never exceeds `max(0, x)` |
| `Colors.ClampsToUnique` | src/lib/utils.rs:15-23 | the clamp relation fixes the byte uniquely, so `Clamp` is the only function meeting it |
| `Colors.ScaleChannel` | src/lib/utils.rs:30-32 | one channel of `Color * f64` is the clamp of `channel * factor` |
| `Colors.ScaleColor` | src/lib/utils.rs:25-35 | every channel of `Color * f64` is the clamped product of that channel |
| `Colors.ScaleByOne` | src/lib/utils.rs:25-35 | factor 1.0 leaves a colour unchanged |
| `Colors.ScaleByZero` | src/lib/utils.rs:25-35 | factor 0.0 gives black |
| `Colors.ScaleSaturates` | src/lib/utils.rs:25-35 | {200,200,200} * 2.0 saturates to {255,255,255} instead of wrapping |
| `Colors.ScaleDarkens` | src/lib/utils.rs:25-35 | a factor in [0,1] never brightens any channel |
| `Colors.ChannelDarkens` | src/lib/utils.rs:30-32 | a factor in [0,1] never brightens one channel |
| `Colors.MultU8` | src/lib/utils.rs:37-39 | the result is the floor of `a*b/255` (`r*255 <= a*b < (r+1)*255`) and is at most each operand, so the u8 cast loses nothing |
| `Colors.MultU8Commutes` | src/lib/utils.rs:37-39 | the channel product is commutative |
| `Colors.MultU8Identity` | src/lib/utils.rs:37-39 | 255 is a two-sided identity and 0 absorbs |
| `Colors.MulColor` | src/lib/utils.rs:59-69 | each channel is `mult_u8` of the two operands' channels, `r*255 <= a*b < (r+1)*255`, so never brighter than either operand |
| `Colors.MulColorExample` | src/lib/utils.rs:41-57 | {0xAA,0x55,0x22} times itself is {113,28,4}, as the unit test asserts |
| `Colors.AddColor` | src/lib/utils.rs:71-81 | when no channel sum exceeds 255, each channel is the exact sum |
| `Vectors.Add` | src/lib/utils.rs:100-110 | component-wise sum; its properties are stated by `Vectors.AddSubInverse` and `Vectors.DotAddLeft` |
| `Vectors.Sub` | src/lib/utils.rs:112-122 | component-wise difference; its properties are stated by `Vectors.AddSubInverse`, `Vectors.DotSubLeft` and `Vectors.DotSubSelf` |
| `Vectors.Dot` | src/lib/utils.rs:124-130 | the `^` product; its algebra is stated by `Vectors.DotSymmetric`, `Vectors.DotScaleLeft`, `Vectors.DotSelfNonNegative` and the distribution lemmas |
| `Vectors.Scale` | src/lib/utils.rs:132-142 | `Vector3 * f64`; its properties are stated by `Vectors.DotScaleLeft` and `Vectors.DotScaleSelf` |
| `Vectors.Norm` | src/lib/utils.rs:145-147 | the root of `v ^ v`; `Vectors.DotSelfNonNegative` shows the root is taken of a non-negative value, and `Objects.NormOfRadius` evaluates it |
| `Vectors.AddSubInverse` | src/lib/utils.rs:100-122 | adding then subtracting the same vector, in either order, is the identity |
| `Vectors.DotSymmetric` | src/lib/utils.rs:124-130 | the dot product is symmetric |
| `Vectors.DotScaleLeft` | src/lib/utils.rs:124-142 | the dot product is linear in scaling its left operand |
| `Vectors.DotSubLeft` | src/lib/utils.rs:112-130 | the dot product distributes over subtraction |
| `Vectors.DotAddLeft` | src/lib/utils.rs:100-130 | the dot product distributes over addition |
| `Vectors.DotSubSelf` | src/lib/utils.rs:112-130 | `(a - l) . (a - l)` expands to `a.a - 2 a.l + l.l` |
| `Vectors.DotScaleSelf` | src/lib/utils.rs:124-142 | `(t v) . (t v)` is `t^2 (v . v)` |
| `Vectors.DotSelfNonNegative` | src/lib/utils.rs:124-130 | `v . v` is never negative, so `norm` takes the root of a non-negative value |
| `Vectors.Normalize` | src/lib/utils.rs:145-160 | below the 1e-13 norm threshold the result is the zero vector; otherwise, given the sqrt law, it is a unit vector whose dot with the input is the (positive) norm |
| `Vectors.NormalizeUnit` | src/lib/utils.rs:149-160 | scaling by `1/norm` gives a unit vector pointing along the input |
| `Vectors.NormalizeIdempotent` | src/lib/utils.rs:149-160 | normalising twice equals normalising once, degenerate inputs included |
| `Vectors.NormalizeLong` | src/lib/utils.rs:149-160 | a vector with `v . v >= 1` never takes the zero branch and normalises to unit length |
| `Vectors.RotateZ` | src/lib/utils.rs:162-169 | z is kept; given sin^2+cos^2 = 1 the length is kept |
| `Vectors.RotateY` | src/lib/utils.rs:171-178 | y is kept; given sin^2+cos^2 = 1 the length is kept |
| `Vectors.RotateX` | src/lib/utils.rs:180-187 | x is kept; given sin^2+cos^2 = 1 the length is kept |
| `Vectors.RotationPreservesLength` | src/lib/utils.rs:162-187 | a planar rotation by (sin, cos) on the unit circle keeps the squared length of the pair it turns |
| `Vectors.RotateYUndo` | src/lib/utils.rs:171-178 | given sin odd, cos even and sin^2+cos^2 = 1, turning by -angle undoes turning by angle |
| `Vectors.Reflect` | src/lib/utils.rs:90-97 | the new origin is the hit point; for a unit normal the direction's normal component is the negated incident one and its length is the incident length |
| `Vectors.ReflectedRayNotUnit` | src/lib/utils.rs:90-97 | the unit ray from the origin along -z, reflected at (0, 0, -2) in the normal (0, 0, 1), leaves with direction (0, 0, 2): the reflected direction is not normalised |
| `Vectors.Mirror` | src/lib/utils.rs:91-95 | `incident - normal * (incident ^ normal * 2)`; stated by `Vectors.MirrorFlipsNormalComponent` and `Vectors.MirrorInvolutive` |
| `Vectors.MirrorFlipsNormalComponent` | src/lib/utils.rs:91-96 | mirroring in a unit normal negates the normal component and keeps the length |
| `Vectors.MirrorInvolutive` | src/lib/utils.rs:91-96 | mirroring twice in the same unit normal gives back the vector |
| `Objects.SphereIntersect` | src/lib/object.rs:33-57 | a perpendicular distance beyond the radius gives no hit; a hit is positive and equals `d - sqrt(s2)` with `s2 >= 0`; a centre behind the ray origin (`d <= 0`) gives no hit |
| `Objects.SquaredDistanceAlongRay` | src/lib/object.rs:34-43 | for a unit direction, the squared distance from the centre to `O + tD` is `t^2 - 2t(L.D) + L.L` |
| `Objects.OnSphereIff` | src/lib/object.rs:39-50 | for a unit direction, `O + tD` is on the sphere exactly when `(t - d)^2 = r^2 - h2` |
| `Objects.SphereHitOnSurface` | src/lib/object.rs:34-53 | for a unit direction and given the sqrt law, a hit distance `t` satisfies `|O + tD - C|^2 = r^2` |
| `Objects.SphereHitIsNearRoot` | src/lib/object.rs:49-56 | for a unit direction and given the sqrt law, a hit is no farther than any other point of the ray on the sphere: it is the near root |
| `Objects.NearRootAhead` | src/lib/object.rs:49-53 | if a root lies ahead and the origin is outside, the near root `d - s` lies ahead and no farther |
| `Objects.SphereHitFromOutside` | src/lib/object.rs:33-57 | for a unit direction and given the sqrt law, from outside the sphere any point of the ray ahead on the sphere implies a hit, and the hit is no farther than it |
| `Objects.SphereNormal` | src/lib/object.rs:29-31 | the normalised offset from the centre; at a hit `Objects.SphereNormalAtHit` shows it is the outward unit normal |
| `Objects.ReflectedRayFalseHit` | src/lib/object.rs:33-57 | given sqrt(9) = 3, the ray from (0, 0, -2) with direction (0, 0, 2), which `Vectors.ReflectedRayNotUnit` produces, is reported hitting the sphere of radius 1 at (2, 0, 0) at distance 1 |
| `Objects.ReflectedRayMissesSphere` | src/lib/object.rs:33-57 | no point of that ray, at any parameter, lies on that sphere, so the hit above is false |
| `Objects.HitOffsetNorm` | src/lib/object.rs:29-31 | for a unit direction and given the sqrt law, at a hit the offset from the centre has norm `abs(radius)` |
| `Objects.NormOfRadius` | src/lib/object.rs:29-31 | a vector with `p . p = r^2` has norm `abs(r)` |
| `Objects.SphereNormalAtHit` | src/lib/object.rs:29-31 | for a unit direction and given the sqrt law, at a hit of a sphere of radius at least 1e-13 the normal is a unit vector pointing outward, at `abs(radius)` along the offset |
| `Objects.PlaneIntersect` | src/lib/object.rs:68-79 | a direction with `n . D >= 0` gives no hit; there is a hit exactly when `n . D < 0` and the origin is on the normal's side; a hit is `>= 0` and its point lies on the plane |
| `Objects.QuotientByNegative` | src/lib/object.rs:72-74 | dividing by a negative projection is non-negative exactly when the numerator is non-positive |
| `Objects.PlaneHitOnPlane` | src/lib/object.rs:72-76 | a distance solving the plane equation puts the point on the plane |
| `Objects.Intersect` | src/lib/object.rs:18-22 | `Object::intersect` dispatched by shape; stated by `Objects.SphereIntersect` and `Objects.PlaneIntersect` |
| `Objects.Normal` | src/lib/object.rs:18-22 | `Object::normal` dispatched by shape; stated by `Objects.SphereNormalAndMaterial` and `Objects.PlaneNormalAndMaterial` |
| `Objects.MaterialOf` | src/lib/object.rs:18-22 | `Object::material` dispatched by shape; stated by `Objects.SphereNormalAndMaterial` and `Objects.PlaneNormalAndMaterial` |
| `Objects.SphereNormalAndMaterial` | src/lib/object.rs:25-31 | a sphere's normal is the normalised offset of the hit point from the centre, and its material is the stored one |
| `Objects.PlaneNormalAndMaterial` | src/lib/object.rs:81-87 | a plane's normal is its stored normal whatever the hit point, and its material is the stored one |
| `Scenes.NewScene` | src/lib/scene.rs:24-33 | a new scene has no spheres and keeps the given height, width, fov, light and plane |
| `Scenes.AddSphere` | src/lib/scene.rs:35-37 | the sphere is appended at the end and nothing else changes |
| `Scenes.CreatePrime` | src/lib/scene.rs:39-60 | the primary ray starts at the origin; given the sqrt law its direction is a unit vector with negative z |
| `Scenes.PrimeDirection` | src/lib/scene.rs:53-58 | a direction with z = -1 never takes the zero branch of `normalize` |
| `Scenes.Occluded` | src/lib/scene.rs:102-105 | true exactly when some sphere intersects the ray |
| `Scenes.LightIntensity` | src/lib/scene.rs:102-115 | 0 when any sphere blocks the shadow ray; otherwise `max(0, (n . l) * intensity)`; never negative |
| `Scenes.PlaneCastsNoShadow` | src/lib/scene.rs:102-105 | the intensity does not depend on the plane: the plane is never an occluder |
| `Scenes.WeightedSumBound` | src/lib/scene.rs:124 | channel values weighted by non-negative factors sum to at most 255 times the total weight |
| `Scenes.BlendChannelFits` | src/lib/scene.rs:124 | the two clamped blend terms of one channel sum to at most 255, for every reflectivity |
| `Scenes.ScaledChannelAtMost` | src/lib/scene.rs:124 | a weight in [0, 1] keeps a clamped channel at or below the exact product, and that product at or below the channel |
| `Scenes.BlendNoWrap` | src/lib/scene.rs:119-125 | the unchecked colour add of the reflection blend never wraps |
| `Scenes.Blend` | src/lib/scene.rs:124 | reflectivity 0 keeps the direct colour; reflectivity 1 gives the reflected colour |
| `Scenes.SurfaceNormal` | src/lib/scene.rs:91-93 | `surf_normal`, the object's normal at the hit point; stated per shape by `Objects.SphereNormalAndMaterial` and `Objects.PlaneNormalAndMaterial` |
| `Scenes.ShadowOrigin` | src/lib/scene.rs:96 | `shadow_origin`, the hit point moved `SHADOW_BIAS` along the normal; the origin of both the shadow ray and the reflected ray |
| `Scenes.BaseColor` | src/lib/scene.rs:116-118 | `(material colour * light colour) * (intensity * albedo / pi)`; with no reflection it is the whole shade, by `Scenes.ShadeWithoutReflection` |
| `Scenes.DirectColor` | src/lib/scene.rs:94-118 | `color0`, the base colour lit along the shadow ray; `Scenes.LightIntensity` states the intensity, and the `Shade` lemmas show when it is the whole shade |
| `Scenes.ReflectedRay` | src/lib/scene.rs:119 | `ray.reflect(shadow_origin, surf_normal)`; `Vectors.Reflect` states its origin, normal component and length |
| `Scenes.Shade` | src/lib/scene.rs:91-126 | the shading of a hit; its reflection rule is stated by `Scenes.ShadeWithoutReflection`, `Scenes.ShadeWhenReflectionYieldsNothing`, `Scenes.ShadeWhenReflectionYields`, `NearestHit.ReflectionMissLeavesDirectColor` and `NearestHit.HandleRayAtNearest`; `Scenes.BlendNoWrap` shows its blend never wraps |
| `Scenes.HandleObject` | src/lib/scene.rs:79-129 | no hit, or a hit not strictly closer, gives `(None, closest)`; otherwise the shaded colour and the new, strictly smaller distance |
| `Scenes.HandleRay` | src/lib/scene.rs:131-135 | an energy factor below 1e-3, or no ray, gives `None` |
| `Scenes.FoldSpheres` | src/lib/scene.rs:138-142 | the loop over the spheres with `co.or(color)`; `NearestHit.FoldSpheresNearest` states that it returns the nearest object's shade |
| `Scenes.ShadeWithoutReflection` | src/lib/scene.rs:116-126 | when the reflected ray's energy is below the cutoff (or at fuel 0), the shade is the direct colour alone |
| `Scenes.ShadeWhenReflectionYieldsNothing` | src/lib/scene.rs:119-126 | when the followed reflected ray yields no colour, the shade is the direct colour `color0` |
| `Scenes.ShadeWhenReflectionYields` | src/lib/scene.rs:119-126 | when the followed reflected ray yields colour `c`, the shade is `color0 * (1 - refl) + c * refl` |
| `Scenes.RenderPixel` | src/lib/scene.rs:62-71 | a ray that hits nothing shows exactly {0x99,0xCC,0xFF}; otherwise the traced colour |
| `Scenes.Column` | src/lib/scene.rs:74 | the inner loop lists (x, y) for every y from the start up to the height, in order |
| `Scenes.Columns` | src/lib/scene.rs:74 | the flattened pairs have `(width - x) * height` entries, all in range, at their column-major positions |
| `Scenes.Render` | src/lib/scene.rs:73-77 | `width * height` pixels, each in range, at position `x * height + y`, coloured by `render_pixel` |
| `Scenes.ColumnMajorInFrame` | src/lib/scene.rs:73-77 | an in-range pixel's column-major position is below `width * height` |
| `Scenes.ColumnMajorInjective` | src/lib/scene.rs:73-77 | distinct in-range pixels have distinct column-major positions |
| `Scenes.RenderCoversFrame` | src/lib/scene.rs:73-77 | every (x, y) of the frame is emitted, at its column-major position, and no two entries name the same pixel |
| `Scenes.Update` | src/lib/scene.rs:146-152 | keeps the sphere count, each radius, material and centre height, and everything outside the spheres; given sin^2+cos^2 = 1, keeps each centre's distance to the pivot |
| `Scenes.MoveSphere` | src/lib/scene.rs:148-150 | one sphere moved by `update`; `Scenes.Update` states what it keeps and `Scenes.UpdateUndo` that it can be undone |
| `Scenes.UpdateUndo` | src/lib/scene.rs:146-152 | given sin odd, cos even and sin^2+cos^2 = 1, `update(-angle)` after `update(angle)` restores the scene |
| `Scenes.UpdateQuarterTurn` | src/lib/scene.rs:146-152 | with sin = 1 and cos = 0, a centre at pivot + (1,0,0) moves to pivot + (0,0,1) |
| `Wrappers.Option.Or` | src/lib/scene.rs:140 | `co.or(color)`: present exactly when either side is, and then one of the two, the newer `co` taking precedence |
| `Wrappers.OrNoneIdentity` | src/lib/scene.rs:140 | `None` is a two-sided identity of `or` |
| `Wrappers.OrAssociative` | src/lib/scene.rs:140 | chained `or`s keep the first present value however they are grouped |
| `NearestHit.NearestUnique` | src/lib/scene.rs:136-143 | the first nearest object, ties going to the earlier one, is unique |
| `NearestHit.FoldStepMiss` | src/lib/scene.rs:138-142 | an object the ray misses leaves the fold state faithful |
| `NearestHit.FoldStepFirst` | src/lib/scene.rs:138-142 | the first object hit becomes the nearest |
| `NearestHit.FoldStepCloser` | src/lib/scene.rs:138-142 | a strictly closer hit replaces the nearest so far |
| `NearestHit.FoldStepFarther` | src/lib/scene.rs:138-142 | a hit no closer than the nearest so far leaves it in place, so the earlier object wins ties |
| `NearestHit.FoldStep` | src/lib/scene.rs:138-142 | one `handle_object` step with `co.or(color)` keeps colour and `closest` equal to the nearest object's |
| `NearestHit.MissExtends` | src/lib/scene.rs:138-142 | an object the ray misses keeps "nothing hit so far" true one object further |
| `NearestHit.FoldDone` | src/lib/scene.rs:143 | once all objects are folded, a faithful state answers the nearest-hit question |
| `NearestHit.ClosestNeverIncreases` | src/lib/scene.rs:86-90 | `closest` after a step is never larger than before |
| `NearestHit.FoldSpheresNearest` | src/lib/scene.rs:138-143 | the loop over the spheres returns `None` exactly when nothing was hit, else the nearest object's shade |
| `NearestHit.HandleRayNearest` | src/lib/scene.rs:131-144 | above the cutoff, `handle_ray` is `None` exactly when no object is hit; otherwise a nearest object exists and the result is its shade, with the plane first and earlier spheres winning ties |
| `NearestHit.HandleRayMissesEverything` | src/lib/scene.rs:131-144 | a ray that hits no object yields no colour, at any energy |
| `NearestHit.HandleRayAtNearest` | src/lib/scene.rs:131-144 | above the cutoff, a ray yields the shade of a nearest object it hits; for the reflected ray this is the colour `Scenes.ShadeWhenReflectionYields` blends in |
| `NearestHit.ReflectionMissLeavesDirectColor` | src/lib/scene.rs:119-126 | a followed reflected ray that hits no object leaves the direct colour |
| `NearestHit.RenderPixelNearest` | src/lib/scene.rs:62-71 | a pixel shows the sky colour when its primary ray misses everything, and otherwise the nearest object's shade |
| `NearestHit.SkyWhenNothingAhead` | src/lib/scene.rs:62-71 | with no spheres and a primary ray not facing the plane, the pixel is exactly the sky colour |
| `Draw.RowMajorInBounds` | src/lib/mod.rs:58-62 | an in-range pixel's position `y * width + x` is below `height * width`, so its four bytes lie inside the buffer |
| `Draw.RowMajorInjective` | src/lib/mod.rs:58 | two in-range pixels share a position exactly when they are the same pixel |
| `Draw.Paint` | src/lib/mod.rs:59-62 | one iteration writes R, G, B and alpha 0xFF at bytes `4*pos` to `4*pos+3` and nothing else |
| `Draw.PaintKeepsOthers` | src/lib/mod.rs:58-62 | painting one pixel never disturbs another pixel's bytes |
| `Draw.RowBytes` | src/lib/mod.rs:58-62 | one row of the image holds four bytes per pixel |
| `Draw.RowsFrom` | src/lib/mod.rs:56-62 | rows `y` onwards hold `(height - y) * width * 4` bytes |
| `Draw.ImageOf` | src/lib/mod.rs:56 | the image of a `width` x `height` frame has `height * width * 4` bytes, the size of the zeroed buffer |
| `Draw.ImageBytes` | src/lib/mod.rs:56 | the expected image of the scene has `height * width * 4` bytes |
| `Draw.PaintedBytes` | src/lib/mod.rs:59-62 | byte `k` of a painted pixel is byte `k` of `[r, g, b, 0xFF]` |
| `Draw.RowPainted` | src/lib/mod.rs:58-62 | once every pixel is painted, the bytes of row `y` are that row of the image |
| `Draw.RowsPainted` | src/lib/mod.rs:56-62 | once every pixel is painted, the buffer from row `y` onwards is rows `y` onwards of the image |
| `Draw.PaintedIsImage` | src/lib/mod.rs:57-63 | a buffer in which every pixel is painted with its colour is byte for byte the expected image, since every byte lies in some painted pixel, each byte equals the image's byte at that index |
| `Draw.DrawBuffer` | src/lib/mod.rs:56-63 | the buffer has `height * width * 4` bytes; every pixel (x, y) holds its rendered R, G, B and 0xFF at `4*(y*width + x)`; the whole buffer equals the expected image |

## Left out

- Browser and WASM plumbing (`window`, `request_animation_frame`, `animate`, the shared closure, `ImageData`, `put_image_data`, the wasm-bindgen attributes): I/O and shared mutability with no logic of their own.
- `test_scene` and `src/main.rs`: hard-coded scene data and image-file output. src/main.rs is not part of this model.
- IEEE-754 rounding, NaN, and `as u8` on NaN: all arithmetic is over `real`.
- `sqrt`, `tan` and `sin_cos` are parameters. Three laws are assumed, and only where a lemma states them as premises: the sqrt law, sin^2+cos^2 = 1, and sin odd with cos even (`sin_cos(-a) = (-sin a, cos a)`, premise of `Vectors.RotateYUndo` and `Scenes.UpdateUndo`). `Scenes.UpdateQuarterTurn` takes the value `(1, 0)` of `sin_cos` at its angle as a premise. Nothing is assumed about `tan`, so the x and y components of a primary ray are not constrained.
- Scenes.CreatePrime: states the origin, the unit length and the negative z of the direction, but not its x and y values, which depend on `tan` and on float division.
- Termination of the reflection recursion: `handle_ray` is not total when reflectivity is 1. `HandleRay` and `Shade` take an explicit `fuel` bound. At fuel 0 the reflected ray is not followed. The model says nothing about reflection chains longer than the fuel.
- Scenes.HandleRay: its own contract covers only the cutoff and the missing ray; what it computes for a present ray is stated by `NearestHit.HandleRayNearest`.
- Scenes.Shade: the blend with the shade of the nearest object along the reflected ray is stated in two steps, not one lemma: `NearestHit.HandleRayAtNearest` gives the reflected ray's colour, and `Scenes.ShadeWhenReflectionYields` blends it in. The split is deliberate: stated as one lemma, the proof has to unfold `Shade` a second time, for the reflected object, inside the first.
- Scenes.Blend: its contract states the endpoints only; the no-wrap guarantee it relies on is `Scenes.BlendNoWrap`.
- Concrete Lambertian colours (albedo/π times intensity): float numerics with no stated contract; `BaseColor`, `DirectColor` and `Shade` carry no contract of their own.
- Whether `Color` add panics or wraps on overflow: the model requires that it does not overflow, and proves this for its one use in the blend.
- `usize` width: pixel coordinates and buffer indices are unbounded naturals, and the product `height * width * 4` is not checked for overflow.
- A frame of width or height 0: `create_prime` would divide by zero. `CreatePrime` and `RenderPixel` require a non-empty frame, and `render` then emits no pixels.
