/** The renderer of src/lib/scene.rs: the scene record, primary rays, the
    nearest-hit fold, shading with hard shadows and energy-limited reflection,
    the pixel enumeration, and the animation step. */
module Scenes {
  import opened Wrappers
  import opened Maths
  import opened Vectors
  import opened Colors
  import opened Objects

  datatype Light = Light(direction: Vector3, color: Color, intensity: real)

  datatype Scene = Scene(width: nat, height: nat, fov: real, light: Light, spheres: seq<Sphere>, plane: Plane)

  /** Offset along the normal that lifts shadow and reflection rays off the surface. */
  const ShadowBias: real := 0.000001

  /** Below this accumulated reflectivity a ray contributes nothing. */
  const EnergyCutoff: real := 0.001

  /** The colour of a ray that escapes the scene. */
  const Sky := Color(0x99, 0xCC, 0xFF)

  /** `Scene::new` (note the height-before-width argument order): no spheres yet. */
  function NewScene(height: nat, width: nat, fov: real, light: Light, plane: Plane): (s: Scene)
    ensures s.spheres == []
    ensures s.width == width && s.height == height && s.fov == fov
    ensures s.light == light && s.plane == plane
  {
    Scene(width, height, fov, light, [], plane)
  }

  /** `Scene::add_sphere`: appends at the end, so a later sphere loses distance ties. */
  function AddSphere(s: Scene, obj: Sphere): (r: Scene)
    ensures r.spheres == s.spheres + [obj]
    ensures r.(spheres := s.spheres) == s
  {
    s.(spheres := s.spheres + [obj])
  }

  /** `Scene::create_prime`: the camera ray through the centre of pixel (u, v). */
  function CreatePrime(s: Scene, m: Libm, u: nat, v: nat): (r: Ray)
    requires 0 < s.width && 0 < s.height
    ensures r.origin == Zero()
    ensures IsSqrt(m.sqrt) ==> Dot(r.direction, r.direction) == 1.0 && r.direction.z < 0.0
  {
    var (w, h) := (s.width as real, s.height as real);
    var (x, y) := (u as real, v as real);
    var fovAdj := m.tan(s.fov / 2.0);
    var aspectRatio := w / h;
    var dirX := (((x + 0.5) / w) * 2.0 - 1.0) * aspectRatio * fovAdj;
    var dirY := (1.0 - 2.0 * ((y + 0.5) / h)) * fovAdj;
    var dir := Vector3(dirX, dirY, -1.0);
    PrimeDirection(m, dir);
    Ray(Zero(), Normalize(m, dir))
  }

  /** A direction whose z is -1 is long enough to normalise, and keeps a negative z. */
  lemma PrimeDirection(m: Libm, dir: Vector3)
    requires dir.z == -1.0
    ensures IsSqrt(m.sqrt) ==> !Degenerate(m, dir)
    ensures IsSqrt(m.sqrt) ==> Dot(Normalize(m, dir), Normalize(m, dir)) == 1.0 && Normalize(m, dir).z < 0.0
  {
    if IsSqrt(m.sqrt) {
      assert 1.0 <= Dot(dir, dir) by {
        SquareNonNegative(dir.x);
        SquareNonNegative(dir.y);
      }
      NormalizeLong(m, dir);
      var n := Norm(m, dir);
      assert 0.0 < n;
      assert Normalize(m, dir).z == -1.0 * (1.0 / n);
    }
  }

  /** The running "closest distance so far"; `Unbounded` stands for `f64::INFINITY`. */
  datatype Bound = Unbounded | Finite(value: real)

  /** `dist < closest`. */
  predicate Closer(d: real, b: Bound) {
    b.Unbounded? || d < b.value
  }

  /** `objects.iter().any(|o| o.intersect(ray).is_some())`. */
  function Occluded(m: Libm, spheres: seq<Sphere>, ray: Ray): (b: bool)
    ensures b <==> exists i :: 0 <= i < |spheres| && SphereIntersect(m, spheres[i], ray).Some?
    decreases |spheres|
  {
    if spheres == [] then false
    else if SphereIntersect(m, spheres[0], ray).Some? then true
    else
      var rest := Occluded(m, spheres[1..], ray);
      assert forall i :: 1 <= i < |spheres| ==> spheres[i] == spheres[1..][i - 1];
      rest
  }

  /** The light reaching a hit point: nothing when any sphere blocks the shadow ray
      (the plane is never considered), otherwise the clipped Lambertian term. */
  function LightIntensity(s: Scene, m: Libm, normal: Vector3, shadowRay: Ray): (r: real)
    ensures 0.0 <= r
    ensures (exists i :: 0 <= i < |s.spheres| && SphereIntersect(m, s.spheres[i], shadowRay).Some?) ==> r == 0.0
    ensures (forall i :: 0 <= i < |s.spheres| ==> SphereIntersect(m, s.spheres[i], shadowRay).None?) ==>
              r == Max(0.0, Dot(normal, shadowRay.direction) * s.light.intensity)
  {
    if Occluded(m, s.spheres, shadowRay) then 0.0
    else
      var dot := Dot(normal, shadowRay.direction) * s.light.intensity;
      if dot > 0.0 then dot else 0.0
  }

  /** The plane casts no shadow: replacing it leaves every intensity unchanged. */
  lemma PlaneCastsNoShadow(s: Scene, m: Libm, normal: Vector3, shadowRay: Ray, p: Plane)
    ensures LightIntensity(s.(plane := p), m, normal, shadowRay) == LightIntensity(s, m, normal, shadowRay)
  {
  }

  /** A weighted sum of two channel values is at most 255 times the total weight. */
  lemma WeightedSumBound(av: real, bv: real, q: real, r: real)
    requires 0.0 <= av <= 255.0 && 0.0 <= bv <= 255.0 && 0.0 <= q && 0.0 <= r
    ensures av * q + bv * r <= 255.0 * q + 255.0 * r
  {
    MulRight(q, av, 255.0);
    MulRight(r, bv, 255.0);
  }

  /** The blend of two channels never exceeds 255, whatever the reflectivity: inside
      [0, 1] the weights sum to one, and outside it one of the terms clamps to 0. */
  lemma BlendChannelFits(a: uint8, b: uint8, refl: real)
    ensures ScaleChannel(a, 1.0 - refl) as int + ScaleChannel(b, refl) as int <= 255
  {
    var av := a as real;
    var bv := b as real;
    if refl < 0.0 {
      MulLeft(bv, refl, 0.0);
    } else if 1.0 < refl {
      MulLeft(av, 1.0 - refl, 0.0);
    } else {
      ScaledChannelAtMost(a, 1.0 - refl);
      ScaledChannelAtMost(b, refl);
      WeightedSumBound(av, bv, 1.0 - refl, refl);
      assert ScaleChannel(a, 1.0 - refl) as real + ScaleChannel(b, refl) as real <= 255.0;
    }
  }

  /** A weight in [0, 1] keeps the clamped channel at or below the exact product. */
  lemma ScaledChannelAtMost(v: uint8, f: real)
    requires 0.0 <= f <= 1.0
    ensures ScaleChannel(v, f) as real <= v as real * f <= v as real
  {
    MulLeft(v as real, 0.0, f);
    MulLeft(v as real, f, 1.0);
  }

  /** The unchecked colour add of the blend can never wrap. */
  lemma BlendNoWrap(color0: Color, reflected: Color, refl: real)
    ensures NoWrap(ScaleColor(color0, 1.0 - refl), ScaleColor(reflected, refl))
  {
    BlendChannelFits(color0.r, reflected.r, refl);
    BlendChannelFits(color0.g, reflected.g, refl);
    BlendChannelFits(color0.b, reflected.b, refl);
  }

  /** `color0 * (1 - refl) + reflected * refl`. */
  function Blend(color0: Color, reflected: Color, refl: real): (r: Color)
    ensures refl == 0.0 ==> r == color0
    ensures refl == 1.0 ==> r == reflected
  {
    BlendNoWrap(color0, reflected, refl);
    ScaleByOne(color0); ScaleByZero(color0);
    ScaleByOne(reflected); ScaleByZero(reflected);
    AddColor(ScaleColor(color0, 1.0 - refl), ScaleColor(reflected, refl))
  }

  /** The direct (unreflected) colour of a surface point: material colour filtered by
      the light colour, scaled by intensity * albedo / pi. */
  function BaseColor(s: Scene, obj: Shape, intensity: real): Color {
    var lightReflected := MaterialOf(obj).albedo / Pi;
    ScaleColor(MulColor(MaterialOf(obj).color, s.light.color), intensity * lightReflected)
  }

  /** `surf_normal`: the object's normal at the hit point `direction * dist + origin`. */
  function SurfaceNormal(m: Libm, obj: Shape, ray: Ray, dist: real): Vector3 {
    Normal(m, obj, PointAt(ray, dist))
  }

  /** `shadow_origin`: the hit point pushed off the surface along the normal. */
  function ShadowOrigin(m: Libm, obj: Shape, ray: Ray, dist: real): Vector3 {
    Add(PointAt(ray, dist), Scale(SurfaceNormal(m, obj, ray, dist), ShadowBias))
  }

  /** `color0` of `handle_object`: the direct colour at the hit, lit along the shadow ray
      towards the light. */
  function DirectColor(s: Scene, m: Libm, obj: Shape, ray: Ray, dist: real): Color {
    var shadowRay := Ray(ShadowOrigin(m, obj, ray, dist), Scale(s.light.direction, -1.0));
    BaseColor(s, obj, LightIntensity(s, m, SurfaceNormal(m, obj, ray, dist), shadowRay))
  }

  /** `reflected_ray` of `handle_object`: the ray mirrored at the shadow origin. */
  function ReflectedRay(m: Libm, obj: Shape, ray: Ray, dist: real): Ray {
    Reflect(ray, ShadowOrigin(m, obj, ray, dist), SurfaceNormal(m, obj, ray, dist))
  }

  /** The body of `handle_object` once a closer hit at `dist` is known: the direct colour,
      blended with the reflected ray's colour when that ray yields one. At `fuel` 0 the
      reflected ray is not followed. */
  function Shade(s: Scene, m: Libm, obj: Shape, ray: Ray, dist: real, acc: real, fuel: nat): Color
    decreases fuel, 0
  {
    var color0 := DirectColor(s, m, obj, ray, dist);
    var refl := MaterialOf(obj).reflectivity;
    var reflected := if fuel == 0 then None else HandleRay(s, m, Some(ReflectedRay(m, obj, ray, dist)), acc * refl, fuel - 1);
    match reflected
    case Some(colorReflected) => Blend(color0, colorReflected, refl)
    case None => color0
  }

  /** `Scene::handle_object`: shade `obj` only if it is hit strictly closer than `closest`. */
  function HandleObject(s: Scene, m: Libm, obj: Shape, closest: Bound, ray: Ray, acc: real, fuel: nat)
    : (r: (Option<Color>, Bound))
    decreases fuel, 1
    ensures r.0.None? <==> Intersect(m, obj, ray).None? || !Closer(Intersect(m, obj, ray).value, closest)
    ensures r.0.None? ==> r.1 == closest
    ensures r.0.Some? ==> && Closer(Intersect(m, obj, ray).value, closest)
                          && r.1 == Finite(Intersect(m, obj, ray).value)
                          && r.0.value == Shade(s, m, obj, ray, Intersect(m, obj, ray).value, acc, fuel)
  {
    match Intersect(m, obj, ray)
    case None => (None, closest)
    case Some(dist) =>
      if Closer(dist, closest) then (Some(Shade(s, m, obj, ray, dist, acc, fuel)), Finite(dist))
      else (None, closest)
  }

  /** `Scene::handle_ray`: the plane first, from an unbounded `closest`, then every sphere in order. */
  function HandleRay(s: Scene, m: Libm, ray: Option<Ray>, acc: real, fuel: nat): (r: Option<Color>)
    decreases fuel, 3
    ensures acc < EnergyCutoff || ray.None? ==> r.None?
  {
    if acc < EnergyCutoff then None
    else
      match ray
      case None => None
      case Some(primary) =>
        var (color, closest) := HandleObject(s, m, PlaneShape(s.plane), Unbounded, primary, acc, fuel);
        FoldSpheres(s, m, 0, color, closest, primary, acc, fuel)
  }

  /** The `for obj in self.objects` loop of `handle_ray`, from sphere `i` on. */
  function FoldSpheres(s: Scene, m: Libm, i: nat, color: Option<Color>, closest: Bound, ray: Ray, acc: real, fuel: nat)
    : Option<Color>
    requires i <= |s.spheres|
    decreases fuel, 2, |s.spheres| - i
  {
    if i == |s.spheres| then color
    else
      var (co, cl) := HandleObject(s, m, SphereShape(s.spheres[i]), closest, ray, acc, fuel);
      FoldSpheres(s, m, i + 1, co.Or(color), cl, ray, acc, fuel)
  }

  /** A reflection below the energy cutoff (or one not followed, at fuel 0) adds nothing:
      the shade is the direct colour. */
  lemma ShadeWithoutReflection(s: Scene, m: Libm, obj: Shape, ray: Ray, dist: real, acc: real, fuel: nat)
    requires fuel == 0 || acc * MaterialOf(obj).reflectivity < EnergyCutoff
    ensures Shade(s, m, obj, ray, dist, acc, fuel) == DirectColor(s, m, obj, ray, dist)
  {
  }

  /** A followed reflected ray that yields no colour leaves the direct colour. */
  lemma ShadeWhenReflectionYieldsNothing(s: Scene, m: Libm, obj: Shape, ray: Ray, dist: real, acc: real, fuel: nat)
    requires 0 < fuel
    requires HandleRay(s, m, Some(ReflectedRay(m, obj, ray, dist)), acc * MaterialOf(obj).reflectivity, fuel - 1).None?
    ensures Shade(s, m, obj, ray, dist, acc, fuel) == DirectColor(s, m, obj, ray, dist)
  {
  }

  /** A followed reflected ray that yields colour `c` is blended with the direct colour by
      the reflectivity. */
  lemma ShadeWhenReflectionYields(s: Scene, m: Libm, obj: Shape, ray: Ray, dist: real, acc: real, fuel: nat, c: Color)
    requires 0 < fuel
    requires HandleRay(s, m, Some(ReflectedRay(m, obj, ray, dist)), acc * MaterialOf(obj).reflectivity, fuel - 1) == Some(c)
    ensures Shade(s, m, obj, ray, dist, acc, fuel) == Blend(DirectColor(s, m, obj, ray, dist), c, MaterialOf(obj).reflectivity)
  {
  }

  /** `Scene::render_pixel`: the primary ray's colour, or the sky when it escapes. */
  function RenderPixel(s: Scene, m: Libm, fuel: nat, x: nat, y: nat): (c: Color)
    requires 0 < s.width && 0 < s.height
    ensures HandleRay(s, m, Some(CreatePrime(s, m, x, y)), 1.0, fuel).None? ==> c == Sky
    ensures HandleRay(s, m, Some(CreatePrime(s, m, x, y)), 1.0, fuel).Some? ==>
              c == HandleRay(s, m, Some(CreatePrime(s, m, x, y)), 1.0, fuel).value
  {
    var ray := CreatePrime(s, m, x, y);
    var color := HandleRay(s, m, Some(ray), 1.0, fuel);
    match color
    case Some(c) => c
    case None => Sky
  }

  datatype Pixel = Pixel(x: nat, y: nat, color: Color)

  /** Position of pixel (x, y) in the column-major order of `render`. */
  function ColumnMajor(height: nat, x: nat, y: nat): nat {
    x * height + y
  }

  /** The inner `(0..height).map(move |y| (x, y))` of `render`, from row `y` on. */
  function Column(height: nat, x: nat, y: nat): (r: seq<(nat, nat)>)
    requires y <= height
    decreases height - y
    ensures |r| == height - y
    ensures forall k :: 0 <= k < |r| ==> r[k] == (x, y + k)
  {
    if y == height then [] else [(x, y)] + Column(height, x, y + 1)
  }

  /** The `pairs` of `render`: `(0..width).flat_map(...)` from column `x` on. */
  function Columns(width: nat, height: nat, x: nat): (r: seq<(nat, nat)>)
    requires x <= width
    decreases width - x
    ensures |r| == (width - x) * height
    ensures forall k :: 0 <= k < |r| ==>
              x <= r[k].0 < width && r[k].1 < height && k == ColumnMajor(height, r[k].0 - x, r[k].1)
  {
    if x == width then []
    else
      var col := Column(height, x, 0);
      var rest := Columns(width, height, x + 1);
      var r := col + rest;
      assert |r| == (width - x) * height by {
        assert (width - x) * height == height + (width - (x + 1)) * height;
      }
      forall k | height <= k < |r|
        ensures k == ColumnMajor(height, r[k].0 - x, r[k].1)
      {
        var j := k - height;
        assert r[k] == rest[j];
        assert (rest[j].0 - x) * height == (rest[j].0 - (x + 1)) * height + height;
      }
      r
  }

  /** `Scene::render`: every pixel of the frame with its colour, column by column. */
  function Render(s: Scene, m: Libm, fuel: nat): (r: seq<Pixel>)
    ensures |r| == s.width * s.height
    ensures forall k :: 0 <= k < |r| ==>
              && r[k].x < s.width && r[k].y < s.height
              && k == ColumnMajor(s.height, r[k].x, r[k].y)
              && r[k].color == RenderPixel(s, m, fuel, r[k].x, r[k].y)
  {
    var pairs := Columns(s.width, s.height, 0);
    seq(|pairs|, k requires 0 <= k < |pairs| => Pixel(pairs[k].0, pairs[k].1, RenderPixel(s, m, fuel, pairs[k].0, pairs[k].1)))
  }

  /** Column-major positions of in-range pixels are distinct and inside the frame. */
  lemma ColumnMajorInFrame(width: nat, height: nat, x: nat, y: nat)
    requires x < width && y < height
    ensures ColumnMajor(height, x, y) < width * height
  {
    assert x * height + height == (x + 1) * height;
    assert (x + 1) * height <= width * height;
  }

  lemma ColumnMajorInjective(height: nat, x1: nat, y1: nat, x2: nat, y2: nat)
    requires y1 < height && y2 < height
    requires ColumnMajor(height, x1, y1) == ColumnMajor(height, x2, y2)
    ensures x1 == x2 && y1 == y2
  {
    MulGap(x1, x2, height);
    MulGap(x2, x1, height);
  }

  /** Full coverage: every (x, y) of the frame appears in `render` exactly once, at its column-major position. */
  lemma RenderCoversFrame(s: Scene, m: Libm, fuel: nat)
    ensures forall x: nat, y: nat :: x < s.width && y < s.height ==>
              && ColumnMajor(s.height, x, y) < |Render(s, m, fuel)|
              && Render(s, m, fuel)[ColumnMajor(s.height, x, y)] == Pixel(x, y, RenderPixel(s, m, fuel, x, y))
    ensures forall i, j ::
              (0 <= i < |Render(s, m, fuel)| && 0 <= j < |Render(s, m, fuel)| &&
               Render(s, m, fuel)[i].x == Render(s, m, fuel)[j].x &&
               Render(s, m, fuel)[i].y == Render(s, m, fuel)[j].y) ==> i == j
  {
    var r := Render(s, m, fuel);
    forall x: nat, y: nat | x < s.width && y < s.height
      ensures ColumnMajor(s.height, x, y) < |r| && r[ColumnMajor(s.height, x, y)] == Pixel(x, y, RenderPixel(s, m, fuel, x, y))
    {
      var k := ColumnMajor(s.height, x, y);
      ColumnMajorInFrame(s.width, s.height, x, y);
      ColumnMajorInjective(s.height, r[k].x, r[k].y, x, y);
    }
  }

  /** A sphere moved by `update`: translated by -pivot, turned about Y, translated back. */
  function MoveSphere(m: Libm, sp: Sphere, angle: real, pivot: Vector3): Sphere {
    sp.(center := Add(RotateY(m, Sub(sp.center, pivot), angle), pivot))
  }

  /** `Scene::update`: every sphere turns about the vertical axis through `pivot`;
      heights, radii, materials and everything but the sphere centres are kept. */
  function Update(s: Scene, m: Libm, angle: real, pivot: Vector3): (r: Scene)
    ensures |r.spheres| == |s.spheres|
    ensures r.(spheres := s.spheres) == s
    ensures forall i :: 0 <= i < |s.spheres| ==>
              && r.spheres[i].radius == s.spheres[i].radius
              && r.spheres[i].material == s.spheres[i].material
              && r.spheres[i].center.y == s.spheres[i].center.y
    ensures IsSinCos(m.sinCos) ==> forall i :: 0 <= i < |s.spheres| ==>
              var c := Sub(r.spheres[i].center, pivot);
              var c0 := Sub(s.spheres[i].center, pivot);
              Dot(c, c) == Dot(c0, c0)
  {
    var moved := seq(|s.spheres|, i requires 0 <= i < |s.spheres| => MoveSphere(m, s.spheres[i], angle, pivot));
    forall i | 0 <= i < |s.spheres|
      ensures Sub(moved[i].center, pivot) == RotateY(m, Sub(s.spheres[i].center, pivot), angle)
    {
      AddSubInverse(RotateY(m, Sub(s.spheres[i].center, pivot), angle), pivot);
    }
    s.(spheres := moved)
  }

  /** Turning back by -angle undoes `update`, given sin odd, cos even and sin^2 + cos^2 = 1. */
  lemma UpdateUndo(s: Scene, m: Libm, angle: real, pivot: Vector3)
    requires IsSinCos(m.sinCos)
    requires m.sinCos(-angle) == (-m.sinCos(angle).0, m.sinCos(angle).1)
    ensures Update(Update(s, m, angle, pivot), m, -angle, pivot) == s
  {
    var once := Update(s, m, angle, pivot);
    var twice := Update(once, m, -angle, pivot);
    forall i | 0 <= i < |s.spheres|
      ensures twice.spheres[i] == s.spheres[i]
    {
      var c := s.spheres[i].center;
      var rotated := RotateY(m, Sub(c, pivot), angle);
      AddSubInverse(rotated, pivot);
      RotateYUndo(m, Sub(c, pivot), angle);
      AddSubInverse(c, pivot);
    }
    assert twice.spheres == s.spheres;
  }

  /** A quarter turn (sin = 1, cos = 0) carries pivot + (1,0,0) to pivot + (0,0,1). */
  lemma UpdateQuarterTurn(m: Libm, angle: real, pivot: Vector3, sp: Sphere)
    requires m.sinCos(angle) == (1.0, 0.0)
    requires sp.center == Add(Vector3(1.0, 0.0, 0.0), pivot)
    ensures MoveSphere(m, sp, angle, pivot).center == Add(Vector3(0.0, 0.0, 1.0), pivot)
  {
    AddSubInverse(Vector3(1.0, 0.0, 0.0), pivot);
  }
}
