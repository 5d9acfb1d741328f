/** The primitives of src/lib/object.rs. The `Object` trait over `Sphere` and
    `Plane` becomes the closed sum `Shape`, dispatching `intersect`, `normal`
    and `material` by case. */
module Objects {
  import opened Wrappers
  import opened Maths
  import opened Vectors
  import opened Colors

  datatype Material = Material(color: Color, albedo: real, reflectivity: real)

  datatype Sphere = Sphere(center: Vector3, radius: real, material: Material)

  datatype Plane = Plane(origin: Vector3, normal: Vector3, material: Material)

  datatype Shape = SphereShape(sphere: Sphere) | PlaneShape(plane: Plane)

  /** The point `direction * t + origin` of a ray. */
  function PointAt(ray: Ray, t: real): Vector3 {
    Add(Scale(ray.direction, t), ray.origin)
  }

  /** The point at parameter `t` of the ray lies on the sphere's surface. */
  ghost predicate OnSphere(sp: Sphere, ray: Ray, t: real) {
    var p := Sub(PointAt(ray, t), sp.center);
    Dot(p, p) == sp.radius * sp.radius
  }

  /** `d` in `Sphere::intersect`: the projection of L = centre - origin onto the direction. */
  function Projection(sp: Sphere, ray: Ray): real {
    Dot(Sub(sp.center, ray.origin), ray.direction)
  }

  /** `h2` in `Sphere::intersect`: the squared distance from the centre to the ray's line, |L|^2 - d^2. */
  function PerpendicularSquared(sp: Sphere, ray: Ray): real {
    var l := Sub(sp.center, ray.origin);
    Dot(l, l) - Projection(sp, ray) * Projection(sp, ray)
  }

  /** `Sphere::intersect`: the near root of the ray-sphere equation, when it lies in front of the origin. */
  function SphereIntersect(m: Libm, sp: Sphere, ray: Ray): (r: Option<real>)
    ensures sp.radius * sp.radius < PerpendicularSquared(sp, ray) ==> r.None?
    ensures r.Some? ==> 0.0 < r.value
    ensures IsSqrt(m.sqrt) && Projection(sp, ray) <= 0.0 ==> r.None?
    ensures r.Some? ==> var s2 := sp.radius * sp.radius - PerpendicularSquared(sp, ray);
                        0.0 <= s2 && r.value == Projection(sp, ray) - m.sqrt(s2)
  {
    var d := Projection(sp, ray);
    var h2 := PerpendicularSquared(sp, ray);
    var s2 := sp.radius * sp.radius - h2;
    if s2 < 0.0 then None
    else
      var s := m.sqrt(s2);
      var t0 := d - s;
      if t0 > 0.0 then Some(t0) else None
  }

  /** Along a unit direction the squared distance to the centre is t^2 - 2t(L.D) + L.L. */
  lemma SquaredDistanceAlongRay(sp: Sphere, ray: Ray, t: real)
    requires Dot(ray.direction, ray.direction) == 1.0
    ensures var l := Sub(sp.center, ray.origin);
            var p := Sub(PointAt(ray, t), sp.center);
            Dot(p, p) == t * t - 2.0 * t * Dot(l, ray.direction) + Dot(l, l)
  {
    var l := Sub(sp.center, ray.origin);
    var a := Scale(ray.direction, t);
    var p := Sub(PointAt(ray, t), sp.center);
    assert p == Sub(a, l);
    DotSubSelf(a, l);
    DotScaleSelf(ray.direction, t);
    DotScaleLeft(ray.direction, l, t);
    DotSymmetric(ray.direction, l);
    ExpandAlongRay(Dot(p, p), Dot(a, a), Dot(a, l), Dot(l, l), Dot(l, ray.direction), t);
  }

  /** The scalar step of `SquaredDistanceAlongRay`, with each dot product named. */
  lemma ExpandAlongRay(pp: real, aa: real, al: real, ll: real, ld: real, t: real)
    requires pp == aa - 2.0 * al + ll && aa == t * t * 1.0 && al == t * ld
    ensures pp == t * t - 2.0 * t * ld + ll
  {
  }

  /** On a unit direction, being on the sphere means (t - L.D)^2 equals `s2` in `Sphere::intersect`. */
  lemma OnSphereIff(sp: Sphere, ray: Ray, t: real)
    requires Dot(ray.direction, ray.direction) == 1.0
    ensures var d := Projection(sp, ray);
            OnSphere(sp, ray, t) <==> (t - d) * (t - d) == sp.radius * sp.radius - PerpendicularSquared(sp, ray)
  {
    SquaredDistanceAlongRay(sp, ray, t);
    var d := Projection(sp, ray);
    var l := Sub(sp.center, ray.origin);
    assert (t - d) * (t - d) == t * t - 2.0 * t * d + d * d;
  }

  /** A hit lies on the sphere's surface. */
  lemma SphereHitOnSurface(m: Libm, sp: Sphere, ray: Ray)
    requires IsSqrt(m.sqrt) && Dot(ray.direction, ray.direction) == 1.0
    requires SphereIntersect(m, sp, ray).Some?
    ensures OnSphere(sp, ray, SphereIntersect(m, sp, ray).value)
  {
    var d := Projection(sp, ray);
    var s2 := sp.radius * sp.radius - PerpendicularSquared(sp, ray);
    var s := m.sqrt(s2);
    var t0 := SphereIntersect(m, sp, ray).value;
    SqrtFacts(m.sqrt, s2);
    assert (t0 - d) * (t0 - d) == s * s;
    OnSphereIff(sp, ray, t0);
  }

  /** A hit is the nearest surface point along the ray: the far root is never returned. */
  lemma SphereHitIsNearRoot(m: Libm, sp: Sphere, ray: Ray, t: real)
    requires IsSqrt(m.sqrt) && Dot(ray.direction, ray.direction) == 1.0
    requires SphereIntersect(m, sp, ray).Some?
    requires OnSphere(sp, ray, t)
    ensures SphereIntersect(m, sp, ray).value <= t
  {
    var d := Projection(sp, ray);
    var s2 := sp.radius * sp.radius - PerpendicularSquared(sp, ray);
    var s := m.sqrt(s2);
    SqrtFacts(m.sqrt, s2);
    OnSphereIff(sp, ray, t);
    SquareRootUnique(s, t - d);
  }

  /** The arithmetic behind a hit from outside: both roots d -+ s have the sign of their product. */
  lemma NearRootAhead(t: real, d: real, s: real)
    requires 0.0 <= s && 0.0 < t && s == Abs(t - d)
    requires 0.0 < d * d - s * s
    ensures 0.0 < d - s <= t
  {
    var t0 := d - s;
    assert t0 * (d + s) == d * d - s * s;
    if 0.0 <= t - d {
      ProductPositive(t0, d + s);
    }
  }

  /** The scalar core of a hit from outside: with s = sqrt(s2) and a root t > 0 of
      (t - d)^2 = s2 = r2 - (|L|^2 - d^2), where r2 < |L|^2, the near root d - s is positive and no later than t. */
  lemma OutsideNearRoot(t: real, d: real, s: real, s2: real, ll: real, r2: real)
    requires 0.0 < t && (t - d) * (t - d) == s2
    requires 0.0 <= s && s * s == s2
    requires s2 == r2 - (ll - d * d) && r2 < ll
    ensures 0.0 < d - s <= t
  {
    SquareRootUnique(s, t - d);
    assert d * d - s * s == ll - r2;
    NearRootAhead(t, d, s);
  }

  /** From outside the sphere, a surface point ahead of the origin guarantees a hit, no farther than it. */
  lemma SphereHitFromOutside(m: Libm, sp: Sphere, ray: Ray, t: real)
    requires IsSqrt(m.sqrt) && Dot(ray.direction, ray.direction) == 1.0
    requires var l := Sub(sp.center, ray.origin); sp.radius * sp.radius < Dot(l, l)
    requires 0.0 < t && OnSphere(sp, ray, t)
    ensures SphereIntersect(m, sp, ray).Some?
    ensures SphereIntersect(m, sp, ray).value <= t
  {
    var l := Sub(sp.center, ray.origin);
    var d := Projection(sp, ray);
    var s2 := sp.radius * sp.radius - PerpendicularSquared(sp, ray);
    OnSphereIff(sp, ray, t);
    SquareNonNegative(t - d);
    SqrtFacts(m.sqrt, s2);
    OutsideNearRoot(t, d, m.sqrt(s2), s2, Dot(l, l), sp.radius * sp.radius);
  }

  /** `Sphere::normal`: the normalised vector from the centre to the hit point. */
  function SphereNormal(m: Libm, sp: Sphere, hitPoint: Vector3): Vector3 {
    Normalize(m, Sub(hitPoint, sp.center))
  }

  /** A hit point is |radius| away from the centre. */
  lemma HitOffsetNorm(m: Libm, sp: Sphere, ray: Ray)
    requires IsSqrt(m.sqrt) && Dot(ray.direction, ray.direction) == 1.0
    requires SphereIntersect(m, sp, ray).Some?
    ensures Norm(m, Sub(PointAt(ray, SphereIntersect(m, sp, ray).value), sp.center)) == Abs(sp.radius)
  {
    SphereHitOnSurface(m, sp, ray);
    NormOfRadius(m, Sub(PointAt(ray, SphereIntersect(m, sp, ray).value), sp.center), sp.radius);
  }

  lemma NormOfRadius(m: Libm, p: Vector3, radius: real)
    requires IsSqrt(m.sqrt) && Dot(p, p) == radius * radius
    ensures Norm(m, p) == Abs(radius)
  {
    SqrtOfSquare(m.sqrt, radius);
  }

  /** At a hit on a sphere of usable radius the normal is the outward unit normal. */
  lemma SphereNormalAtHit(m: Libm, sp: Sphere, ray: Ray)
    requires IsSqrt(m.sqrt) && Dot(ray.direction, ray.direction) == 1.0
    requires SphereIntersect(m, sp, ray).Some?
    requires NormEpsilon <= Abs(sp.radius)
    ensures var hit := PointAt(ray, SphereIntersect(m, sp, ray).value);
            var n := SphereNormal(m, sp, hit);
            Dot(n, n) == 1.0 && Dot(n, Sub(hit, sp.center)) == Abs(sp.radius)
  {
    HitOffsetNorm(m, sp, ray);
  }

  /** `Plane::intersect`: a hit only for rays approaching the front face from in front of it. */
  function PlaneIntersect(p: Plane, ray: Ray): (r: Option<real>)
    ensures 0.0 <= Dot(p.normal, ray.direction) ==> r.None?
    ensures r.Some? <==> Dot(p.normal, ray.direction) < 0.0 && Dot(Sub(p.origin, ray.origin), p.normal) <= 0.0
    ensures r.Some? ==> 0.0 <= r.value && Dot(Sub(PointAt(ray, r.value), p.origin), p.normal) == 0.0
  {
    var proj := Dot(p.normal, ray.direction);
    if proj < 0.0 then
      var x := Dot(Sub(p.origin, ray.origin), p.normal);
      var d := x / proj;
      QuotientByNegative(x, proj);
      if d >= 0.0 then
        PlaneHitOnPlane(p, ray, d);
        Some(d)
      else None
    else None
  }

  lemma QuotientByNegative(x: real, proj: real)
    requires proj < 0.0
    ensures 0.0 <= x / proj <==> x <= 0.0
    ensures (x / proj) * proj == x
  {
    var q := x / proj;
    if 0.0 <= q {
      MulLeft(q, proj, 0.0);
    }
    if q < 0.0 {
      MulLeftStrict(-q, proj, 0.0);
    }
  }

  lemma PlaneHitOnPlane(p: Plane, ray: Ray, d: real)
    requires Dot(p.normal, ray.direction) * d == Dot(Sub(p.origin, ray.origin), p.normal)
    ensures Dot(Sub(PointAt(ray, d), p.origin), p.normal) == 0.0
  {
    var a := Scale(ray.direction, d);
    assert Sub(PointAt(ray, d), p.origin) == Add(a, Sub(ray.origin, p.origin));
    DotAddLeft(a, Sub(ray.origin, p.origin), p.normal);
    DotScaleLeft(ray.direction, p.normal, d);
    DotSymmetric(ray.direction, p.normal);
    DotSubLeft(ray.origin, p.origin, p.normal);
    DotSubLeft(p.origin, ray.origin, p.normal);
  }

  /** `Object::intersect`. */
  function Intersect(m: Libm, obj: Shape, ray: Ray): Option<real> {
    match obj
    case SphereShape(sp) => SphereIntersect(m, sp, ray)
    case PlaneShape(p) => PlaneIntersect(p, ray)
  }

  /** `Object::normal`. */
  function Normal(m: Libm, obj: Shape, hitPoint: Vector3): Vector3 {
    match obj
    case SphereShape(sp) => SphereNormal(m, sp, hitPoint)
    case PlaneShape(p) => p.normal
  }

  /** `Object::material`. */
  function MaterialOf(obj: Shape): Material {
    match obj
    case SphereShape(sp) => sp.material
    case PlaneShape(p) => p.material
  }

  /** A sphere's normal is the normalised offset of the hit point from its centre; its material is the stored one. */
  lemma SphereNormalAndMaterial(m: Libm, sp: Sphere, hitPoint: Vector3)
    ensures Normal(m, SphereShape(sp), hitPoint) == Normalize(m, Sub(hitPoint, sp.center))
    ensures MaterialOf(SphereShape(sp)) == sp.material
  {
  }

  /** A plane's normal is its stored normal whatever the hit point; its material is the stored one. */
  lemma PlaneNormalAndMaterial(m: Libm, p: Plane, hit1: Vector3, hit2: Vector3)
    ensures Normal(m, PlaneShape(p), hit1) == Normal(m, PlaneShape(p), hit2) == p.normal
    ensures MaterialOf(PlaneShape(p)) == p.material
  {
  }

  /** `intersect` assumes a unit direction, which reflected rays need not have. Along the
      ray of `Vectors.ReflectedRayNotUnit`, given sqrt(9) = 3, the sphere of radius 1 at
      (2, 0, 0), of any material, is reported hit at distance 1 ... */
  lemma ReflectedRayFalseHit(m: Libm, sp: Sphere, ray: Ray)
    requires m.sqrt(9.0) == 3.0
    requires sp.center == Vector3(2.0, 0.0, 0.0) && sp.radius == 1.0
    requires ray == Ray(Vector3(0.0, 0.0, -2.0), Vector3(0.0, 0.0, 2.0))
    ensures SphereIntersect(m, sp, ray) == Some(1.0)
  {
    assert Sub(sp.center, ray.origin) == Vector3(2.0, 0.0, 2.0);
    assert Projection(sp, ray) == 4.0;
    assert PerpendicularSquared(sp, ray) == -8.0;
  }

  /** ... although no point of the ray lies on that sphere: every point is at squared
      distance at least 4 from its centre. */
  lemma ReflectedRayMissesSphere(sp: Sphere, ray: Ray, t: real)
    requires sp.center == Vector3(2.0, 0.0, 0.0) && sp.radius == 1.0
    requires ray == Ray(Vector3(0.0, 0.0, -2.0), Vector3(0.0, 0.0, 2.0))
    ensures !OnSphere(sp, ray, t)
  {
    var p := Sub(PointAt(ray, t), sp.center);
    assert p == Vector3(-2.0, 0.0, 2.0 * t - 2.0);
    SquareNonNegative(2.0 * t - 2.0);
    assert Dot(p, p) == 4.0 + (2.0 * t - 2.0) * (2.0 * t - 2.0);
  }
}
