/** What `handle_ray` computes, stated without the fold: the colour of the nearest
    object the ray hits, ties going to the object examined first (the plane, then the
    spheres in insertion order), or nothing when the ray hits no object. */
module NearestHit {
  import opened Wrappers
  import opened Maths
  import opened Vectors
  import opened Colors
  import opened Objects
  import opened Scenes

  /** Objects in the order `handle_ray` tests them: the plane, then every sphere. */
  function ObjectCount(s: Scene): nat {
    |s.spheres| + 1
  }

  function ObjectAt(s: Scene, j: nat): Shape
    requires j < ObjectCount(s)
  {
    if j == 0 then PlaneShape(s.plane) else SphereShape(s.spheres[j - 1])
  }

  predicate Hit(s: Scene, m: Libm, ray: Ray, j: nat)
    requires j < ObjectCount(s)
  {
    Intersect(m, ObjectAt(s, j), ray).Some?
  }

  function Dist(s: Scene, m: Libm, ray: Ray, j: nat): real
    requires j < ObjectCount(s) && Hit(s, m, ray, j)
  {
    Intersect(m, ObjectAt(s, j), ray).value
  }

  /** None of the first `n` objects is hit. */
  predicate NoHit(s: Scene, m: Libm, ray: Ray, n: nat)
    requires n <= ObjectCount(s)
  {
    forall j :: 0 <= j < n ==> !Hit(s, m, ray, j)
  }

  /** Among the first `n` objects, `w` is hit, every earlier object is missed or hit
      strictly farther away, and every later one is missed or hit no nearer. */
  predicate IsNearest(s: Scene, m: Libm, ray: Ray, n: nat, w: nat)
    requires n <= ObjectCount(s)
  {
    && w < n
    && Hit(s, m, ray, w)
    && (forall j :: 0 <= j < w && Hit(s, m, ray, j) ==> Dist(s, m, ray, w) < Dist(s, m, ray, j))
    && (forall j :: w < j < n && Hit(s, m, ray, j) ==> Dist(s, m, ray, w) <= Dist(s, m, ray, j))
  }

  /** The shaded colour of object `w` at its hit distance. */
  function ShadeOf(s: Scene, m: Libm, ray: Ray, acc: real, fuel: nat, w: nat): Color
    requires w < ObjectCount(s) && Hit(s, m, ray, w)
  {
    Shade(s, m, ObjectAt(s, w), ray, Dist(s, m, ray, w), acc, fuel)
  }

  /** The state of `handle_ray` after the first `n` objects: nothing and an unbounded
      `closest` if none was hit, else the nearest one's colour and distance. */
  ghost predicate FoldInv(s: Scene, m: Libm, ray: Ray, acc: real, fuel: nat, n: nat, color: Option<Color>, closest: Bound)
    requires n <= ObjectCount(s)
  {
    && (NoHit(s, m, ray, n) ==> color.None? && closest.Unbounded?)
    && (!NoHit(s, m, ray, n) ==>
          exists w :: IsNearest(s, m, ray, n, w)
                      && color == Some(ShadeOf(s, m, ray, acc, fuel, w))
                      && closest == Finite(Dist(s, m, ray, w)))
  }

  /** The first `n` objects have at most one nearest. */
  lemma NearestUnique(s: Scene, m: Libm, ray: Ray, n: nat, w1: nat, w2: nat)
    requires n <= ObjectCount(s)
    requires IsNearest(s, m, ray, n, w1) && IsNearest(s, m, ray, n, w2)
    ensures w1 == w2
  {
    assert !(w1 < w2) && !(w2 < w1);
  }

  /** A missed object changes neither whether anything was hit nor which object is nearest. */
  lemma MissExtends(s: Scene, m: Libm, ray: Ray, n: nat)
    requires n < ObjectCount(s) && !Hit(s, m, ray, n)
    ensures NoHit(s, m, ray, n + 1) <==> NoHit(s, m, ray, n)
    ensures forall w :: IsNearest(s, m, ray, n, w) ==> IsNearest(s, m, ray, n + 1, w)
  {
  }

  /** An object the ray misses changes neither the colour nor `closest`. */
  lemma FoldStepMiss(s: Scene, m: Libm, ray: Ray, acc: real, fuel: nat, n: nat, color: Option<Color>, closest: Bound)
    requires n < ObjectCount(s) && !Hit(s, m, ray, n)
    requires FoldInv(s, m, ray, acc, fuel, n, color, closest)
    ensures FoldInv(s, m, ray, acc, fuel, n + 1, color, closest)
  {
    MissExtends(s, m, ray, n);
    if !NoHit(s, m, ray, n) {
      var w :| IsNearest(s, m, ray, n, w)
               && color == Some(ShadeOf(s, m, ray, acc, fuel, w))
               && closest == Finite(Dist(s, m, ray, w));
      assert IsNearest(s, m, ray, n + 1, w);
    }
  }

  /** The first object hit becomes the nearest. */
  lemma FoldStepFirst(s: Scene, m: Libm, ray: Ray, acc: real, fuel: nat, n: nat)
    requires n < ObjectCount(s) && Hit(s, m, ray, n) && NoHit(s, m, ray, n)
    ensures FoldInv(s, m, ray, acc, fuel, n + 1, Some(ShadeOf(s, m, ray, acc, fuel, n)), Finite(Dist(s, m, ray, n)))
  {
    assert IsNearest(s, m, ray, n + 1, n);
  }

  /** A hit strictly nearer than the nearest so far replaces it. */
  lemma FoldStepCloser(s: Scene, m: Libm, ray: Ray, n: nat, w: nat)
    requires n < ObjectCount(s) && Hit(s, m, ray, n)
    requires IsNearest(s, m, ray, n, w) && Dist(s, m, ray, n) < Dist(s, m, ray, w)
    ensures !NoHit(s, m, ray, n + 1)
    ensures IsNearest(s, m, ray, n + 1, n)
  {
  }

  /** A hit no nearer than the nearest so far leaves it in place. */
  lemma FoldStepFarther(s: Scene, m: Libm, ray: Ray, n: nat, w: nat)
    requires n < ObjectCount(s) && Hit(s, m, ray, n)
    requires IsNearest(s, m, ray, n, w) && Dist(s, m, ray, w) <= Dist(s, m, ray, n)
    ensures !NoHit(s, m, ray, n + 1)
    ensures IsNearest(s, m, ray, n + 1, w)
  {
  }

  /** One `handle_object` call keeps the fold state faithful to its definition. */
  lemma FoldStep(s: Scene, m: Libm, ray: Ray, acc: real, fuel: nat, n: nat, color: Option<Color>, closest: Bound)
    requires n < ObjectCount(s)
    requires FoldInv(s, m, ray, acc, fuel, n, color, closest)
    ensures var (co, cl) := HandleObject(s, m, ObjectAt(s, n), closest, ray, acc, fuel);
            FoldInv(s, m, ray, acc, fuel, n + 1, co.Or(color), cl)
  {
    var (co, cl) := HandleObject(s, m, ObjectAt(s, n), closest, ray, acc, fuel);
    if !Hit(s, m, ray, n) {
      FoldStepMiss(s, m, ray, acc, fuel, n, color, closest);
    } else if NoHit(s, m, ray, n) {
      FoldStepFirst(s, m, ray, acc, fuel, n);
    } else {
      var w :| IsNearest(s, m, ray, n, w)
               && color == Some(ShadeOf(s, m, ray, acc, fuel, w))
               && closest == Finite(Dist(s, m, ray, w));
      if Dist(s, m, ray, n) < Dist(s, m, ray, w) {
        FoldStepCloser(s, m, ray, n, w);
        assert co.Or(color) == Some(ShadeOf(s, m, ray, acc, fuel, n));
      } else {
        FoldStepFarther(s, m, ray, n, w);
        assert co.None? && cl == closest;
      }
    }
  }

  /** `closest` after a step is at most `closest` before it. */
  predicate NoFarther(after: Bound, before: Bound) {
    before.Unbounded? || (after.Finite? && after.value <= before.value)
  }

  /** `closest` never increases: `handle_object` either keeps it or lowers it to the new hit. */
  lemma ClosestNeverIncreases(s: Scene, m: Libm, obj: Shape, closest: Bound, ray: Ray, acc: real, fuel: nat)
    ensures NoFarther(HandleObject(s, m, obj, closest, ray, acc, fuel).1, closest)
  {
  }

  /** What the fold returns, given a faithful state before sphere `i`. */
  ghost predicate Answers(s: Scene, m: Libm, ray: Ray, acc: real, fuel: nat, r: Option<Color>) {
    && (r.None? <==> NoHit(s, m, ray, ObjectCount(s)))
    && (r.Some? ==> exists w :: IsNearest(s, m, ray, ObjectCount(s), w) && r.value == ShadeOf(s, m, ray, acc, fuel, w))
  }

  /** After the last object a faithful state is the answer. */
  lemma FoldDone(s: Scene, m: Libm, ray: Ray, acc: real, fuel: nat, color: Option<Color>, closest: Bound)
    requires FoldInv(s, m, ray, acc, fuel, ObjectCount(s), color, closest)
    ensures Answers(s, m, ray, acc, fuel, color)
  {
    if !NoHit(s, m, ray, ObjectCount(s)) {
      var w :| IsNearest(s, m, ray, ObjectCount(s), w)
               && color == Some(ShadeOf(s, m, ray, acc, fuel, w))
               && closest == Finite(Dist(s, m, ray, w));
      assert color.value == ShadeOf(s, m, ray, acc, fuel, w);
    }
  }

  lemma {:induction false} FoldSpheresNearest(s: Scene, m: Libm, i: nat, color: Option<Color>, closest: Bound,
                                               ray: Ray, acc: real, fuel: nat)
    requires i <= |s.spheres|
    requires FoldInv(s, m, ray, acc, fuel, i + 1, color, closest)
    ensures Answers(s, m, ray, acc, fuel, FoldSpheres(s, m, i, color, closest, ray, acc, fuel))
    decreases |s.spheres| - i
  {
    if i == |s.spheres| {
      FoldDone(s, m, ray, acc, fuel, color, closest);
    } else {
      var (co, cl) := HandleObject(s, m, SphereShape(s.spheres[i]), closest, ray, acc, fuel);
      assert ObjectAt(s, i + 1) == SphereShape(s.spheres[i]);
      FoldStep(s, m, ray, acc, fuel, i + 1, color, closest);
      FoldSpheresNearest(s, m, i + 1, co.Or(color), cl, ray, acc, fuel);
      assert FoldSpheres(s, m, i, color, closest, ray, acc, fuel) == FoldSpheres(s, m, i + 1, co.Or(color), cl, ray, acc, fuel);
    }
  }

  /** Above the energy cutoff, `handle_ray` returns nothing exactly when the ray hits no
      object, and otherwise the shade of the nearest object (the first on ties). */
  lemma HandleRayNearest(s: Scene, m: Libm, ray: Ray, acc: real, fuel: nat)
    requires EnergyCutoff <= acc
    ensures HandleRay(s, m, Some(ray), acc, fuel).None? <==> NoHit(s, m, ray, ObjectCount(s))
    ensures !NoHit(s, m, ray, ObjectCount(s)) ==> exists w :: IsNearest(s, m, ray, ObjectCount(s), w)
    ensures forall w :: IsNearest(s, m, ray, ObjectCount(s), w) ==>
              HandleRay(s, m, Some(ray), acc, fuel) == Some(ShadeOf(s, m, ray, acc, fuel, w))
  {
    assert FoldInv(s, m, ray, acc, fuel, 0, None, Unbounded);
    FoldStep(s, m, ray, acc, fuel, 0, None, Unbounded);
    var (color, closest) := HandleObject(s, m, PlaneShape(s.plane), Unbounded, ray, acc, fuel);
    assert color.Or(None) == color;
    FoldSpheresNearest(s, m, 0, color, closest, ray, acc, fuel);
    var r := HandleRay(s, m, Some(ray), acc, fuel);
    forall w | IsNearest(s, m, ray, ObjectCount(s), w)
      ensures r == Some(ShadeOf(s, m, ray, acc, fuel, w))
    {
      var w' :| IsNearest(s, m, ray, ObjectCount(s), w') && r.value == ShadeOf(s, m, ray, acc, fuel, w');
      NearestUnique(s, m, ray, ObjectCount(s), w, w');
    }
  }

  /** A ray that hits no object yields no colour, at any energy. */
  lemma HandleRayMissesEverything(s: Scene, m: Libm, ray: Ray, acc: real, fuel: nat)
    requires NoHit(s, m, ray, ObjectCount(s))
    ensures HandleRay(s, m, Some(ray), acc, fuel).None?
  {
    if EnergyCutoff <= acc {
      HandleRayNearest(s, m, ray, acc, fuel);
    }
  }

  /** Above the cutoff, a ray yields the shade of a nearest object it hits. */
  lemma HandleRayAtNearest(s: Scene, m: Libm, ray: Ray, acc: real, fuel: nat, w: nat)
    requires EnergyCutoff <= acc && IsNearest(s, m, ray, ObjectCount(s), w)
    ensures HandleRay(s, m, Some(ray), acc, fuel) == Some(ShadeOf(s, m, ray, acc, fuel, w))
  {
    HandleRayNearest(s, m, ray, acc, fuel);
  }

  /** A followed reflected ray that hits no object leaves the direct colour. */
  lemma ReflectionMissLeavesDirectColor(s: Scene, m: Libm, obj: Shape, ray: Ray, dist: real, acc: real, fuel: nat)
    requires 0 < fuel && NoHit(s, m, ReflectedRay(m, obj, ray, dist), ObjectCount(s))
    ensures Shade(s, m, obj, ray, dist, acc, fuel) == DirectColor(s, m, obj, ray, dist)
  {
    HandleRayMissesEverything(s, m, ReflectedRay(m, obj, ray, dist), acc * MaterialOf(obj).reflectivity, fuel - 1);
    ShadeWhenReflectionYieldsNothing(s, m, obj, ray, dist, acc, fuel);
  }

  /** A pixel whose primary ray hits no object shows the sky; otherwise it shows the
      nearest object's shade. */
  lemma RenderPixelNearest(s: Scene, m: Libm, fuel: nat, x: nat, y: nat)
    requires 0 < s.width && 0 < s.height
    ensures var ray := CreatePrime(s, m, x, y);
            NoHit(s, m, ray, ObjectCount(s)) ==> RenderPixel(s, m, fuel, x, y) == Sky
    ensures var ray := CreatePrime(s, m, x, y);
            forall w :: IsNearest(s, m, ray, ObjectCount(s), w) ==>
              RenderPixel(s, m, fuel, x, y) == ShadeOf(s, m, ray, 1.0, fuel, w)
  {
    HandleRayNearest(s, m, CreatePrime(s, m, x, y), 1.0, fuel);
  }

  /** With no spheres, a pixel whose primary ray does not point into the plane's front
      face (normal . direction >= 0) shows exactly the sky colour. */
  lemma SkyWhenNothingAhead(s: Scene, m: Libm, fuel: nat, x: nat, y: nat)
    requires 0 < s.width && 0 < s.height && s.spheres == []
    requires 0.0 <= Dot(s.plane.normal, CreatePrime(s, m, x, y).direction)
    ensures RenderPixel(s, m, fuel, x, y) == Sky
  {
    var ray := CreatePrime(s, m, x, y);
    assert !Hit(s, m, ray, 0);
    assert NoHit(s, m, ray, ObjectCount(s));
    RenderPixelNearest(s, m, fuel, x, y);
  }
}
