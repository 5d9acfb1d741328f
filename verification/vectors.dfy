/** `Vector3` and `Ray` of src/lib/utils.rs: linear algebra over the reals. */
module Vectors {
  import opened Maths

  datatype Vector3 = Vector3(x: real, y: real, z: real)

  datatype Ray = Ray(origin: Vector3, direction: Vector3)

  function Zero(): Vector3 {
    Vector3(0.0, 0.0, 0.0)
  }

  function Add(a: Vector3, b: Vector3): Vector3 {
    Vector3(a.x + b.x, a.y + b.y, a.z + b.z)
  }

  function Sub(a: Vector3, b: Vector3): Vector3 {
    Vector3(a.x - b.x, a.y - b.y, a.z - b.z)
  }

  /** The dot product, written `^` (`BitXor`) in utils.rs. */
  function Dot(a: Vector3, b: Vector3): real {
    a.x * b.x + a.y * b.y + a.z * b.z
  }

  /** `Vector3 * f64`. */
  function Scale(v: Vector3, k: real): Vector3 {
    Vector3(v.x * k, v.y * k, v.z * k)
  }

  function Norm(m: Libm, v: Vector3): real {
    m.sqrt(Dot(v, v))
  }

  /** Below this norm `normalize` gives up and returns the zero vector. */
  const NormEpsilon: real := 0.0000000000001

  predicate Degenerate(m: Libm, v: Vector3) {
    Abs(Norm(m, v)) < NormEpsilon
  }

  /** The unit vector along `v`, or the zero vector when `v` is too short to divide by. */
  function Normalize(m: Libm, v: Vector3): (r: Vector3)
    ensures Degenerate(m, v) ==> r == Zero()
    ensures IsSqrt(m.sqrt) && !Degenerate(m, v) ==>
              Dot(r, r) == 1.0 && Dot(r, v) == Norm(m, v) && 0.0 < Norm(m, v)
  {
    if Degenerate(m, v) then Zero()
    else
      var k := 1.0 / Norm(m, v);
      NormalizeUnit(m, v, k);
      Scale(v, k)
  }

  lemma NormalizeUnit(m: Libm, v: Vector3, k: real)
    requires !Degenerate(m, v) && k == 1.0 / Norm(m, v)
    ensures IsSqrt(m.sqrt) ==>
              Dot(Scale(v, k), Scale(v, k)) == 1.0 && Dot(Scale(v, k), v) == Norm(m, v) && 0.0 < Norm(m, v)
  {
    if IsSqrt(m.sqrt) {
      var n := Norm(m, v);
      var d := Dot(v, v);
      assert 0.0 <= d;
      assert n * n == d && 0.0 < n;
      calc {
        Dot(Scale(v, k), v);
      == { DotScaleLeft(v, v, k); }
        k * d;
      == 
        (n * n) / n;
      ==
        n;
      }
      calc {
        Dot(Scale(v, k), Scale(v, k));
      == { DotScaleLeft(v, Scale(v, k), k); }
        k * Dot(v, Scale(v, k));
      == { DotSymmetric(v, Scale(v, k)); }
        k * Dot(Scale(v, k), v);
      ==
        k * n;
      ==
        1.0;
      }
    }
  }

  lemma DotSymmetric(a: Vector3, b: Vector3)
    ensures Dot(a, b) == Dot(b, a)
  {
  }

  lemma DotScaleLeft(a: Vector3, b: Vector3, k: real)
    ensures Dot(Scale(a, k), b) == k * Dot(a, b)
  {
    calc {
      Dot(Scale(a, k), b);
      (a.x * k) * b.x + (a.y * k) * b.y + (a.z * k) * b.z;
      k * (a.x * b.x) + k * (a.y * b.y) + k * (a.z * b.z);
      k * Dot(a, b);
    }
  }

  lemma DotSubLeft(a: Vector3, b: Vector3, c: Vector3)
    ensures Dot(Sub(a, b), c) == Dot(a, c) - Dot(b, c)
  {
  }

  lemma DotAddLeft(a: Vector3, b: Vector3, c: Vector3)
    ensures Dot(Add(a, b), c) == Dot(a, c) + Dot(b, c)
  {
  }

  /** |a - l|^2 = |a|^2 - 2 a.l + |l|^2. */
  lemma DotSubSelf(a: Vector3, l: Vector3)
    ensures Dot(Sub(a, l), Sub(a, l)) == Dot(a, a) - 2.0 * Dot(a, l) + Dot(l, l)
  {
  }

  /** |t v|^2 = t^2 |v|^2. */
  lemma DotScaleSelf(v: Vector3, t: real)
    ensures Dot(Scale(v, t), Scale(v, t)) == t * t * Dot(v, v)
  {
  }

  /** The squared length of a vector is never negative. */
  lemma DotSelfNonNegative(v: Vector3)
    ensures 0.0 <= Dot(v, v)
  {
  }

  /** Translating by `p` and back is the identity, in either order. */
  lemma AddSubInverse(a: Vector3, p: Vector3)
    ensures Add(Sub(a, p), p) == a
    ensures Sub(Add(a, p), p) == a
  {
  }

  /** Normalising twice is normalising once; the zero vector stays put. */
  lemma NormalizeIdempotent(m: Libm, v: Vector3)
    requires IsSqrt(m.sqrt)
    ensures Normalize(m, Normalize(m, v)) == Normalize(m, v)
  {
    var r := Normalize(m, v);
    if Degenerate(m, v) {
      SqrtZero(m.sqrt);
      assert Dot(r, r) == 0.0;
    } else {
      SqrtOne(m.sqrt);
      assert Norm(m, r) == 1.0;
      assert Normalize(m, r) == Scale(r, 1.0);
    }
  }

  /** A vector whose squared length is at least 1 is never degenerate, so it normalises to a unit vector. */
  lemma NormalizeLong(m: Libm, v: Vector3)
    requires IsSqrt(m.sqrt) && 1.0 <= Dot(v, v)
    ensures !Degenerate(m, v)
    ensures Dot(Normalize(m, v), Normalize(m, v)) == 1.0
  {
    SqrtAtLeastOne(m.sqrt, Dot(v, v));
  }

  function RotateZ(m: Libm, v: Vector3, angle: real): (r: Vector3)
    ensures r.z == v.z
    ensures IsSinCos(m.sinCos) ==> Dot(r, r) == Dot(v, v)
  {
    var (s, c) := m.sinCos(angle);
    RotationPreservesLength(v.x, v.y, s, c);
    Vector3(v.x * c - v.y * s, v.x * s + v.y * c, v.z)
  }

  function RotateY(m: Libm, v: Vector3, angle: real): (r: Vector3)
    ensures r.y == v.y
    ensures IsSinCos(m.sinCos) ==> Dot(r, r) == Dot(v, v)
  {
    var (s, c) := m.sinCos(angle);
    RotationPreservesLength(v.x, v.z, s, c);
    Vector3(v.x * c - v.z * s, v.y, v.x * s + v.z * c)
  }

  function RotateX(m: Libm, v: Vector3, angle: real): (r: Vector3)
    ensures r.x == v.x
    ensures IsSinCos(m.sinCos) ==> Dot(r, r) == Dot(v, v)
  {
    var (s, c) := m.sinCos(angle);
    RotationPreservesLength(v.y, v.z, s, c);
    Vector3(v.x, v.y * c - v.z * s, v.y * s + v.z * c)
  }

  /** A planar rotation by a point (s, c) of the unit circle keeps the squared length. */
  lemma RotationPreservesLength(a: real, b: real, s: real, c: real)
    ensures s * s + c * c == 1.0 ==>
              (a * c - b * s) * (a * c - b * s) + (a * s + b * c) * (a * s + b * c) == a * a + b * b
  {
    calc {
      (a * c - b * s) * (a * c - b * s) + (a * s + b * c) * (a * s + b * c);
      (a * a) * (c * c + s * s) + (b * b) * (s * s + c * c);
    }
  }

  /** Rotating by -angle undoes rotating by angle, given sin odd, cos even and sin^2 + cos^2 = 1. */
  lemma RotateYUndo(m: Libm, v: Vector3, angle: real)
    requires IsSinCos(m.sinCos)
    requires m.sinCos(-angle) == (-m.sinCos(angle).0, m.sinCos(angle).1)
    ensures RotateY(m, RotateY(m, v, angle), -angle) == v
  {
    var (s, c) := m.sinCos(angle);
    assert s * s + c * c == 1.0;
    var w := RotateY(m, v, angle);
    calc {
      w.x * c - w.z * (-s);
      (v.x * c - v.z * s) * c + (v.x * s + v.z * c) * s;
      v.x * (c * c + s * s);
      v.x;
    }
    calc {
      w.x * (-s) + w.z * c;
      -(v.x * c - v.z * s) * s + (v.x * s + v.z * c) * c;
      v.z * (s * s + c * c);
      v.z;
    }
  }

  /** The mirror image of `v` in the plane orthogonal to `n`, as `reflect` computes it. */
  function Mirror(v: Vector3, n: Vector3): Vector3 {
    Sub(v, Scale(n, Dot(v, Scale(n, 2.0))))
  }

  /** `Ray::reflect`: the ray leaving `hitPoint` in the mirror direction of the incoming one. */
  function Reflect(ray: Ray, hitPoint: Vector3, normal: Vector3): (r: Ray)
    ensures r.origin == hitPoint
    ensures Dot(normal, normal) == 1.0 ==>
              && Dot(r.direction, normal) == -Dot(Sub(hitPoint, ray.origin), normal)
              && Dot(r.direction, r.direction) == Dot(Sub(hitPoint, ray.origin), Sub(hitPoint, ray.origin))
  {
    var incident := Sub(hitPoint, ray.origin);
    MirrorFlipsNormalComponent(incident, normal);
    Ray(hitPoint, Mirror(incident, normal))
  }

  lemma MirrorFlipsNormalComponent(v: Vector3, n: Vector3)
    ensures Dot(n, n) == 1.0 ==>
              Dot(Mirror(v, n), n) == -Dot(v, n) && Dot(Mirror(v, n), Mirror(v, n)) == Dot(v, v)
  {
    if Dot(n, n) == 1.0 {
      var k := Dot(v, Scale(n, 2.0));
      assert k == 2.0 * Dot(v, n) by {
        DotSymmetric(v, Scale(n, 2.0));
        DotScaleLeft(n, v, 2.0);
        DotSymmetric(n, v);
      }
      var w := Mirror(v, n);
      calc {
        Dot(w, n);
      == { DotSubLeft(v, Scale(n, k), n); }
        Dot(v, n) - Dot(Scale(n, k), n);
      == { DotScaleLeft(n, n, k); }
        Dot(v, n) - k * 1.0;
      ==
        -Dot(v, n);
      }
      calc {
        Dot(w, w);
      == { DotSubLeft(v, Scale(n, k), w); }
        Dot(v, w) - Dot(Scale(n, k), w);
      == { DotScaleLeft(n, w, k); DotSymmetric(n, w); }
        Dot(v, w) - k * Dot(w, n);
      == { DotSymmetric(v, w); DotSubLeft(v, Scale(n, k), v); DotScaleLeft(n, v, k); DotSymmetric(n, v); }
        Dot(v, v) - k * Dot(v, n) - k * Dot(w, n);
      ==
        Dot(v, v) - k * Dot(v, n) + k * Dot(v, n);
      ==
        Dot(v, v);
      }
    }
  }

  /** Mirroring twice in the same unit normal gives back the original direction. */
  lemma MirrorInvolutive(v: Vector3, n: Vector3)
    requires Dot(n, n) == 1.0
    ensures Mirror(Mirror(v, n), n) == v
  {
    var w := Mirror(v, n);
    MirrorFlipsNormalComponent(v, n);
    var kv := Dot(v, Scale(n, 2.0));
    var kw := Dot(w, Scale(n, 2.0));
    assert kv == 2.0 * Dot(v, n) by {
      DotSymmetric(v, Scale(n, 2.0)); DotScaleLeft(n, v, 2.0); DotSymmetric(n, v);
    }
    assert kw == 2.0 * Dot(w, n) by {
      DotSymmetric(w, Scale(n, 2.0)); DotScaleLeft(n, w, 2.0); DotSymmetric(n, w);
    }
    assert kw == -kv;
  }

  /** `Ray::reflect` does not normalise: the reflected direction keeps the incident length.
      The unit ray from the origin along -z, reflected at (0, 0, -2) in the normal (0, 0, 1),
      leaves with direction (0, 0, 2), of length 2. */
  lemma ReflectedRayNotUnit()
    ensures Reflect(Ray(Vector3(0.0, 0.0, 0.0), Vector3(0.0, 0.0, -1.0)), Vector3(0.0, 0.0, -2.0), Vector3(0.0, 0.0, 1.0))
         == Ray(Vector3(0.0, 0.0, -2.0), Vector3(0.0, 0.0, 2.0))
  {
    assert Mirror(Vector3(0.0, 0.0, -2.0), Vector3(0.0, 0.0, 1.0)) == Vector3(0.0, 0.0, 2.0) by {
      assert Dot(Vector3(0.0, 0.0, -2.0), Scale(Vector3(0.0, 0.0, 1.0), 2.0)) == -4.0;
    }
  }
}
