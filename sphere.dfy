/**
 * Spheres and their intersection with a ray (raytracer/sphere.c).
 *
 * `intersect_sphere` solves `|e + t d - c|^2 = R^2` for the ray parameter `t`
 * with the half-coefficient form of the quadratic formula and always reports
 * the larger root.  `SphereHit` is that computation as a function and
 * `IntersectSphere` is the routine with its hit-location loop; the lemmas
 * relate the result to the geometry of the sphere.
 */
module Spheres {
  import opened VecUtil
  import opened Types

  datatype Sphere = Sphere(position: Vec3, radius: real, mat: Material)

  /** `init_sphere`: copies the centre and keeps the radius and material as given. */
  method InitSphere(position: array<real>, radius: real, mat: Material) returns (sphere: Sphere)
    requires position.Length >= 3
    ensures sphere.position == ToVec3(position[..])
    ensures sphere.radius == radius && sphere.mat == mat
  {
    var centre := new real[3];
    var _ := VecCpy(centre, position, 3);
    sphere := Sphere(ToVec3(centre[..]), radius, mat);
  }

  /** A point lies on the surface of the sphere. */
  predicate OnSphere(sphere: Sphere, p: Vec3) {
    var w := Sub(p, sphere.position);
    Dot(w, w) == sphere.radius * sphere.radius
  }

  /** `(d.(e-c))^2 - (d.d)((e-c).(e-c) - R^2)`, a quarter of the usual discriminant. */
  function Discriminant(sphere: Sphere, ray: Ray): real {
    var eMinC := Sub(ray.position, sphere.position);
    var dDotEf := Dot(ray.vector, eMinC);
    dDotEf * dDotEf - Dot(ray.vector, ray.vector) * (Dot(eMinC, eMinC) - sphere.radius * sphere.radius)
  }

  /** The larger root `(-d.(e-c) + sqrt(disc)) / (d.d)`. */
  function SphereT(sphere: Sphere, ray: Ray, sqrt: imap<real, real>): real
    requires Dot(ray.vector, ray.vector) != 0.0
  {
    (-Dot(ray.vector, Sub(ray.position, sphere.position)) + Root(sqrt, Discriminant(sphere, ray)))
      / Dot(ray.vector, ray.vector)
  }

  /**
   * What `intersect_sphere` returns: no hit when the discriminant is negative;
   * otherwise the larger root `t`, the point `e + t d`, the normalised
   * `loc - c` and the sphere's material.  A zero ray direction makes the C code
   * divide zero by zero; the model reports no hit for it.
   */
  function SphereHit(sphere: Sphere, ray: Ray, sqrt: imap<real, real>): Option<RayHit> {
    var dDotD := Dot(ray.vector, ray.vector);
    var disc := Discriminant(sphere, ray);
    if disc < 0.0 || dDotD == 0.0 then None
    else
      var t := SphereT(sphere, ray, sqrt);
      var loc := PointAt(ray, t);
      Some(RayHit(t, Normalize(Sub(loc, sphere.position), sqrt), sphere.mat, loc))
  }

  /** `intersect_sphere`: the discriminant test, the root, then the hit-location loop and the normal. */
  method IntersectSphere(sphere: Sphere, ray: Ray, sqrt: imap<real, real>) returns (hit: Option<RayHit>)
    ensures hit == SphereHit(sphere, ray, sqrt)
  {
    var dDotD := Dot(ray.vector, ray.vector);
    var disc := Discriminant(sphere, ray);
    if disc < 0.0 || dDotD == 0.0 {
      return None;
    }
    var t := SphereT(sphere, ray, sqrt);
    var loc := HitLocation(ray, t);
    var norm := Normalize(Sub(ToVec3(loc[..]), sphere.position), sqrt);
    hit := Some(RayHit(t, norm, sphere.mat, ToVec3(loc[..])));
  }

  // ---------------------------------------------------------------------------
  // Algebra of the quadratic

  /** `|u + t d|^2` expanded in powers of `t`. */
  lemma ExpandSquare(u: Vec3, d: Vec3, t: real, w: Vec3)
    requires w == Vec3(u.x + d.x * t, u.y + d.y * t, u.z + d.z * t)
    ensures Dot(w, w) == Dot(u, u) + 2.0 * Mul(t, Dot(d, u)) + Mul(Mul(t, t), Dot(d, d))
  {
    DotAsMul(w, w);
    DotAsMul(u, u);
    DotAsMul(d, d);
    DotAsMul(d, u);
    ComponentSquare(u.x, d.x, t);
    ComponentSquare(u.y, d.y, t);
    ComponentSquare(u.z, d.z, t);
    Distribute3(t, Mul(d.x, u.x), Mul(d.y, u.y), Mul(d.z, u.z));
    Distribute3(Mul(t, t), Mul(d.x, d.x), Mul(d.y, d.y), Mul(d.z, d.z));
    assert Mul(t, Dot(d, u)) == Mul(t, Mul(d.x, u.x)) + Mul(t, Mul(d.y, u.y)) + Mul(t, Mul(d.z, u.z));
    assert Mul(Mul(t, t), Dot(d, d)) ==
      Mul(Mul(t, t), Mul(d.x, d.x)) + Mul(Mul(t, t), Mul(d.y, d.y)) + Mul(Mul(t, t), Mul(d.z, d.z));
  }

  /** `(a + b t)^2` expanded in powers of `t`. */
  lemma ComponentSquare(a: real, b: real, t: real)
    ensures Mul(a + b * t, a + b * t) == Mul(a, a) + 2.0 * Mul(t, Mul(b, a)) + Mul(Mul(t, t), Mul(b, b))
  {
  }

  lemma Distribute3(k: real, a: real, b: real, c: real)
    ensures Mul(k, a + b + c) == Mul(k, a) + Mul(k, b) + Mul(k, c)
  {
  }

  /** The quadratic `a tau^2 + 2 b tau + cc` in the ray parameter `tau`. */
  function Quadratic(a: real, b: real, cc: real, tau: real): real {
    Mul(Mul(tau, tau), a) + 2.0 * Mul(tau, b) + cc
  }

  /** `t = (s - b) / a` with `s^2 = b^2 - a cc` solves `a t^2 + 2 b t + cc = 0`. */
  lemma RootSolves(a: real, b: real, cc: real, s: real, t: real)
    requires a != 0.0
    requires Mul(s, s) == Mul(b, b) - Mul(a, cc)
    requires t == (s - b) / a
    ensures Quadratic(a, b, cc, t) == 0.0
  {
    assert t * a == s - b;
    var x := t * t * a + 2.0 * t * b + cc;
    assert a * x == (t * a) * (t * a) + 2.0 * b * (t * a) + a * cc;
    assert a * x == (s - b) * (s - b) + 2.0 * b * (s - b) + a * cc;
    assert a * x == s * s - b * b + a * cc;
  }

  /** Any solution `tau` of `a tau^2 + 2 b tau + cc = 0` has `(a tau + b)^2 = b^2 - a cc`. */
  lemma SolutionSquare(a: real, b: real, cc: real, tau: real)
    requires Quadratic(a, b, cc, tau) == 0.0
    ensures Mul(a * tau + b, a * tau + b) == Mul(b, b) - Mul(a, cc)
  {
    assert (a * tau + b) * (a * tau + b) == a * (tau * tau * a + 2.0 * tau * b) + b * b;
  }

  /** Of two numbers with the same square, the second non-negative, the first is not larger. */
  lemma SquareBound(x: real, s: real)
    requires 0.0 <= s && Mul(x, x) == Mul(s, s)
    ensures x <= s
  {
    if x > s {
      MulPositive(x - s, x + s);
      assert false;
    }
  }

  /** Multiplying by a positive number keeps the order. */
  lemma ScaleMonotone(x: real, y: real, a: real)
    requires a > 0.0 && a * x <= a * y
    ensures x <= y
  {
    if x > y {
      MulPositive(a, x - y);
      assert false;
    }
  }

  /** With a negative discriminant the quadratic has no root. */
  lemma NoRootBelowZero(a: real, b: real, cc: real, tau: real)
    requires Mul(b, b) - Mul(a, cc) < 0.0
    ensures Quadratic(a, b, cc, tau) != 0.0
  {
    if Quadratic(a, b, cc, tau) == 0.0 {
      SolutionSquare(a, b, cc, tau);
      SquareNonNegative(a * tau + b);
      assert false;
    }
  }

  /** With `a > 0`, the root `(s - b) / a` taken with `s >= 0` is the largest. */
  lemma LargerRootIsLargest(a: real, b: real, cc: real, s: real, tau: real)
    requires a > 0.0 && 0.0 <= s
    requires Mul(s, s) == Mul(b, b) - Mul(a, cc)
    requires Quadratic(a, b, cc, tau) == 0.0
    ensures tau <= (s - b) / a
  {
    SolutionSquare(a, b, cc, tau);
    SquareBound(a * tau + b, s);
    ScaleMonotone(tau, (s - b) / a, a);
  }

  /** The squared distance from the centre to the ray's point, less `R^2`, is the quadratic. */
  lemma DistanceIsQuadratic(sphere: Sphere, ray: Ray, tau: real)
    ensures var u, w := Sub(ray.position, sphere.position), Sub(PointAt(ray, tau), sphere.position);
      Dot(w, w) - sphere.radius * sphere.radius
      == Quadratic(Dot(ray.vector, ray.vector), Dot(ray.vector, u), Dot(u, u) - sphere.radius * sphere.radius, tau)
  {
    var u := Sub(ray.position, sphere.position);
    ExpandSquare(u, ray.vector, tau, Sub(PointAt(ray, tau), sphere.position));
  }

  /** The discriminant in terms of the quadratic's coefficients. */
  lemma DiscriminantOfQuadratic(sphere: Sphere, ray: Ray)
    ensures var u := Sub(ray.position, sphere.position);
      var a, b := Dot(ray.vector, ray.vector), Dot(ray.vector, u);
      Discriminant(sphere, ray) == Mul(b, b) - Mul(a, Dot(u, u) - sphere.radius * sphere.radius)
  {
  }

  // ---------------------------------------------------------------------------
  // What a sphere hit means

  /** The ray meets the sphere at the reported parameter. */
  lemma RootOnSphere(sphere: Sphere, ray: Ray, sqrt: imap<real, real>)
    requires IsSqrt(sqrt)
    requires Discriminant(sphere, ray) >= 0.0 && Dot(ray.vector, ray.vector) != 0.0
    ensures OnSphere(sphere, PointAt(ray, SphereT(sphere, ray, sqrt)))
  {
    var u := Sub(ray.position, sphere.position);
    var a, b := Dot(ray.vector, ray.vector), Dot(ray.vector, u);
    var cc := Dot(u, u) - sphere.radius * sphere.radius;
    var disc := Discriminant(sphere, ray);
    DiscriminantOfQuadratic(sphere, ray);
    assert Mul(Root(sqrt, disc), Root(sqrt, disc)) == disc;
    RootSolves(a, b, cc, Root(sqrt, disc), SphereT(sphere, ray, sqrt));
    DistanceIsQuadratic(sphere, ray, SphereT(sphere, ray, sqrt));
  }

  /** Every parameter at which the ray's line meets the sphere is at most the reported one. */
  lemma RootIsLargest(sphere: Sphere, ray: Ray, sqrt: imap<real, real>, tau: real)
    requires IsSqrt(sqrt)
    requires Discriminant(sphere, ray) >= 0.0 && Dot(ray.vector, ray.vector) != 0.0
    requires OnSphere(sphere, PointAt(ray, tau))
    ensures tau <= SphereT(sphere, ray, sqrt)
  {
    var u := Sub(ray.position, sphere.position);
    var a, b := Dot(ray.vector, ray.vector), Dot(ray.vector, u);
    var cc := Dot(u, u) - sphere.radius * sphere.radius;
    var disc := Discriminant(sphere, ray);
    DiscriminantOfQuadratic(sphere, ray);
    assert Mul(Root(sqrt, disc), Root(sqrt, disc)) == disc && Root(sqrt, disc) >= 0.0;
    DistanceIsQuadratic(sphere, ray, tau);
    DotFacts(ray.vector, ray.vector);
    LargerRootIsLargest(a, b, cc, Root(sqrt, disc), tau);
  }

  /** With no real root the ray's line misses the sphere. */
  lemma NegativeDiscriminantMisses(sphere: Sphere, ray: Ray, tau: real)
    requires Discriminant(sphere, ray) < 0.0
    ensures !OnSphere(sphere, PointAt(ray, tau))
  {
    var u := Sub(ray.position, sphere.position);
    var a, b := Dot(ray.vector, ray.vector), Dot(ray.vector, u);
    var cc := Dot(u, u) - sphere.radius * sphere.radius;
    DiscriminantOfQuadratic(sphere, ray);
    NoRootBelowZero(a, b, cc, tau);
    DistanceIsQuadratic(sphere, ray, tau);
  }

  /**
   * A reported hit lies on the sphere at the larger of the two ray parameters:
   * `loc = e + t d`, `|loc - c| = R`, every parameter at which the ray's line
   * meets the sphere is at most `t`, the normal has unit length unless the
   * sphere is a single point, and the material is the sphere's.
   */
  lemma SphereHitIsLargestRoot(sphere: Sphere, ray: Ray, sqrt: imap<real, real>)
    requires IsSqrt(sqrt)
    requires SphereHit(sphere, ray, sqrt).Some?
    ensures var h := SphereHit(sphere, ray, sqrt).value;
      && h.loc == PointAt(ray, h.t)
      && OnSphere(sphere, h.loc)
      && (forall tau :: OnSphere(sphere, PointAt(ray, tau)) ==> tau <= h.t)
      && (sphere.radius != 0.0 ==> Dot(h.norm, h.norm) == 1.0)
      && h.mat == sphere.mat
  {
    var h := SphereHit(sphere, ray, sqrt).value;
    assert Discriminant(sphere, ray) >= 0.0 && Dot(ray.vector, ray.vector) != 0.0;
    assert h.t == SphereT(sphere, ray, sqrt) && h.loc == PointAt(ray, h.t);
    assert h.norm == Normalize(Sub(h.loc, sphere.position), sqrt);
    RootOnSphere(sphere, ray, sqrt);
    forall tau | OnSphere(sphere, PointAt(ray, tau))
      ensures tau <= h.t
    {
      RootIsLargest(sphere, ray, sqrt, tau);
    }
    if sphere.radius != 0.0 {
      SurfaceNormalIsUnit(sphere, h.loc, sqrt);
    }
  }

  /** At a point of a sphere of nonzero radius, the normalised `p - c` has unit length. */
  lemma SurfaceNormalIsUnit(sphere: Sphere, p: Vec3, sqrt: imap<real, real>)
    requires IsSqrt(sqrt) && OnSphere(sphere, p) && sphere.radius != 0.0
    ensures var n := Normalize(Sub(p, sphere.position), sqrt);
      Dot(n, n) == 1.0
  {
    var w := Sub(p, sphere.position);
    SquarePositive(sphere.radius);
    DotFacts(w, w);
    NormalizeIsUnit(w, sqrt);
  }

  /**
   * For a nonzero ray direction, `intersect_sphere` reports no hit exactly
   * when the discriminant is negative, that is, exactly when no point of the
   * ray's line lies on the sphere.
   */
  lemma SphereMissIff(sphere: Sphere, ray: Ray, sqrt: imap<real, real>)
    requires IsSqrt(sqrt)
    requires !IsZero(ray.vector)
    ensures SphereHit(sphere, ray, sqrt).None? <==> Discriminant(sphere, ray) < 0.0
    ensures SphereHit(sphere, ray, sqrt).None? <==> forall tau :: !OnSphere(sphere, PointAt(ray, tau))
  {
    DotFacts(ray.vector, ray.vector);
    if SphereHit(sphere, ray, sqrt).Some? {
      RootOnSphere(sphere, ray, sqrt);
    } else {
      forall tau
        ensures !OnSphere(sphere, PointAt(ray, tau))
      {
        NegativeDiscriminantMisses(sphere, ray, tau);
      }
    }
  }

  /**
   * `intersect_sphere` never checks the sign of `t`.  When the ray starts
   * outside a sphere whose centre lies behind it, and its line still meets the
   * sphere, a hit is reported at a negative parameter: the sphere behind the
   * origin is hit.
   */
  lemma SphereBehindIsHit(sphere: Sphere, ray: Ray, sqrt: imap<real, real>, tau: real)
    requires IsSqrt(sqrt) && !IsZero(ray.vector)
    requires var u := Sub(ray.position, sphere.position);
      Dot(u, u) > sphere.radius * sphere.radius && Dot(ray.vector, u) > 0.0
    requires OnSphere(sphere, PointAt(ray, tau))
    ensures SphereHit(sphere, ray, sqrt).Some? && SphereHit(sphere, ray, sqrt).value.t < 0.0
  {
    if Discriminant(sphere, ray) < 0.0 {
      NegativeDiscriminantMisses(sphere, ray, tau);
      assert false;
    }
    var u := Sub(ray.position, sphere.position);
    var a, b := Dot(ray.vector, ray.vector), Dot(ray.vector, u);
    var cc := Dot(u, u) - sphere.radius * sphere.radius;
    var root := Root(sqrt, Discriminant(sphere, ray));
    DotFacts(ray.vector, ray.vector);
    DiscriminantOfQuadratic(sphere, ray);
    LargerRootNegative(a, b, cc, root);
  }

  /** With `a, b, cc > 0`, the larger root `(s - b) / a` of `a tau^2 + 2 b tau + cc` is negative. */
  lemma LargerRootNegative(a: real, b: real, cc: real, s: real)
    requires a > 0.0 && b > 0.0 && cc > 0.0 && 0.0 <= s
    requires Mul(s, s) == Mul(b, b) - Mul(a, cc)
    ensures (s - b) / a < 0.0
  {
    MulPositive(a, cc);
    if s > b {
      MulPositive(s - b, s + b);
      assert false;
    } else if s == b {
      assert false;
    }
  }
}
