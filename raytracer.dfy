/**
 * The kernel of the ray tracer (raytracer/raytracer.c): building primary rays
 * (`getRay` and the pixel mapping of `main`) and colouring a ray (`getRayHit`).
 *
 * `getRayHit` scans every sphere and then every triangle for the closest hit,
 * returns a background grey when there is none, follows a mirror reflection for
 * a reflective material (at most nine nested reflections from a top-level
 * call: the tenth reflective hit is cut off by the global `ray_recurse`) and
 * otherwise shades with a floored half-Lambert term and a binary shadow
 * test.  `Trace` is that computation as a function; `Tracer.GetRayHit` is the
 * routine itself, with the global counter as a field, proved to compute
 * `Trace`.
 */
module Raytracer {
  import opened VecUtil
  import opened Types
  import opened Spheres
  import opened Triangles

  /** `INT_MAX` stored in the float `t`: 2^31 - 1 rounds to 2^31. */
  const NoHitT: real := 2147483648.0

  /** The value of `ray_recurse` at which a reflection chain is cut off. */
  const MaxRecurse: int := 10

  /** The colour of a ray that hits nothing, and of a reflection chain that is cut off. */
  const Background: Color := [20, 20, 20]

  /** The diffuse factor of a point in shadow. */
  const ShadowDiffuse: real := 0.2

  /** The floor of the half-Lambert term. */
  const AmbientDiffuse: real := 0.3

  datatype Scene = Scene(spheres: seq<Sphere>, triangles: seq<Triangle>, lightLoc: Vec3)

  // ---------------------------------------------------------------------------
  // The closest hit

  /**
   * The state of the two scanning loops of `getRayHit`: the running minimum
   * `t`, the hit whose material, location and normal were copied out, and the
   * indices `s` and `tri` of the primitive it came from (-1 for none).
   */
  datatype Closest = Closest(t: real, kept: Option<RayHit>, s: int, tri: int)

  const Start: Closest := Closest(NoHitT, None, -1, -1)

  /** One iteration of the sphere loop: a strictly closer hit replaces the kept one. */
  function SphereStep(c: Closest, hit: Option<RayHit>, i: int): Closest {
    if hit.Some? && hit.value.t < c.t then Closest(hit.value.t, hit, i, -1) else c
  }

  /** One iteration of the triangle loop. */
  function TriangleStep(c: Closest, hit: Option<RayHit>, i: int): Closest {
    if hit.Some? && hit.value.t < c.t then Closest(hit.value.t, hit, -1, i) else c
  }

  /** What `intersect_sphere` reports for each sphere, in scene order. */
  function SphereHits(spheres: seq<Sphere>, ray: Ray, sqrt: imap<real, real>): seq<Option<RayHit>>
  {
    seq(|spheres|, i requires 0 <= i < |spheres| => SphereHit(spheres[i], ray, sqrt))
  }

  /** What `intersect_triangle` reports for each triangle, in scene order. */
  function TriangleHits(triangles: seq<Triangle>, ray: Ray): seq<Option<RayHit>>
  {
    seq(|triangles|, i requires 0 <= i < |triangles| => TriangleHit(triangles[i], ray))
  }

  /** The state after the first `n` iterations of the sphere loop. */
  function ScanSpheres(spheres: seq<Sphere>, ray: Ray, sqrt: imap<real, real>, n: nat): Closest
    requires n <= |spheres|
  {
    if n == 0 then Start
    else SphereStep(ScanSpheres(spheres, ray, sqrt, n - 1), SphereHit(spheres[n - 1], ray, sqrt), n - 1)
  }

  /** The state after the first `n` iterations of the triangle loop, started from `start`. */
  function ScanTriangles(triangles: seq<Triangle>, ray: Ray, start: Closest, n: nat): Closest
    requires n <= |triangles|
  {
    if n == 0 then start
    else TriangleStep(ScanTriangles(triangles, ray, start, n - 1), TriangleHit(triangles[n - 1], ray), n - 1)
  }

  /** The state after both loops. */
  function FindClosest(scene: Scene, ray: Ray, sqrt: imap<real, real>): Closest {
    var afterSpheres := ScanSpheres(scene.spheres, ray, sqrt, |scene.spheres|);
    ScanTriangles(scene.triangles, ray, afterSpheres, |scene.triangles|)
  }

  /**
   * The reference description of the scan: `t` is the minimum of `INT_MAX`
   * and the reported `t` of every hit among the first `n`; a hit is kept
   * exactly when `t` dropped below `INT_MAX`, and then `at` names it; and every
   * hit before `at` is strictly farther, so ties go to the lower index.
   */
  predicate ScannedUpTo(hits: seq<Option<RayHit>>, n: nat, t: real, kept: Option<RayHit>, at: int)
    requires n <= |hits|
  {
    && t <= NoHitT
    && (kept.None? <==> t == NoHitT)
    && (kept.None? <==> at == -1)
    && (kept.Some? ==> 0 <= at < n && kept == hits[at] && t == kept.value.t)
    && (forall i :: 0 <= i < n && hits[i].Some? ==> t <= hits[i].value.t)
    && (forall i :: 0 <= i < n && i < at && hits[i].Some? ==> t < hits[i].value.t)
  }

  /** One sphere iteration extends the reference description from the first `n - 1` hits to the first `n`. */
  lemma SphereStepScans(hits: seq<Option<RayHit>>, n: nat, c: Closest)
    requires 0 < n <= |hits|
    requires c.tri == -1 && ScannedUpTo(hits, n - 1, c.t, c.kept, c.s)
    ensures var next := SphereStep(c, hits[n - 1], n - 1);
      next.tri == -1 && ScannedUpTo(hits, n, next.t, next.kept, next.s)
  {
  }

  /** The sphere loop meets the reference description, with `tri` left at -1. */
  lemma {:induction false} ScanSpheresIsMinimum(spheres: seq<Sphere>, ray: Ray, sqrt: imap<real, real>, n: nat)
    requires n <= |spheres|
    ensures var c := ScanSpheres(spheres, ray, sqrt, n);
      c.tri == -1 && ScannedUpTo(SphereHits(spheres, ray, sqrt), n, c.t, c.kept, c.s)
  {
    if n > 0 {
      ScanSpheresIsMinimum(spheres, ray, sqrt, n - 1);
      SphereStepScans(SphereHits(spheres, ray, sqrt), n, ScanSpheres(spheres, ray, sqrt, n - 1));
    }
  }

  /**
   * The state of the triangle loop after `n` triangles, started from the
   * state `start` the sphere loop left: either `start` stands and no triangle
   * hit is closer, or a triangle is kept that meets the reference description
   * among the triangles and is strictly closer than every sphere hit.
   */
  predicate TrianglesScanned(sphereHits: seq<Option<RayHit>>, triangleHits: seq<Option<RayHit>>, n: nat,
                             start: Closest, c: Closest)
    requires n <= |triangleHits|
  {
    if c.tri == -1 then
      && c == start
      && (forall i :: 0 <= i < n && triangleHits[i].Some? ==> c.t <= triangleHits[i].value.t)
    else
      && c.s == -1
      && ScannedUpTo(triangleHits, n, c.t, c.kept, c.tri)
      && (forall i :: 0 <= i < |sphereHits| && sphereHits[i].Some? ==> c.t < sphereHits[i].value.t)
  }

  /** One triangle iteration extends `TrianglesScanned` from the first `n - 1` triangles to the first `n`. */
  lemma TriangleStepScans(sphereHits: seq<Option<RayHit>>, triangleHits: seq<Option<RayHit>>, n: nat,
                          start: Closest, c: Closest)
    requires 0 < n <= |triangleHits|
    requires start.tri == -1 && ScannedUpTo(sphereHits, |sphereHits|, start.t, start.kept, start.s)
    requires TrianglesScanned(sphereHits, triangleHits, n - 1, start, c)
    ensures TrianglesScanned(sphereHits, triangleHits, n, start, TriangleStep(c, triangleHits[n - 1], n - 1))
  {
  }

  /**
   * The triangle loop, started from the sphere loop's final state, keeps a
   * triangle's hit only when it is strictly closer than everything before it.
   */
  lemma {:induction false} ScanTrianglesIsMinimum(scene: Scene, ray: Ray, sqrt: imap<real, real>, n: nat)
    requires n <= |scene.triangles|
    ensures var start := ScanSpheres(scene.spheres, ray, sqrt, |scene.spheres|);
      TrianglesScanned(SphereHits(scene.spheres, ray, sqrt), TriangleHits(scene.triangles, ray), n, start,
                       ScanTriangles(scene.triangles, ray, start, n))
  {
    var start := ScanSpheres(scene.spheres, ray, sqrt, |scene.spheres|);
    ScanSpheresIsMinimum(scene.spheres, ray, sqrt, |scene.spheres|);
    if n > 0 {
      ScanTrianglesIsMinimum(scene, ray, sqrt, n - 1);
      TriangleStepScans(SphereHits(scene.spheres, ray, sqrt), TriangleHits(scene.triangles, ray), n, start,
                        ScanTriangles(scene.triangles, ray, start, n - 1));
    }
  }

  /**
   * After both loops of `getRayHit`: `t` is the minimum of `INT_MAX` and the
   * `t` of every hit reported by `intersect_sphere` or `intersect_triangle`; a
   * record is kept exactly when `t` is below `INT_MAX`; at most one of `s` and
   * `tri` is set, and it names the primitive whose record was kept; a lower
   * index wins a tie, and a sphere wins a tie against a triangle.
   */
  lemma ClosestHit(scene: Scene, ray: Ray, sqrt: imap<real, real>)
    ensures var c := FindClosest(scene, ray, sqrt);
      var sh, th := SphereHits(scene.spheres, ray, sqrt), TriangleHits(scene.triangles, ray);
      && c.t <= NoHitT
      && (c.kept.None? <==> c.t == NoHitT)
      && (c.kept.Some? ==> c.t == c.kept.value.t)
      && (c.s == -1 || c.tri == -1)
      && (c.kept.None? <==> c.s == -1 && c.tri == -1)
      && (c.s != -1 ==> 0 <= c.s < |scene.spheres| && c.kept == sh[c.s])
      && (c.tri != -1 ==> 0 <= c.tri < |scene.triangles| && c.kept == th[c.tri])
      && (forall i :: 0 <= i < |sh| && sh[i].Some? ==> c.t <= sh[i].value.t)
      && (forall i :: 0 <= i < |th| && th[i].Some? ==> c.t <= th[i].value.t)
      && (forall i :: 0 <= i < c.s && sh[i].Some? ==> c.t < sh[i].value.t)
      && (forall i :: 0 <= i < c.tri && th[i].Some? ==> c.t < th[i].value.t)
      && (c.tri != -1 ==> forall i :: 0 <= i < |sh| && sh[i].Some? ==> c.t < sh[i].value.t)
  {
    ScanSpheresIsMinimum(scene.spheres, ray, sqrt, |scene.spheres|);
    ScanTrianglesIsMinimum(scene, ray, sqrt, |scene.triangles|);
  }

  /** The record is kept exactly when `t` is below `INT_MAX`: the test `t != INT_MAX` of `getRayHit`. */
  lemma KeptBelowNoHit(scene: Scene, ray: Ray, sqrt: imap<real, real>)
    ensures FindClosest(scene, ray, sqrt).kept.Some? <==> FindClosest(scene, ray, sqrt).t != NoHitT
  {
    ClosestHit(scene, ray, sqrt);
  }

  /**
   * A sphere behind an outside ray origin, whose line meets it, is hit at a
   * negative `t` and so beats every hit at a larger `t`: the scan ends with a
   * negative `t` and keeps a sphere, since every triangle hit has `t > 0`.
   */
  lemma SphereBehindWinsScan(scene: Scene, ray: Ray, sqrt: imap<real, real>, i: int, tau: real)
    requires IsSqrt(sqrt) && !IsZero(ray.vector) && 0 <= i < |scene.spheres|
    requires var u := Sub(ray.position, scene.spheres[i].position);
      Dot(u, u) > scene.spheres[i].radius * scene.spheres[i].radius && Dot(ray.vector, u) > 0.0
    requires OnSphere(scene.spheres[i], PointAt(ray, tau))
    ensures var c := FindClosest(scene, ray, sqrt);
      c.t < 0.0 && c.kept.Some? && c.s != -1 && c.tri == -1
      && SphereHit(scene.spheres[i], ray, sqrt).Some? && c.t <= SphereHit(scene.spheres[i], ray, sqrt).value.t
  {
    SphereBehindIsHit(scene.spheres[i], ray, sqrt, tau);
    ClosestHit(scene, ray, sqrt);
    var c := FindClosest(scene, ray, sqrt);
    assert SphereHits(scene.spheres, ray, sqrt)[i] == SphereHit(scene.spheres[i], ray, sqrt);
    if c.tri != -1 {
      assert TriangleHits(scene.triangles, ray)[c.tri] == TriangleHit(scene.triangles[c.tri], ray);
      TriangleHitIsInside(scene.triangles[c.tri], ray);
      assert false;
    }
  }

  // ---------------------------------------------------------------------------
  // Shading

  /** The unnormalised mirror direction `d - 2 (d . n) n` computed through `temp` and `temp2`. */
  function Mirror(d: Vec3, n: Vec3): Vec3 {
    Sub(d, Scale(n, 2.0 * Dot(d, n)))
  }

  /** The direction of the reflected ray: the mirror direction, normalised. */
  function Reflect(d: Vec3, n: Vec3, sqrt: imap<real, real>): Vec3 {
    Normalize(Mirror(d, n), sqrt)
  }

  /** The half-Lambert term `dot(l, n) / 2 + .5`, raised to `.3` when it is lower. */
  function Lambert(l: Vec3, n: Vec3): real {
    var diffuse := Dot(l, n) / 2.0 + 0.5;
    if diffuse < AmbientDiffuse then AmbientDiffuse else diffuse
  }

  /** Some sphere among the first `n`, other than the one at index `skip`, reports a hit for `ray`. */
  predicate SphereBlocks(spheres: seq<Sphere>, ray: Ray, sqrt: imap<real, real>, skip: int, n: nat)
    requires n <= |spheres|
  {
    exists i {:trigger SphereHit(spheres[i], ray, sqrt)} ::
      0 <= i < n && i != skip && SphereHit(spheres[i], ray, sqrt).Some?
  }

  /** Some triangle among the first `n`, other than the one at index `skip`, reports a hit for `ray`. */
  predicate TriangleBlocks(triangles: seq<Triangle>, ray: Ray, skip: int, n: nat)
    requires n <= |triangles|
  {
    exists i {:trigger TriangleHit(triangles[i], ray)} ::
      0 <= i < n && i != skip && TriangleHit(triangles[i], ray).Some?
  }

  /**
   * The shadow test of `getRayHit`: the test ray from the hit point towards
   * the light hits some sphere other than sphere `s` or some triangle other
   * than triangle `tri`, wherever along the ray that hit lies.
   */
  predicate InShadow(scene: Scene, testRay: Ray, s: int, tri: int, sqrt: imap<real, real>) {
    || SphereBlocks(scene.spheres, testRay, sqrt, s, |scene.spheres|)
    || TriangleBlocks(scene.triangles, testRay, tri, |scene.triangles|)
  }

  /** The direction from a hit point towards the light, normalised. */
  function LightDirection(scene: Scene, loc: Vec3, sqrt: imap<real, real>): Vec3 {
    Normalize(Sub(scene.lightLoc, loc), sqrt)
  }

  /** The diffuse factor of a hit on the primitive named by `s` or `tri`. */
  function Diffuse(scene: Scene, loc: Vec3, norm: Vec3, s: int, tri: int, sqrt: imap<real, real>): real {
    var lightDir := LightDirection(scene, loc, sqrt);
    if InShadow(scene, Ray(lightDir, loc), s, tri, sqrt) then ShadowDiffuse
    else Lambert(lightDir, Normalize(norm, sqrt))
  }

  /** `(unsigned char)(base * diffuse)`: the product truncated, never above `base`. */
  function ShadeChannel(base: Byte, diffuse: real): (r: Byte)
    requires 0.0 <= diffuse <= 1.0
    ensures r <= base
  {
    var product := Mul(base as real, diffuse);
    ProductBounds(base as real, diffuse);
    assert product.Floor as real <= product;
    product.Floor
  }

  lemma ProductBounds(b: real, x: real)
    requires 0.0 <= b && 0.0 <= x <= 1.0
    ensures 0.0 <= Mul(b, x) <= b
  {
  }

  /** Every channel of `color` shaded by `diffuse`. */
  function Shade(color: Color, diffuse: real): Color
    requires 0.0 <= diffuse <= 1.0
  {
    [ShadeChannel(color[0], diffuse), ShadeChannel(color[1], diffuse), ShadeChannel(color[2], diffuse)]
  }

  /** The dot product distributes over `u - c v`. */
  lemma DotSubScale(u: Vec3, v: Vec3, w: Vec3, c: real)
    ensures Dot(Sub(u, Scale(v, c)), w) == Dot(u, w) - c * Dot(v, w)
  {
  }

  /**
   * Against a unit normal, the mirror direction reverses the normal component
   * and keeps the length.
   */
  lemma MirrorFlipsNormal(d: Vec3, n: Vec3)
    requires Dot(n, n) == 1.0
    ensures Dot(Mirror(d, n), n) == -Dot(d, n)
    ensures Dot(Mirror(d, n), Mirror(d, n)) == Dot(d, d)
  {
    var k, m := Dot(d, n), Mirror(d, n);
    DotSubScale(d, n, n, 2.0 * k);
    DotSubScale(d, n, m, 2.0 * k);
    DotSubScale(d, n, d, 2.0 * k);
    DotFacts(m, d);
    DotFacts(m, n);
    DotFacts(n, d);
  }

  /** Normalising a unit vector leaves it unchanged. */
  lemma NormalizeUnit(v: Vec3, sqrt: imap<real, real>)
    requires IsSqrt(sqrt) && Dot(v, v) == 1.0
    ensures Normalize(v, sqrt) == v
  {
    var k := Root(sqrt, 1.0);
    assert 0.0 <= k && Mul(k, k) == 1.0;
    UnitRoot(k);
  }

  /** The only non-negative square root of one is one. */
  lemma UnitRoot(k: real)
    requires 0.0 <= k && Mul(k, k) == 1.0
    ensures k == 1.0
  {
    if k > 1.0 {
      MulPositive(k - 1.0, k + 1.0);
      assert false;
    } else if k < 1.0 {
      MulPositive(1.0 - k, k + 1.0);
      assert false;
    }
  }

  /**
   * A unit direction reflected about a unit normal stays a unit vector, its
   * normal component changes sign, and `normalize` leaves the mirror direction
   * as it is.
   */
  lemma ReflectFlipsNormal(d: Vec3, n: Vec3, sqrt: imap<real, real>)
    requires IsSqrt(sqrt) && Dot(n, n) == 1.0 && Dot(d, d) == 1.0
    ensures Reflect(d, n, sqrt) == Mirror(d, n)
    ensures Dot(Reflect(d, n, sqrt), n) == -Dot(d, n)
    ensures Dot(Reflect(d, n, sqrt), Reflect(d, n, sqrt)) == 1.0
  {
    MirrorFlipsNormal(d, n);
    NormalizeUnit(Mirror(d, n), sqrt);
  }

  /** Against a unit normal, mirroring twice gives back the direction. */
  lemma MirrorTwice(d: Vec3, n: Vec3)
    requires Dot(n, n) == 1.0
    ensures Mirror(Mirror(d, n), n) == d
  {
    MirrorFlipsNormal(d, n);
    var back := Mirror(Mirror(d, n), n);
    assert back.x == d.x && back.y == d.y && back.z == d.z;
  }

  /** Reflecting twice about the same unit normal gives back the unit direction. */
  lemma ReflectIsInvolution(d: Vec3, n: Vec3, sqrt: imap<real, real>)
    requires IsSqrt(sqrt) && Dot(n, n) == 1.0 && Dot(d, d) == 1.0
    ensures Reflect(Reflect(d, n, sqrt), n, sqrt) == d
  {
    ReflectFlipsNormal(d, n, sqrt);
    NormalizeUnit(Mirror(Mirror(d, n), n), sqrt);
    MirrorTwice(d, n);
  }

  /** For vectors of at most unit length the diffuse term lies in [.3, 1]. */
  lemma LambertInRange(l: Vec3, n: Vec3)
    requires Dot(l, l) <= 1.0 && Dot(n, n) <= 1.0
    ensures AmbientDiffuse <= Lambert(l, n) <= 1.0
  {
    DotBounded(l, n);
  }

  /**
   * The diffuse factor is `.2` in shadow and otherwise the half-Lambert term in
   * [.3, 1], so it always lies in [.2, 1].
   */
  lemma DiffuseInRange(scene: Scene, loc: Vec3, norm: Vec3, s: int, tri: int, sqrt: imap<real, real>)
    requires IsSqrt(sqrt)
    ensures var lightDir := LightDirection(scene, loc, sqrt);
      var diffuse := Diffuse(scene, loc, norm, s, tri, sqrt);
      && ShadowDiffuse <= diffuse <= 1.0
      && (InShadow(scene, Ray(lightDir, loc), s, tri, sqrt) <==> diffuse == ShadowDiffuse)
  {
    var lightDir := LightDirection(scene, loc, sqrt);
    NormalizeAtMostUnit(Sub(scene.lightLoc, loc), sqrt);
    NormalizeAtMostUnit(norm, sqrt);
    LambertInRange(lightDir, Normalize(norm, sqrt));
  }

  // ---------------------------------------------------------------------------
  // The colour of a ray

  /**
   * The colour `getRayHit` returns for `ray` when it is entered with
   * `ray_recurse == depth`.  A reflective hit increments the counter and, once
   * it reaches ten, gives the background; otherwise it returns the colour of
   * the reflected ray, which starts at the hit point.
   */
  function Trace(scene: Scene, ray: Ray, sqrt: imap<real, real>, depth: int): Color
    requires IsSqrt(sqrt) && 0 <= depth < MaxRecurse
    decreases MaxRecurse - depth, 1
  {
    ColorOfClosest(scene, ray, sqrt, depth, FindClosest(scene, ray, sqrt))
  }

  /** The colour `getRayHit` makes of the closest hit `c` of `ray`. */
  function ColorOfClosest(scene: Scene, ray: Ray, sqrt: imap<real, real>, depth: int, c: Closest): Color
    requires IsSqrt(sqrt) && 0 <= depth < MaxRecurse
    decreases MaxRecurse - depth, 0
  {
    match c.kept
    case None => Background
    case Some(hit) =>
      if hit.mat.reflective == REFLECTIVE then
        if depth + 1 == MaxRecurse then Background
        else Trace(scene, Ray(Reflect(ray.vector, hit.norm, sqrt), hit.loc), sqrt, depth + 1)
      else
        DiffuseInRange(scene, hit.loc, hit.norm, c.s, c.tri, sqrt);
        Shade(hit.mat.color, Diffuse(scene, hit.loc, hit.norm, c.s, c.tri, sqrt))
  }

  /**
   * The number of nested recursive calls `getRayHit` makes for `ray` when
   * entered with `ray_recurse == depth`: never more than 9 - `depth`, so at
   * most nine from a top-level call.
   */
  function ReflectionCalls(scene: Scene, ray: Ray, sqrt: imap<real, real>, depth: int): (calls: nat)
    requires 0 <= depth < MaxRecurse
    ensures depth + calls <= MaxRecurse - 1
    decreases MaxRecurse - depth
  {
    match FindClosest(scene, ray, sqrt).kept
    case None => 0
    case Some(hit) =>
      if hit.mat.reflective == REFLECTIVE && depth + 1 != MaxRecurse then
        1 + ReflectionCalls(scene, Ray(Reflect(ray.vector, hit.norm, sqrt), hit.loc), sqrt, depth + 1)
      else 0
  }

  /** A ray that hits nothing, so that `t` stays at `INT_MAX`, gets the background colour. */
  lemma MissIsBackground(scene: Scene, ray: Ray, sqrt: imap<real, real>, depth: int)
    requires IsSqrt(sqrt) && 0 <= depth < MaxRecurse
    requires FindClosest(scene, ray, sqrt).t == NoHitT
    ensures Trace(scene, ray, sqrt, depth) == Background
  {
    ClosestHit(scene, ray, sqrt);
    assert Trace(scene, ray, sqrt, depth) == ColorOfClosest(scene, ray, sqrt, depth, FindClosest(scene, ray, sqrt));
  }

  /**
   * A diffuse hit is never brighter than its material, channel by channel,
   * and a hit in shadow has each channel at a fifth of the material's,
   * truncated.
   */
  lemma DiffuseIsDarker(scene: Scene, ray: Ray, sqrt: imap<real, real>, depth: int)
    requires IsSqrt(sqrt) && 0 <= depth < MaxRecurse
    requires var kept := FindClosest(scene, ray, sqrt).kept;
      kept.Some? && kept.value.mat.reflective != REFLECTIVE
    ensures var c := FindClosest(scene, ray, sqrt);
      var color, base := Trace(scene, ray, sqrt, depth), c.kept.value.mat.color;
      && (forall k :: 0 <= k < 3 ==> color[k] <= base[k])
      && (InShadow(scene, Ray(LightDirection(scene, c.kept.value.loc, sqrt), c.kept.value.loc), c.s, c.tri, sqrt) ==>
            forall k :: 0 <= k < 3 ==> color[k] == (base[k] as real / 5.0).Floor)
  {
    assert Trace(scene, ray, sqrt, depth) == ColorOfClosest(scene, ray, sqrt, depth, FindClosest(scene, ray, sqrt));
  }

  /**
   * Below the cut-off, the colour of a reflective hit is the colour of the
   * ray reflected at the hit point, one level deeper.
   */
  lemma ReflectiveHitFollowsMirror(scene: Scene, ray: Ray, sqrt: imap<real, real>, depth: int, norm: Vec3, loc: Vec3)
    requires IsSqrt(sqrt) && 0 <= depth < MaxRecurse - 1
    requires var kept := FindClosest(scene, ray, sqrt).kept;
      kept.Some? && kept.value.mat.reflective == REFLECTIVE && kept.value.norm == norm && kept.value.loc == loc
    ensures Trace(scene, ray, sqrt, depth) == Trace(scene, Ray(Reflect(ray.vector, norm, sqrt), loc), sqrt, depth + 1)
  {
    assert Trace(scene, ray, sqrt, depth) == ColorOfClosest(scene, ray, sqrt, depth, FindClosest(scene, ray, sqrt));
  }

  /** The colour of a diffuse hit is its material's colour shaded by the diffuse factor. */
  lemma DiffuseHitIsShaded(scene: Scene, ray: Ray, sqrt: imap<real, real>, depth: int)
    requires IsSqrt(sqrt) && 0 <= depth < MaxRecurse
    requires var kept := FindClosest(scene, ray, sqrt).kept;
      kept.Some? && kept.value.mat.reflective != REFLECTIVE
    ensures var c := FindClosest(scene, ray, sqrt);
      var hit := c.kept.value;
      var diffuse := Diffuse(scene, hit.loc, hit.norm, c.s, c.tri, sqrt);
      0.0 <= diffuse <= 1.0 && Trace(scene, ray, sqrt, depth) == Shade(hit.mat.color, diffuse)
  {
    var c := FindClosest(scene, ray, sqrt);
    DiffuseInRange(scene, c.kept.value.loc, c.kept.value.norm, c.s, c.tri, sqrt);
    assert Trace(scene, ray, sqrt, depth) == ColorOfClosest(scene, ray, sqrt, depth, c);
  }

  /** A reflective hit met with nine reflections already pending is cut off with the background colour. */
  lemma DeepReflectionIsBackground(scene: Scene, ray: Ray, sqrt: imap<real, real>)
    requires IsSqrt(sqrt)
    requires var kept := FindClosest(scene, ray, sqrt).kept;
      kept.Some? && kept.value.mat.reflective == REFLECTIVE
    ensures Trace(scene, ray, sqrt, MaxRecurse - 1) == Background
  {
    assert Trace(scene, ray, sqrt, MaxRecurse - 1) == ColorOfClosest(scene, ray, sqrt, MaxRecurse - 1, FindClosest(scene, ray, sqrt));
  }

  /**
   * What the scan's results decide: with `t` still at `INT_MAX` the colour is
   * the background; a reflective material gives the background at the cut-off
   * and otherwise the colour of the ray reflected at `loc` about `norm`; any
   * other material gives its colour shaded by the diffuse factor at `loc`.
   */
  lemma TraceOfScan(scene: Scene, ray: Ray, sqrt: imap<real, real>, depth: int,
                    t: real, s: int, tri: int, out: Material, loc: Vec3, norm: Vec3)
    requires IsSqrt(sqrt) && 0 <= depth < MaxRecurse
    requires Agrees(FindClosest(scene, ray, sqrt), t, s, tri, out, loc, norm)
    ensures t == NoHitT ==> Trace(scene, ray, sqrt, depth) == Background
    ensures t != NoHitT && out.reflective == REFLECTIVE && depth + 1 == MaxRecurse ==>
      Trace(scene, ray, sqrt, depth) == Background
    ensures t != NoHitT && out.reflective == REFLECTIVE && depth + 1 < MaxRecurse ==>
      Trace(scene, ray, sqrt, depth) == Trace(scene, Ray(Reflect(ray.vector, norm, sqrt), loc), sqrt, depth + 1)
    ensures t != NoHitT && out.reflective != REFLECTIVE ==>
      var diffuse := Diffuse(scene, loc, norm, s, tri, sqrt);
      0.0 <= diffuse <= 1.0 && Trace(scene, ray, sqrt, depth) == Shade(out.color, diffuse)
  {
    KeptBelowNoHit(scene, ray, sqrt);
    if t == NoHitT {
      MissIsBackground(scene, ray, sqrt, depth);
    } else if out.reflective == REFLECTIVE {
      if depth + 1 == MaxRecurse {
        DeepReflectionIsBackground(scene, ray, sqrt);
      } else {
        ReflectiveHitFollowsMirror(scene, ray, sqrt, depth, norm, loc);
      }
    } else {
      DiffuseHitIsShaded(scene, ray, sqrt, depth);
    }
  }

  /**
   * What the scan's results decide about the nested calls: none on a miss or a
   * diffuse hit, none at the cut-off, and otherwise one more than the
   * reflected ray makes.
   */
  lemma CallsOfScan(scene: Scene, ray: Ray, sqrt: imap<real, real>, depth: int,
                    t: real, s: int, tri: int, out: Material, loc: Vec3, norm: Vec3)
    requires 0 <= depth < MaxRecurse
    requires Agrees(FindClosest(scene, ray, sqrt), t, s, tri, out, loc, norm)
    ensures t == NoHitT || out.reflective != REFLECTIVE ==> ReflectionCalls(scene, ray, sqrt, depth) == 0
    ensures t != NoHitT && out.reflective == REFLECTIVE && depth + 1 == MaxRecurse ==>
      ReflectionCalls(scene, ray, sqrt, depth) == 0
    ensures t != NoHitT && out.reflective == REFLECTIVE && depth + 1 < MaxRecurse ==>
      ReflectionCalls(scene, ray, sqrt, depth) ==
        1 + ReflectionCalls(scene, Ray(Reflect(ray.vector, norm, sqrt), loc), sqrt, depth + 1)
  {
    KeptBelowNoHit(scene, ray, sqrt);
  }

  // ---------------------------------------------------------------------------
  // The routines

  /** The loop state `t`, `s`, `tri` and the copies `out`, `loc`, `norm` of the kept record agree with `c`. */
  predicate Agrees(c: Closest, t: real, s: int, tri: int, out: Material, loc: Vec3, norm: Vec3) {
    && c.t == t && c.s == s && c.tri == tri
    && (c.kept.Some? ==> c.kept.value.mat == out && c.kept.value.loc == loc && c.kept.value.norm == norm)
  }

  /** The sphere loop of the shadow test: `diffuse` becomes `.2` at the first other sphere the test ray hits. */
  method ShadowFromSpheres(spheres: seq<Sphere>, testRay: Ray, s: int, diffuse: real, sqrt: imap<real, real>)
    returns (result: real)
    ensures result == if SphereBlocks(spheres, testRay, sqrt, s, |spheres|) then ShadowDiffuse else diffuse
  {
    result := diffuse;
    for i := 0 to |spheres|
      invariant !SphereBlocks(spheres, testRay, sqrt, s, i) && result == diffuse
    {
      if i == s {
        continue;
      }
      var hit := IntersectSphere(spheres[i], testRay, sqrt);
      if hit.None? {
        continue;
      } else {
        assert SphereHit(spheres[i], testRay, sqrt).Some?;
        result := ShadowDiffuse;
        break;
      }
    }
  }

  /** The triangle loop of the shadow test: `diffuse` becomes `.2` at the first other triangle the test ray hits. */
  method ShadowFromTriangles(triangles: seq<Triangle>, testRay: Ray, tri: int, diffuse: real)
    returns (result: real)
    ensures result == if TriangleBlocks(triangles, testRay, tri, |triangles|) then ShadowDiffuse else diffuse
  {
    result := diffuse;
    for i := 0 to |triangles|
      invariant !TriangleBlocks(triangles, testRay, tri, i) && result == diffuse
    {
      if i == tri {
        continue;
      }
      var hit := IntersectTriangle(triangles[i], testRay);
      if hit.None? {
        continue;
      } else {
        assert TriangleHit(triangles[i], testRay).Some?;
        result := ShadowDiffuse;
        break;
      }
    }
  }

  /** The ray tracer's global state: the reflection counter `ray_recurse`. */
  class Tracer {
    var rayRecurse: int

    constructor()
      ensures rayRecurse == 0
    {
      rayRecurse := 0;
    }

    /**
     * `getRayHit`: the colour of `ray` in `scene`, in a fresh three-byte
     * buffer.  It is entered with the counter below ten, computes `Trace` for
     * the counter's value on entry, and always leaves the counter at zero.
     * `calls` counts the nested calls it makes to itself, which
     * `ReflectionCalls` bounds.
     */
    method GetRayHit(ray: Ray, scene: Scene, sqrt: imap<real, real>) returns (color: array<Byte>, ghost calls: nat)
      requires IsSqrt(sqrt) && 0 <= rayRecurse < MaxRecurse
      modifies this
      decreases MaxRecurse - rayRecurse, 2
      ensures rayRecurse == 0
      ensures fresh(color) && color.Length == 3
      ensures color[..] == Trace(scene, ray, sqrt, old(rayRecurse))
      ensures calls == ReflectionCalls(scene, ray, sqrt, old(rayRecurse)) && old(rayRecurse) + calls < MaxRecurse
    {
      color := new Byte[3];
      var t, s, tri, out, loc, norm := ScanScene(ray, scene, sqrt);
      color, calls := ColorOfScan(ray, scene, sqrt, t, s, tri, out, loc, norm, color);
      rayRecurse := 0;
    }

    /**
     * The part of `getRayHit` after the scanning loops: the background when
     * `t` is still `INT_MAX`, the reflection for a reflective material, and
     * the diffuse shading otherwise.
     */
    method ColorOfScan(ray: Ray, scene: Scene, sqrt: imap<real, real>,
                       t: real, s: int, tri: int, out: Material, loc: Vec3, norm: Vec3, color: array<Byte>)
      returns (result: array<Byte>, ghost calls: nat)
      requires IsSqrt(sqrt) && 0 <= rayRecurse < MaxRecurse && color.Length == 3
      requires Agrees(FindClosest(scene, ray, sqrt), t, s, tri, out, loc, norm)
      modifies this, color
      decreases MaxRecurse - rayRecurse, 1
      ensures result.Length == 3 && (result == color || fresh(result))
      ensures result[..] == Trace(scene, ray, sqrt, old(rayRecurse))
      ensures t == NoHitT || out.reflective != REFLECTIVE ==> rayRecurse == old(rayRecurse)
      ensures t != NoHitT && out.reflective == REFLECTIVE ==>
        rayRecurse == if old(rayRecurse) + 1 == MaxRecurse then 0 else -1
      ensures calls == ReflectionCalls(scene, ray, sqrt, old(rayRecurse))
    {
      TraceOfScan(scene, ray, sqrt, rayRecurse, t, s, tri, out, loc, norm);
      CallsOfScan(scene, ray, sqrt, rayRecurse, t, s, tri, out, loc, norm);
      result, calls := color, 0;
      if t != NoHitT {
        if out.reflective == REFLECTIVE {
          result, calls := Reflection(ray, scene, sqrt, norm, loc, color);
        } else {
          ShadeDiffuse(color, scene, out, loc, norm, s, tri, sqrt);
        }
      } else {
        FillBackground(color);
      }
    }

    /**
     * The reflective branch of `getRayHit`: the counter goes up; at ten it is
     * reset and `color` becomes the background, and otherwise the colour is
     * that of the ray leaving `loc` along the mirror direction about `norm`,
     * after which the counter goes down again.
     */
    method Reflection(ray: Ray, scene: Scene, sqrt: imap<real, real>, norm: Vec3, loc: Vec3, color: array<Byte>)
      returns (result: array<Byte>, ghost calls: nat)
      requires IsSqrt(sqrt) && 0 <= rayRecurse < MaxRecurse && color.Length == 3
      modifies this, color
      decreases MaxRecurse - rayRecurse, 0
      ensures result.Length == 3 && (result == color || fresh(result))
      ensures old(rayRecurse) + 1 == MaxRecurse ==> rayRecurse == 0 && result[..] == Background && calls == 0
      ensures old(rayRecurse) + 1 < MaxRecurse ==>
        rayRecurse == -1 && result[..] == Trace(scene, Ray(Reflect(ray.vector, norm, sqrt), loc), sqrt, old(rayRecurse) + 1)
        && calls == 1 + ReflectionCalls(scene, Ray(Reflect(ray.vector, norm, sqrt), loc), sqrt, old(rayRecurse) + 1)
    {
      result, calls := color, 0;
      rayRecurse := rayRecurse + 1;
      if rayRecurse == MaxRecurse {
        rayRecurse := 0;
        FillBackground(result);
      } else {
        var temp := 2.0 * Dot(ray.vector, norm);
        var temp2 := Scale(norm, temp);
        var reflected := Ray(Normalize(Sub(ray.vector, temp2), sqrt), loc);
        assert reflected == Ray(Reflect(ray.vector, norm, sqrt), loc);
        ghost var inner;
        result, inner := GetRayHit(reflected, scene, sqrt);
        calls := 1 + inner;
        rayRecurse := rayRecurse - 1;
      }
    }
  }

  /** `color[0] = color[1] = color[2] = 20`. */
  method FillBackground(color: array<Byte>)
    requires color.Length == 3
    modifies color
    ensures color[..] == Background
  {
    color[0], color[1], color[2] := 20, 20, 20;
  }

  /**
   * The two scanning loops of `getRayHit`: every sphere, then every triangle,
   * keeping the record of a strictly closer hit.
   */
  method ScanScene(ray: Ray, scene: Scene, sqrt: imap<real, real>)
    returns (t: real, s: int, tri: int, out: Material, loc: Vec3, norm: Vec3)
    ensures Agrees(FindClosest(scene, ray, sqrt), t, s, tri, out, loc, norm)
  {
    out := Material(Background, DIFFUSE);
    loc, norm := Vec3(0.0, 0.0, 0.0), Vec3(0.0, 0.0, 0.0);
    t := NoHitT;
    s, tri := -1, -1;

    for i := 0 to |scene.spheres|
      invariant Agrees(ScanSpheres(scene.spheres, ray, sqrt, i), t, s, tri, out, loc, norm)
    {
      var hit := IntersectSphere(scene.spheres[i], ray, sqrt);
      if hit.None? {
        continue;
      }
      if hit.value.t < t {
        t := hit.value.t;
        out := hit.value.mat;
        loc := hit.value.loc;
        norm := hit.value.norm;
        s := i;
        tri := -1;
      }
    }

    ghost var start := ScanSpheres(scene.spheres, ray, sqrt, |scene.spheres|);
    for i := 0 to |scene.triangles|
      invariant Agrees(ScanTriangles(scene.triangles, ray, start, i), t, s, tri, out, loc, norm)
    {
      var hit := IntersectTriangle(scene.triangles[i], ray);
      if hit.None? {
        continue;
      }
      if hit.value.t < t {
        t := hit.value.t;
        out := hit.value.mat;
        loc := hit.value.loc;
        norm := hit.value.norm;
        tri := i;
        s := -1;
      }
    }
  }

  /**
   * The diffuse branch of `getRayHit`: the material's colour, the half-Lambert
   * term from the normalised light direction and normal, the shadow test, and
   * the truncated channels, written into `color`.
   */
  method ShadeDiffuse(color: array<Byte>, scene: Scene, out: Material, loc: Vec3, norm: Vec3, s: int, tri: int,
                      sqrt: imap<real, real>)
    requires color.Length == 3 && IsSqrt(sqrt)
    modifies color
    ensures var diffuse := Diffuse(scene, loc, norm, s, tri, sqrt);
      0.0 <= diffuse <= 1.0 && color[..] == Shade(out.color, diffuse)
  {
    color[0], color[1], color[2] := out.color[0], out.color[1], out.color[2];
    var lightDir := Normalize(Sub(scene.lightLoc, loc), sqrt);
    var unitNorm := Normalize(norm, sqrt);
    var diffuse := Dot(lightDir, unitNorm) / 2.0 + 0.5;
    if diffuse < AmbientDiffuse {
      diffuse := AmbientDiffuse;
    }
    var testRay := Ray(lightDir, loc);
    diffuse := ShadowFromSpheres(scene.spheres, testRay, s, diffuse, sqrt);
    diffuse := ShadowFromTriangles(scene.triangles, testRay, tri, diffuse);
    DiffuseInRange(scene, loc, norm, s, tri, sqrt);
    for k := 0 to 3
      invariant forall j :: 0 <= j < k ==> color[j] == ShadeChannel(out.color[j], diffuse)
      invariant forall j :: k <= j < 3 ==> color[j] == out.color[j]
    {
      color[k] := ShadeChannel(color[k], diffuse);
    }
  }

  // ---------------------------------------------------------------------------
  // Primary rays

  /**
   * The screen point `main` builds for the pixel in row `i` and column `j`:
   * the column runs over the screen height to give `x`, the row over the
   * screen width to give `y` (flipped), and the screen lies `dist` in front of
   * the camera along -z.  The screen size is a nonzero constant of `main`.
   */
  function PixelPoint(i: int, j: int, width: real, height: real, dist: real): Vec3
    requires width != 0.0 && height != 0.0
  {
    Vec3((j as real - height / 2.0) / (height / 2.0),
         -(i as real - width / 2.0) / (width / 2.0),
         -dist)
  }

  /**
   * Every pixel of the loops `0 <= i < width`, `0 <= j < height` lands in
   * `[-1, 1) x (-1, 1]` on the plane `z = -dist`, and unless `dist` is zero
   * that point differs from the camera at the origin, so the primary ray has a
   * direction.
   */
  lemma PixelOnScreen(i: int, j: int, width: real, height: real, dist: real)
    requires 0.0 < width && 0.0 < height
    requires 0 <= i && (i as real) < width && 0 <= j && (j as real) < height
    ensures var p := PixelPoint(i, j, width, height, dist);
      && -1.0 <= p.x < 1.0 && -1.0 < p.y <= 1.0 && p.z == -dist
      && (dist != 0.0 ==> !IsZero(Sub(p, Vec3(0.0, 0.0, 0.0))))
  {
    var p := PixelPoint(i, j, width, height, dist);
    PixelRoundTrip(i, j, width, height, dist);
    assert (p.x + 1.0) * (height / 2.0) == j as real;
    assert (1.0 - p.y) * (width / 2.0) == i as real;
  }

  /** The pixel's row and column are recovered from its screen point: the mapping is one-to-one. */
  lemma PixelRoundTrip(i: int, j: int, width: real, height: real, dist: real)
    requires width != 0.0 && height != 0.0
    ensures var p := PixelPoint(i, j, width, height, dist);
      && (p.x + 1.0) * (height / 2.0) == j as real
      && (1.0 - p.y) * (width / 2.0) == i as real
  {
    var p := PixelPoint(i, j, width, height, dist);
    var h, w := height / 2.0, width / 2.0;
    assert p.x * h == j as real - h;
    assert p.y * w == -(i as real - w);
  }

  /**
   * `getRay`: the ray from `from` towards `to`, with the difference `to - from`
   * normalised as its direction and `from` copied as its origin.  The C code
   * divides by the difference's length, so `to` must differ from `from`.
   */
  method GetRay(from: array<real>, to: array<real>, sqrt: imap<real, real>) returns (ray: Ray)
    requires from.Length >= 3 && to.Length >= 3
    requires IsSqrt(sqrt) && !IsZero(Sub(ToVec3(to[..]), ToVec3(from[..])))
    ensures ray.position == ToVec3(from[..])
    ensures ray.vector == Normalize(Sub(ToVec3(to[..]), ToVec3(from[..])), sqrt)
    ensures Dot(ray.vector, ray.vector) == 1.0
  {
    var vec := new real[3];
    for i := 0 to 3
      invariant forall k :: 0 <= k < i ==> vec[k] == to[k] - from[k]
    {
      vec[i] := to[i] - from[i];
    }
    assert ToVec3(vec[..]) == Sub(ToVec3(to[..]), ToVec3(from[..]));
    var vector := new real[3];
    var _ := VecCpy(vector, vec, 3);
    assert ToVec3(vector[..]) == ToVec3(vec[..]);
    NormalizeInPlace(vector, sqrt);
    var position := new real[3];
    var _ := VecCpy(position, from, 3);
    NormalizeIsUnit(Sub(ToVec3(to[..]), ToVec3(from[..])), sqrt);
    ray := Ray(ToVec3(vector[..]), ToVec3(position[..]));
  }

  /**
   * The ray `getRay` builds from `from` to `to` is a unit ray that reaches
   * `to` after exactly the distance between the two points.
   */
  lemma RayReachesTarget(from: Vec3, to: Vec3, sqrt: imap<real, real>)
    requires IsSqrt(sqrt) && !IsZero(Sub(to, from))
    ensures var d := Sub(to, from);
      var ray := Ray(Normalize(d, sqrt), from);
      Dot(ray.vector, ray.vector) == 1.0 && PointAt(ray, Root(sqrt, Dot(d, d))) == to
  {
    var d := Sub(to, from);
    var length := Root(sqrt, Dot(d, d));
    LengthPositive(d, sqrt);
    NormalizeIsUnit(d, sqrt);
    var u := Normalize(d, sqrt);
    assert u == Vec3(d.x / length, d.y / length, d.z / length);
    assert u.x * length == d.x && u.y * length == d.y && u.z * length == d.z;
  }
}
