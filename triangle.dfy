/**
 * Triangles and their intersection with a ray (raytracer/triangle.c).
 *
 * `intersect_triangle` writes the ray's point `e + t d` as
 * `A + beta (B - A) + gamma (C - A)`, solves the resulting 3x3 linear system
 * by Cramer's rule and accepts the hit on explicit inequalities on `beta`,
 * `gamma` and `t`.  The model keeps the C names of the twelve coefficients.
 */
module Triangles {
  import opened VecUtil
  import opened Types

  /** Three vertices `A`, `B`, `C`, three coordinates each. */
  type Verts = v: seq<real> | |v| == 9 witness [0.0, 0.0, 0.0, 0.0, 0.0, 0.0, 0.0, 0.0, 0.0]

  datatype Triangle = Triangle(verts: Verts, norm: Vec3, mat: Material)

  /** `init_triangle`: copies the normal and the nine vertex coordinates and keeps the material. */
  method InitTriangle(verts: array<real>, norm: array<real>, mat: Material) returns (tri: Triangle)
    requires verts.Length >= 9 && norm.Length >= 3
    ensures tri.verts == verts[..9] && tri.norm == ToVec3(norm[..]) && tri.mat == mat
  {
    var n := new real[3];
    var _ := VecCpy(n, norm, 3);
    var v := new real[9];
    var _ := VecCpy(v, verts, 9);
    tri := Triangle(v[..], ToVec3(n[..]), mat);
  }

  /**
   * The system `a beta + d gamma + g t = j`, `b beta + e gamma + h t = k`,
   * `c beta + f gamma + i t = l`: the columns are `A - B`, `A - C` and the ray
   * direction, and the right-hand side is `A - e`.
   */
  datatype System = System(a: real, b: real, c: real, d: real, e: real, f: real,
                           g: real, h: real, i: real, j: real, k: real, l: real)

  function SystemOf(tri: Triangle, ray: Ray): System {
    var v := tri.verts;
    System(v[0] - v[3], v[1] - v[4], v[2] - v[5],
           v[0] - v[6], v[1] - v[7], v[2] - v[8],
           ray.vector.x, ray.vector.y, ray.vector.z,
           v[0] - ray.position.x, v[1] - ray.position.y, v[2] - ray.position.z)
  }

  /** The determinant `m` of the system. */
  function Det(s: System): real {
    s.a * (s.e * s.i - s.h * s.f) + s.b * (s.g * s.f - s.d * s.i) + s.c * (s.d * s.h - s.e * s.g)
  }

  /** Cramer's numerators of `beta`, `gamma` and `t`. */
  function BetaNum(s: System): real {
    s.j * (s.e * s.i - s.h * s.f) + s.k * (s.g * s.f - s.d * s.i) + s.l * (s.d * s.h - s.e * s.g)
  }

  function GammaNum(s: System): real {
    s.i * (s.a * s.k - s.j * s.b) + s.h * (s.j * s.c - s.a * s.l) + s.g * (s.b * s.l - s.k * s.c)
  }

  function TNum(s: System): real {
    -(s.f * (s.a * s.k - s.j * s.b) + s.e * (s.j * s.c - s.a * s.l) + s.d * (s.b * s.l - s.k * s.c))
  }

  predicate Solves(s: System, beta: real, gamma: real, t: real) {
    && s.a * beta + s.d * gamma + s.g * t == s.j
    && s.b * beta + s.e * gamma + s.h * t == s.k
    && s.c * beta + s.f * gamma + s.i * t == s.l
  }

  /** The rejection test of `intersect_triangle`. */
  predicate Rejected(beta: real, gamma: real, t: real) {
    t <= 0.0 || gamma < 0.0 || gamma > 1.0 || beta < 0.0 || beta > 1.0 - gamma
  }

  /** The point `A + beta (B - A) + gamma (C - A)` of the triangle's plane. */
  function Barycentric(tri: Triangle, beta: real, gamma: real): Vec3 {
    var v := tri.verts;
    Vec3(v[0] + beta * (v[3] - v[0]) + gamma * (v[6] - v[0]),
         v[1] + beta * (v[4] - v[1]) + gamma * (v[7] - v[1]),
         v[2] + beta * (v[5] - v[2]) + gamma * (v[8] - v[2]))
  }

  /**
   * What `intersect_triangle` returns: a hit at `t` carrying the triangle's
   * own normal and material unless the rejection test fires.  A zero
   * determinant (a ray parallel to the triangle's plane, or a degenerate
   * triangle) makes the C code divide by zero; the model reports no hit.
   */
  function TriangleHit(tri: Triangle, ray: Ray): Option<RayHit> {
    var s := SystemOf(tri, ray);
    var m := Det(s);
    if m == 0.0 then None
    else
      var beta, gamma, t := BetaNum(s) / m, GammaNum(s) / m, TNum(s) / m;
      if Rejected(beta, gamma, t) then None
      else Some(RayHit(t, tri.norm, tri.mat, PointAt(ray, t)))
  }

  /** `intersect_triangle`: Cramer's rule, the rejection test, then the hit record and its location loop. */
  method IntersectTriangle(tri: Triangle, ray: Ray) returns (hit: Option<RayHit>)
    ensures hit == TriangleHit(tri, ray)
  {
    var s := SystemOf(tri, ray);
    var m := Det(s);
    if m == 0.0 {
      return None;
    }
    var beta := BetaNum(s) / m;
    var gamma := GammaNum(s) / m;
    var t := TNum(s) / m;
    if t <= 0.0 || gamma < 0.0 || gamma > 1.0 || beta < 0.0 || beta > 1.0 - gamma {
      return None;
    }
    var loc := HitLocation(ray, t);
    hit := Some(RayHit(t, tri.norm, tri.mat, ToVec3(loc[..])));
  }

  // ---------------------------------------------------------------------------
  // Cramer's rule

  /** Dividing `x = y m` by a nonzero `m` gives back `y`. */
  lemma Quotient(x: real, y: real, m: real)
    requires m != 0.0 && x == y * m
    ensures x / m == y
  {
  }

  /** Each equation of the system, multiplied through by the determinant, holds for the numerators. */
  lemma CramerRows(s: System)
    ensures s.a * BetaNum(s) + s.d * GammaNum(s) + s.g * TNum(s) == s.j * Det(s)
    ensures s.b * BetaNum(s) + s.e * GammaNum(s) + s.h * TNum(s) == s.k * Det(s)
    ensures s.c * BetaNum(s) + s.f * GammaNum(s) + s.i * TNum(s) == s.l * Det(s)
  {
  }

  /** An equation `x X + y Y + z Z = w m` divided through by a nonzero `m`. */
  lemma DivideRow(x: real, y: real, z: real, bigX: real, bigY: real, bigZ: real, w: real, m: real)
    ensures m != 0.0 && x * bigX + y * bigY + z * bigZ == w * m
      ==> x * (bigX / m) + y * (bigY / m) + z * (bigZ / m) == w
  {
    if m != 0.0 {
      assert x * (bigX / m) + y * (bigY / m) + z * (bigZ / m) == (x * bigX + y * bigY + z * bigZ) / m;
    }
  }

  /** With a nonzero determinant, Cramer's values solve the system. */
  lemma CramerSolves(s: System)
    requires Det(s) != 0.0
    ensures Solves(s, BetaNum(s) / Det(s), GammaNum(s) / Det(s), TNum(s) / Det(s))
  {
    CramerRows(s);
    DivideRow(s.a, s.d, s.g, BetaNum(s), GammaNum(s), TNum(s), s.j, Det(s));
    DivideRow(s.b, s.e, s.h, BetaNum(s), GammaNum(s), TNum(s), s.k, Det(s));
    DivideRow(s.c, s.f, s.i, BetaNum(s), GammaNum(s), TNum(s), s.l, Det(s));
  }

  /** Any solution of the system is Cramer's: its unknowns times the determinant are the numerators. */
  lemma CramerUnique(s: System, beta: real, gamma: real, t: real)
    requires Solves(s, beta, gamma, t)
    ensures BetaNum(s) == beta * Det(s)
    ensures GammaNum(s) == gamma * Det(s)
    ensures TNum(s) == t * Det(s)
  {
  }

  /** The system says exactly that the ray's point at `t` is the plane's point with weights `beta`, `gamma`. */
  lemma SolvesIffMeets(tri: Triangle, ray: Ray, beta: real, gamma: real, t: real)
    ensures Solves(SystemOf(tri, ray), beta, gamma, t) <==> PointAt(ray, t) == Barycentric(tri, beta, gamma)
  {
    var p, q := PointAt(ray, t), Barycentric(tri, beta, gamma);
    if Solves(SystemOf(tri, ray), beta, gamma, t) {
      assert p.x == q.x && p.y == q.y && p.z == q.z;
    }
  }

  // ---------------------------------------------------------------------------
  // What a triangle hit means

  /** The weights of a point in the closed triangle, as the acceptance test admits them. */
  predicate InTriangle(beta: real, gamma: real) {
    0.0 <= beta && 0.0 <= gamma && beta + gamma <= 1.0
  }

  /**
   * A reported hit lies strictly ahead of the ray origin and inside the
   * triangle: `loc = e + t d = A + beta (B - A) + gamma (C - A)` with
   * `beta, gamma >= 0` and `beta + gamma <= 1`.  Its normal is the stored
   * normal, whatever the ray, and its material the triangle's.
   */
  lemma TriangleHitIsInside(tri: Triangle, ray: Ray)
    requires TriangleHit(tri, ray).Some?
    ensures var h := TriangleHit(tri, ray).value;
      var s := SystemOf(tri, ray);
      var beta, gamma := BetaNum(s) / Det(s), GammaNum(s) / Det(s);
      && h.t > 0.0 && h.t == TNum(s) / Det(s)
      && InTriangle(beta, gamma)
      && h.loc == PointAt(ray, h.t) == Barycentric(tri, beta, gamma)
      && h.norm == tri.norm && h.mat == tri.mat
  {
    var s := SystemOf(tri, ray);
    CramerSolves(s);
    SolvesIffMeets(tri, ray, BetaNum(s) / Det(s), GammaNum(s) / Det(s), TNum(s) / Det(s));
  }

  /**
   * Conversely, when the determinant is nonzero, a point of the ray at a
   * positive parameter inside the closed triangle is reported, at that
   * parameter.
   */
  lemma TriangleHitIsComplete(tri: Triangle, ray: Ray, beta: real, gamma: real, t: real)
    requires Det(SystemOf(tri, ray)) != 0.0
    requires t > 0.0 && InTriangle(beta, gamma)
    requires PointAt(ray, t) == Barycentric(tri, beta, gamma)
    ensures TriangleHit(tri, ray).Some? && TriangleHit(tri, ray).value.t == t
  {
    var s := SystemOf(tri, ray);
    SolvesIffMeets(tri, ray, beta, gamma, t);
    CramerUnique(s, beta, gamma, t);
    var m := Det(s);
    Quotient(BetaNum(s), beta, m);
    Quotient(GammaNum(s), gamma, m);
    Quotient(TNum(s), t, m);
  }
}
