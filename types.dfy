/**
 * The value types shared by the ray tracer (raytracer/types.h).
 *
 * A C `Material` is shared between primitives and hits through a `Material*`, but
 * nothing writes to it after the scene is built, so the model passes it by
 * value.  Its `char color[3]` is read into `unsigned char` before use, so a
 * channel is modelled as a byte value 0..255.
 */
module Types {
  import opened VecUtil

  type Byte = x: int | 0 <= x < 256

  /** An RGB colour, one byte per channel. */
  type Color = c: seq<Byte> | |c| == 3 witness [0, 0, 0]

  const REFLECTIVE: int := 1
  const DIFFUSE: int := 0

  datatype Material = Material(color: Color, reflective: int)

  /** A ray starts at `position` and runs along `vector`. */
  datatype Ray = Ray(vector: Vec3, position: Vec3)

  /** What an intersection reports: the ray parameter, the surface normal, the material and the hit point. */
  datatype RayHit = RayHit(t: real, norm: Vec3, mat: Material, loc: Vec3)

  datatype Option<T> = None | Some(value: T)

  /**
   * The point `position + vector * t`, computed component by component as the
   * hit-location loops of both intersection routines do.
   */
  function PointAt(ray: Ray, t: real): Vec3 {
    Vec3(ray.position.x + ray.vector.x * t,
         ray.position.y + ray.vector.y * t,
         ray.position.z + ray.vector.z * t)
  }

  /**
   * The hit-location loop `loc[i] = ray->position[i] + ray->vector[i] * t` shared
   * by `intersect_sphere` and `intersect_triangle`, writing into a fresh array.
   */
  method HitLocation(ray: Ray, t: real) returns (loc: array<real>)
    ensures fresh(loc) && loc.Length == 3
    ensures ToVec3(loc[..]) == PointAt(ray, t)
  {
    var e := [ray.position.x, ray.position.y, ray.position.z];
    var d := [ray.vector.x, ray.vector.y, ray.vector.z];
    loc := new real[3];
    for i := 0 to 3
      invariant forall k :: 0 <= k < i ==> loc[k] == e[k] + d[k] * t
    {
      loc[i] := e[i] + d[i] * t;
    }
  }
}
