# A verified model of the C ray tracer

This project models the ray tracer in `raytracer/`: a small C program that
shoots one ray per pixel into a scene of spheres and triangles. For each ray
it finds the closest hit, follows at most nine nested mirror reflections (the
tenth reflective hit is cut off with the background colour), and
shades diffuse surfaces with a floored half-Lambert term and a binary shadow
test. Arithmetic is over Dafny's `real`.

The files follow the C sources:

- `vec_util.dfy` (module `VecUtil`) models `raytracer/vec_util.c`. The array
  routines are methods with their loops, each proved against a function over
  vector values (`Dot`, `Sub`, `Normalize`, `Dot4`, `Normalize4`, `MatVec`).
  A three-component `float` buffer is read as a `Vec3` through `ToVec3`.
- `types.dfy` (module `Types`) models the records of `raytracer/types.h`:
  `Ray`, `Material` and `Ray_Hit`. It also holds the hit-location loop that
  both intersection routines share.
- `sphere.dfy` (module `Spheres`) models `raytracer/sphere.c`. `SphereHit` is
  the value `intersect_sphere` computes, and `IntersectSphere` is the routine
  itself. The lemmas say what a hit means geometrically.
- `triangle.dfy` (module `Triangles`) models `raytracer/triangle.c`:
  `TriangleHit` and `IntersectTriangle`. The lemmas cover Cramer's rule and
  what a hit means geometrically.
- `raytracer.dfy` (module `Raytracer`) models `getRay`, the pixel mapping of
  `main`, and `getRayHit`. The global `ray_recurse` is the field `rayRecurse`
  of class `Tracer`. `Trace` is the colour `getRayHit` computes, written as a
  function. `Tracer.GetRayHit` is proved to return `Trace` for the counter's
  value on entry and to leave the counter at zero.

`getRayHit` is a single C function. The model splits it into methods that
follow its blocks: `ScanScene` (the two scanning loops), `Tracer.ColorOfScan`
(the branch on `t`), `Tracer.Reflection` (the reflective branch with the
counter), `ShadeDiffuse` (with `ShadowFromSpheres` and `ShadowFromTriangles`)
and `FillBackground`.

The C library's `sqrt` is an input of every member that needs it. It is a
table `sqrt: imap<real, real>`, read through `Root`. `IsSqrt(sqrt)` states
what the library promises: for `x >= 0` the result is non-negative and its
square is `x`.

`INT_MAX` is stored in the `float` `t`, where 2^31 - 1 rounds to 2^31. The
model's `NoHitT` is 2147483648.0.

Three behaviours of the code are kept as written:

- `intersect_sphere` always takes the larger root and never checks that `t` is
  positive. A sphere behind the ray origin is therefore reported as a hit at a
  negative `t` (`Spheres.SphereBehindIsHit`). It beats every hit at a larger
  `t`, in particular every triangle hit, so the scan keeps a sphere at a
  negative `t` (`Raytracer.SphereBehindWinsScan`). The triangle routine, by
  contrast, rejects `t <= 0`.
- The shadow test counts any hit on the test ray. There is no check on `t`, on
  the distance to the light, or for hits behind the point.
- The reflective branch mirrors about the hit's normal as it is, without
  normalising it (only the diffuse branch normalises). A sphere's normal is
  unit length, but a triangle's is the stored one, copied verbatim by
  `init_triangle`, so a reflective triangle whose stored normal is not of unit
  length does not reflect like a mirror. `Reflect` uses `hit.norm` unchanged;
  `Raytracer.ReflectFlipsNormal` and `Raytracer.ReflectIsInvolution` state the
  mirror laws for a unit normal only.

## Model

| member | source | states |
|---|---|---|
| VecUtil.VecCpy | raytracer/vec_util.c:17-22 | returns 0; `dest[k]` is the old `src[k]` for every `k < size`; `dest` beyond `size` is unchanged |
| VecUtil.VecDot4 | raytracer/vec_util.c:24-30 | the accumulating loop returns the 4-component dot product of the arrays |
| VecUtil.SumProductsIsDot4 | raytracer/vec_util.c:24-30 | summing `v1[i] * v2[i]` left to right over four components is `Dot4` |
| VecUtil.Dot4Facts | raytracer/vec_util.c:24-30 | a 4-vector's square is non-negative, and positive exactly when the vector is nonzero |
| VecUtil.VecNormalize4 | raytracer/vec_util.c:32-37 | for a nonzero source, `dest` is the source divided by its length, has unit square and is correct in place; components past 4 are unchanged |
| VecUtil.Length4Positive | raytracer/vec_util.c:33 | a nonzero 4-vector has a positive length |
| VecUtil.Normalize4IsUnit | raytracer/vec_util.c:32-37 | normalising a nonzero 4-vector gives unit square |
| VecUtil.RowTimesVector | raytracer/vec_util.c:40-43 | the local copy of row `i` dotted with `vec` is `Dot4` of row-major row `i` and `vec` |
| VecUtil.VecMultMat4 | raytracer/vec_util.c:39-45 | `dest` is the matrix-vector product (row-major rows of the old `mat` dotted with `vec`) normalised, also when `dest` is `mat` |
| VecUtil.VecSub3 | raytracer/vec_util.c:47-52 | returns 0; `dest` holds `v1 - v2` component-wise, also when `dest` is an operand |
| VecUtil.VecDot3 | raytracer/vec_util.c:54-62 | the accumulating loop returns `v1[0]*v2[0] + v1[1]*v2[1] + v1[2]*v2[2]` |
| VecUtil.SumProductsIsDot | raytracer/vec_util.c:54-62 | summing `v1[i] * v2[i]` left to right over three components is `Dot` |
| VecUtil.DotFacts | raytracer/vec_util.c:54-62 | the dot product is symmetric; `dot(v, v) >= 0`, and it is positive exactly for a nonzero `v` |
| VecUtil.DotBounded | raytracer/vec_util.c:54-62 | two vectors of at most unit length have a dot product in [-1, 1] |
| VecUtil.VecNormalize3 | raytracer/vec_util.c:64-69 | for a nonzero source, `dest` is the source divided by its length and has `dot(dest, dest) == 1`; correct when `dest` is `src`, since the length is taken before any write |
| VecUtil.NormalizeInPlace | raytracer/vec_util.c:64-69 | `vec3f_normalize(v, v)` replaces `v` with its normalisation |
| VecUtil.LengthPositive | raytracer/vec_util.c:65 | a nonzero vector has a positive length |
| VecUtil.NormalizeIsUnit | raytracer/vec_util.c:64-69 | normalising a nonzero vector gives a nonzero vector of unit square |
| VecUtil.NormalizeAtMostUnit | raytracer/vec_util.c:64-69 | the normalised vector's square is at most 1, and it is zero exactly when the input is |
| VecUtil.NormalizeZero | raytracer/vec_util.c:64-69 | a zero vector is left as it is, where the C code would divide by zero |
| VecUtil.VecCmp | raytracer/vec_util.c:71-78 | returns 0 or 1, and 1 exactly when the first `size` components agree (so 1 for `size <= 0`) |
| Types.HitLocation | raytracer/sphere.c:92-95 | the loop `loc[i] = position[i] + vector[i] * t` yields the ray's point at `t` |
| Spheres.InitSphere | raytracer/sphere.c:21-25 | the sphere has the three copied centre coordinates, and the radius and material as given |
| Spheres.IntersectSphere | raytracer/sphere.c:58-107 | the routine, with its location loop and normal, returns `SphereHit` |
| Spheres.SphereHitIsLargestRoot | raytracer/sphere.c:68-104 | a reported hit has `loc = e + t d` on the sphere; every parameter where the ray's line meets the sphere is at most `t`; the normal has unit length for a nonzero radius; the material is the sphere's |
| Spheres.SphereMissIff | raytracer/sphere.c:68-81 | for a nonzero direction: no hit exactly when the discriminant is negative, and exactly when no point of the ray's line is on the sphere |
| Spheres.SphereBehindIsHit | raytracer/sphere.c:74-81 | a ray starting outside a sphere whose centre is behind it, whose line meets the sphere, gets a hit at a negative `t` |
| Spheres.RootOnSphere | raytracer/sphere.c:72-80 | the point at the reported root lies on the sphere |
| Spheres.RootIsLargest | raytracer/sphere.c:80 | the reported root is the larger of the two |
| Spheres.NegativeDiscriminantMisses | raytracer/sphere.c:72-77 | with a negative discriminant no point of the ray's line is on the sphere |
| Spheres.SurfaceNormalIsUnit | raytracer/sphere.c:99-100 | at a point of a sphere of nonzero radius, `normalize(loc - c)` has unit length |
| Spheres.DistanceIsQuadratic | raytracer/sphere.c:72 | the squared distance from the centre to `e + t d`, less `R^2`, is the quadratic whose coefficients the routine computes |
| Spheres.DiscriminantOfQuadratic | raytracer/sphere.c:72 | the routine's `disc` is the (quarter) discriminant of that quadratic |
| Spheres.ExpandSquare | raytracer/sphere.c:72 | the square of `u + t d` expanded in powers of `t` |
| Spheres.RootSolves | raytracer/sphere.c:80 | `(s - b) / a` with `s^2 = b^2 - a c` is a root of the quadratic |
| Spheres.SolutionSquare | raytracer/sphere.c:72-80 | every root `tau` has `(a tau + b)^2 = b^2 - a c` |
| Spheres.NoRootBelowZero | raytracer/sphere.c:75-77 | with a negative discriminant the quadratic has no root |
| Spheres.LargerRootIsLargest | raytracer/sphere.c:80 | with `a > 0`, every root is at most `(s - b) / a` |
| Spheres.LargerRootNegative | raytracer/sphere.c:80 | when `a`, `b` and `c` are positive (the origin is outside and the centre behind), the larger root is negative |
| Triangles.InitTriangle | raytracer/triangle.c:21-34 | the triangle has the nine copied vertex coordinates, the three copied normal components, and the material as given |
| Triangles.IntersectTriangle | raytracer/triangle.c:57-98 | the routine, with its rejection test and location loop, returns `TriangleHit` |
| Triangles.CramerRows | raytracer/triangle.c:63-78 | each equation of the system, multiplied by the determinant `m`, holds for the numerators of `beta`, `gamma` and `t` |
| Triangles.CramerSolves | raytracer/triangle.c:75-78 | when `m != 0`, `beta`, `gamma` and `t` solve the system |
| Triangles.CramerUnique | raytracer/triangle.c:75-78 | any solution of the system times `m` gives the numerators |
| Triangles.SolvesIffMeets | raytracer/triangle.c:63-74 | the system holds exactly when `e + t d = A + beta (B - A) + gamma (C - A)` |
| Triangles.TriangleHitIsInside | raytracer/triangle.c:75-94 | a reported hit has `t > 0`, `beta, gamma >= 0` and `beta + gamma <= 1`, with `loc = e + t d` the barycentric point; the normal is the stored one whatever the ray; the material is the triangle's |
| Triangles.TriangleHitIsComplete | raytracer/triangle.c:75-86 | when `m != 0`, a point of the ray at a positive parameter inside the closed triangle is reported, at that parameter |
| Raytracer.PixelOnScreen | raytracer/raytracer.c:506-511 | for `0 <= i < W` and `0 <= j < H` the pixel point has `x` in [-1, 1), `y` in (-1, 1] and `z = -dist`; with `dist != 0` it differs from the camera at the origin |
| Raytracer.PixelRoundTrip | raytracer/raytracer.c:506-511 | row and column are recovered from the pixel point, so the mapping is one-to-one |
| Raytracer.GetRay | raytracer/raytracer.c:49-62 | the ray starts at `from`, its direction is `normalize(to - from)`, and that direction has unit length |
| Raytracer.RayReachesTarget | raytracer/raytracer.c:49-62 | the ray from `from` towards `to` is a unit ray that reaches `to` after the distance between them |
| Raytracer.SphereStepScans | raytracer/raytracer.c:89-110 | one sphere iteration extends the minimum description from `n - 1` spheres to `n` |
| Raytracer.ScanSpheresIsMinimum | raytracer/raytracer.c:79-112 | after the sphere loop, `t` is the minimum of `INT_MAX` and every sphere hit's `t`, `s` names the kept hit, a lower index wins ties, and `tri` is -1 |
| Raytracer.TriangleStepScans | raytracer/raytracer.c:123-134 | one triangle iteration extends the description from `n - 1` triangles to `n` |
| Raytracer.ScanTrianglesIsMinimum | raytracer/raytracer.c:115-136 | the triangle loop replaces the sphere loop's record only with a triangle hit strictly closer than every hit before it |
| Raytracer.SphereBehindWinsScan | raytracer/raytracer.c:79-136 | a sphere behind an outside ray origin whose line meets it makes the scan end with a negative `t` no larger than that sphere's, keeping a sphere and no triangle |
| Raytracer.ClosestHit | raytracer/raytracer.c:79-136 | after both loops `t` is the minimum of `INT_MAX` and every hit's `t`; a record is kept exactly when `t < INT_MAX`; at most one of `s`, `tri` is set and it names the kept record; lower indices win ties and a sphere beats a triangle at equal `t` |
| Raytracer.KeptBelowNoHit | raytracer/raytracer.c:79-138 | a record is kept exactly when `t != INT_MAX` |
| Raytracer.ScanScene | raytracer/raytracer.c:75-136 | the two scanning loops end with `t`, `s`, `tri` and the copied material, location and normal of the closest hit |
| Raytracer.MirrorFlipsNormal | raytracer/raytracer.c:153-160 | against a unit normal, `d - 2 (d . n) n` has the normal component negated and the same length as `d` |
| Raytracer.MirrorTwice | raytracer/raytracer.c:153-160 | mirroring twice about a unit normal gives back the direction |
| Raytracer.NormalizeUnit | raytracer/raytracer.c:161 | normalising a unit vector leaves it unchanged |
| Raytracer.ReflectFlipsNormal | raytracer/raytracer.c:153-161 | a unit direction reflected about a unit normal is the mirror direction, of unit length, with the normal component negated |
| Raytracer.ReflectIsInvolution | raytracer/raytracer.c:153-161 | reflecting a unit direction twice about the same unit normal gives it back |
| Raytracer.LambertInRange | raytracer/raytracer.c:192-195 | for vectors of at most unit length, `max(dot(l, n) / 2 + .5, .3)` lies in [.3, 1] |
| Raytracer.DiffuseInRange | raytracer/raytracer.c:187-232 | the diffuse factor lies in [.2, 1], and it is .2 exactly when the shadow test fires |
| Raytracer.ShadeChannel | raytracer/raytracer.c:237 | the truncated product `base * diffuse` never exceeds `base` |
| Raytracer.ShadowFromSpheres | raytracer/raytracer.c:202-215 | `diffuse` becomes .2 exactly when a sphere other than `s` reports a hit for the test ray, whatever its `t` |
| Raytracer.ShadowFromTriangles | raytracer/raytracer.c:219-232 | `diffuse` becomes .2 exactly when a triangle other than `tri` reports a hit for the test ray |
| Raytracer.ShadeDiffuse | raytracer/raytracer.c:179-239 | `color` becomes the material's colour shaded by the diffuse factor, which lies in [0, 1] |
| Raytracer.FillBackground | raytracer/raytracer.c:241-243 | `color` becomes (20, 20, 20) |
| Raytracer.MissIsBackground | raytracer/raytracer.c:138-244 | a ray with no hit (`t == INT_MAX`) gets (20, 20, 20) |
| Raytracer.DeepReflectionIsBackground | raytracer/raytracer.c:141-147 | a reflective hit reached with the counter at 9 gives (20, 20, 20) |
| Raytracer.ReflectiveHitFollowsMirror | raytracer/raytracer.c:147-171 | below the cut-off, the colour of a reflective hit is the colour of the ray from `loc` along `normalize(d - 2 (d . n) n)`, one level deeper |
| Raytracer.DiffuseHitIsShaded | raytracer/raytracer.c:179-238 | the colour of a diffuse hit is its material's colour shaded by the diffuse factor |
| Raytracer.DiffuseIsDarker | raytracer/raytracer.c:179-238 | a diffuse hit is never brighter than its material, channel by channel; in shadow each channel is a fifth of the material's, truncated |
| Raytracer.CallsOfScan | raytracer/raytracer.c:138-178 | from the scan's results: no nested call on a miss, a diffuse hit or at the cut-off; otherwise one more than the reflected ray makes |
| Raytracer.TraceOfScan | raytracer/raytracer.c:138-244 | from the scan's results: background for `t == INT_MAX`; background for a reflective hit at the cut-off; the reflected ray's colour below it; the shaded colour for a diffuse hit |
| Raytracer.ReflectionCalls | raytracer/raytracer.c:139-178 | a call entered with counter `depth` makes at most `9 - depth` nested recursive calls |
| Raytracer.Tracer.constructor | raytracer/raytracer.c:39 | the counter starts at zero |
| Raytracer.Tracer.GetRayHit | raytracer/raytracer.c:72-247 | for a counter below ten on entry, returns a fresh three-byte colour equal to `Trace` of the ray at the entry counter, and leaves the counter at zero; the nested calls it makes number `ReflectionCalls` of the ray, so entry counter plus calls stays below ten |
| Raytracer.Tracer.ColorOfScan | raytracer/raytracer.c:138-244 | from the scan's results, the colour is `Trace` of the ray at the current counter; the counter is unchanged on a miss or a diffuse hit, 0 after the cut-off and -1 after a followed reflection; the nested calls number `ReflectionCalls` |
| Raytracer.Tracer.Reflection | raytracer/raytracer.c:139-178 | the counter is incremented; at ten it is reset and the colour is (20, 20, 20); below ten the colour is that of the reflected ray one level deeper, and the counter ends at -1, which the caller resets; the nested calls are one plus those of the reflected ray, none at the cut-off |

## Left out

- Floating point: all arithmetic is over the reals, so rounding, NaN and infinity are not modelled. `pow(x, 2)` is `x * x`.
- `sqrt` is a parameter (`IsSqrt`), not computed.
- Divisions by zero are turned into explicit cases, because the C code produces NaN or infinity there:
  - `Normalize` leaves a zero vector unchanged, while the C normalise routines, modelled as methods, require a nonzero input;
  - `SphereHit` reports no hit when `d . d == 0`;
  - `TriangleHit` reports no hit when the determinant `m` is zero;
  - `PixelPoint` requires a nonzero screen size.
- Raytracer.GetRay: requires `to != from`, because the C code divides by zero there.
- Raytracer.ShadeDiffuse: normalises the light direction and the normal with the guarded `Normalize`. For a hit point at the light, or a zero normal, the C code gives NaN instead. At the light the C light direction is then NaN; every comparison with NaN in `intersect_sphere` and `intersect_triangle` is false, so every other primitive reports a hit for the test ray and the C shades that point at .2 whenever the scene has another primitive, where the model's zero light direction gives the unshadowed .5.
- malloc/free: ownership is not modelled, nor are the leaks. Fresh result arrays stand for `malloc`, and the `color` buffer that the reflective branch overwrites is simply replaced.
- Materials are shared through a `Material*` in C but never written after set-up. The model passes them by value, and a `char` channel is read as an unsigned byte, as `getRayHit` does.
- VecUtil.VecMultMat4: requires `dest` to differ from `vec`, since the C loop reads all of `vec` again after writing `dest[0]`, so the result of `vec4f_mult_mat4f(v, m, v)` depends on the partial writes. That aliased call is not modelled; `dest == mat` is.
- `Vec4` and `Mat4` are value sequences in the functions. The array methods still work on arrays.
- Debug printing (`dumpSphere`, `dumpRay`, `dump_Ray_Hit`, the `printf` blocks) is left out, because it is output only.
- PNG output through `stb_image_write` and the `DEBUG` block are left out, because they are file output through a foreign library.
- The scene and material fixtures (`prepMaterials`, `prepTestScene`, `prepDKScene`) are left out, because they are constant example data.
- The 512 x 512 driver loop of `main` and the `Perspective` record are left out, beyond the pixel formula (`PixelPoint`) and the camera at the origin.
- `destroy_sphere`, `destroy_Triangle` and `destroyScene` are left out, because they only call `free`.
- The `samples/` programs are left out, because they are OpenGL demos outside the ray tracer.
