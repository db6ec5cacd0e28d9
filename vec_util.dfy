/**
 * Vector helpers of the ray tracer (raytracer/vec_util.c).
 *
 * The C routines work on `float*` arrays of three or four components and write
 * into a caller-supplied `dest`.  They are modelled as methods over `array<real>`
 * with their loops, each proved against a function over vector values (`Dot`,
 * `Sub`, `Normalize`, ...).  A three-component array is read as a `Vec3`
 * through `ToVec3`; the rest of the model computes with `Vec3` values.
 *
 * `sqrt` is not defined in Dafny: every member that needs it takes the C
 * library's square root as a table `sqrt` (an infinite map), read through
 * `Root`, and `IsSqrt` states what the C library promises of it.
 */
module VecUtil {

  datatype Vec3 = Vec3(x: real, y: real, z: real)

  type Vec4 = v: seq<real> | |v| == 4 witness [0.0, 0.0, 0.0, 0.0]
  /** A 4x4 matrix stored row-major, as `vec4f_mult_mat4f` reads it. */
  type Mat4 = m: seq<real> | |m| == 16
    witness [0.0, 0.0, 0.0, 0.0, 0.0, 0.0, 0.0, 0.0, 0.0, 0.0, 0.0, 0.0, 0.0, 0.0, 0.0, 0.0]

  /** The first three components of a `float` buffer, as a vector. */
  function ToVec3(a: seq<real>): Vec3
    requires |a| >= 3
  {
    Vec3(a[0], a[1], a[2])
  }

  /** The value the table `sqrt` gives for `x`, and 0 where it has no entry. */
  function Root(sqrt: imap<real, real>, x: real): real {
    if x in sqrt then sqrt[x] else 0.0
  }

  /** `sqrt` is the square root on the non-negative reals. */
  ghost predicate IsSqrt(sqrt: imap<real, real>) {
    forall x :: 0.0 <= x ==> 0.0 <= Root(sqrt, x) && Root(sqrt, x) * Root(sqrt, x) == x
  }

  /** Sum of `u[k] * v[k]` over `k < n`, accumulated left to right as the C loops do. */
  function SumProducts(u: seq<real>, v: seq<real>, n: nat): real
    requires n <= |u| && n <= |v|
  {
    if n == 0 then 0.0 else SumProducts(u, v, n - 1) + u[n - 1] * v[n - 1]
  }

  function Dot(u: Vec3, v: Vec3): real {
    u.x * v.x + u.y * v.y + u.z * v.z
  }

  function Sub(u: Vec3, v: Vec3): Vec3 {
    Vec3(u.x - v.x, u.y - v.y, u.z - v.z)
  }

  /** Every component of `v` multiplied by `k`. */
  function Scale(v: Vec3, k: real): Vec3 {
    Vec3(v.x * k, v.y * k, v.z * k)
  }

  predicate IsZero(v: Vec3) {
    v.x == 0.0 && v.y == 0.0 && v.z == 0.0
  }

  /**
   * `v` divided by its length.  The C code divides by zero when the length is
   * zero; the model leaves such a vector as it is.
   */
  function Normalize(v: Vec3, sqrt: imap<real, real>): Vec3 {
    var length := Root(sqrt, Dot(v, v));
    if length == 0.0 then v else Vec3(v.x / length, v.y / length, v.z / length)
  }

  function Dot4(u: Vec4, v: Vec4): real {
    u[0] * v[0] + u[1] * v[1] + u[2] * v[2] + u[3] * v[3]
  }

  predicate IsZero4(v: Vec4) {
    v[0] == 0.0 && v[1] == 0.0 && v[2] == 0.0 && v[3] == 0.0
  }

  /** The 4-vector analogue of `Normalize`, with the same guard. */
  function Normalize4(v: Vec4, sqrt: imap<real, real>): Vec4 {
    var length := Root(sqrt, Dot4(v, v));
    if length == 0.0 then v else [v[0] / length, v[1] / length, v[2] / length, v[3] / length]
  }

  /** Row `i` of a row-major matrix. */
  function Row(mat: Mat4, i: nat): Vec4
    requires i < 4
  {
    mat[4 * i .. 4 * i + 4]
  }

  /** The matrix-vector product, before normalisation. */
  function MatVec(mat: Mat4, v: Vec4): Vec4 {
    [Dot4(Row(mat, 0), v), Dot4(Row(mat, 1), v), Dot4(Row(mat, 2), v), Dot4(Row(mat, 3), v)]
  }

  // ---------------------------------------------------------------------------
  // Facts about the vector functions
  //
  // The solver handles a product best when it is named: `Mul` is plain
  // multiplication, and the arithmetic facts below are each stated over it so
  // that the vector proofs combine them linearly.

  function Mul(a: real, b: real): real { a * b }

  lemma DotAsMul(u: Vec3, v: Vec3)
    ensures Dot(u, v) == Mul(u.x, v.x) + Mul(u.y, v.y) + Mul(u.z, v.z)
  {
  }

  lemma Dot4AsMul(u: Vec4, v: Vec4)
    ensures Dot4(u, v) == Mul(u[0], v[0]) + Mul(u[1], v[1]) + Mul(u[2], v[2]) + Mul(u[3], v[3])
  {
  }

  lemma MulPositive(a: real, b: real)
    requires (a > 0.0 && b > 0.0) || (a < 0.0 && b < 0.0)
    ensures Mul(a, b) > 0.0
  {
  }

  lemma SquareNonNegative(a: real)
    ensures Mul(a, a) >= 0.0
  {
  }

  lemma SquarePositive(a: real)
    requires a != 0.0
    ensures Mul(a, a) > 0.0
  {
    MulPositive(a, a);
  }

  /** A square that equals a positive number has a nonzero root. */
  lemma RootNonZero(k: real, d: real)
    requires Mul(k, k) == d && d > 0.0
    ensures k != 0.0
  {
  }

  /** `(a / k)^2 * k^2 == a^2` for nonzero `k`. */
  lemma QuotientSquared(a: real, k: real)
    requires k != 0.0
    ensures Mul(Mul(a / k, a / k), Mul(k, k)) == Mul(a, a)
  {
    var q := a / k;
    assert q * k == a;
    assert q * q * (k * k) == (q * k) * (q * k);
  }

  lemma Distribute(x: real, y: real, d: real)
    ensures Mul(x + y, d) == Mul(x, d) + Mul(y, d)
  {
  }

  /** `x * d == d` with nonzero `d` forces `x == 1`. */
  lemma CancelFactor(x: real, d: real)
    requires d != 0.0 && Mul(x, d) == d
    ensures x == 1.0
  {
    assert x == (x * d) / d;
  }

  /** The dot product is symmetric, and a vector's square is non-negative and positive exactly for a nonzero vector. */
  lemma DotFacts(u: Vec3, v: Vec3)
    ensures Dot(u, v) == Dot(v, u)
    ensures Dot(u, u) >= 0.0
    ensures Dot(u, u) > 0.0 <==> !IsZero(u)
  {
    DotAsMul(u, u);
    SquareNonNegative(u.x);
    SquareNonNegative(u.y);
    SquareNonNegative(u.z);
    if IsZero(u) {
    } else if u.x != 0.0 {
      SquarePositive(u.x);
    } else if u.y != 0.0 {
      SquarePositive(u.y);
    } else {
      SquarePositive(u.z);
    }
  }

  /** Under a true square root, a nonzero vector has a positive length. */
  lemma LengthPositive(v: Vec3, sqrt: imap<real, real>)
    requires IsSqrt(sqrt)
    requires !IsZero(v)
    ensures Root(sqrt, Dot(v, v)) > 0.0
  {
    DotFacts(v, v);
    var d := Dot(v, v);
    assert Mul(Root(sqrt, d), Root(sqrt, d)) == d;
    RootNonZero(Root(sqrt, d), d);
  }

  /** `vec3f_normalize` gives a unit vector from any nonzero one. */
  lemma NormalizeIsUnit(v: Vec3, sqrt: imap<real, real>)
    requires IsSqrt(sqrt)
    requires !IsZero(v)
    ensures Dot(Normalize(v, sqrt), Normalize(v, sqrt)) == 1.0
    ensures !IsZero(Normalize(v, sqrt))
  {
    LengthPositive(v, sqrt);
    var d := Dot(v, v);
    var k := Root(sqrt, d);
    assert Mul(k, k) == d;
    var w := Normalize(v, sqrt);
    assert w == Vec3(v.x / k, v.y / k, v.z / k);
    QuotientSquared(v.x, k);
    QuotientSquared(v.y, k);
    QuotientSquared(v.z, k);
    DotAsMul(w, w);
    DotAsMul(v, v);
    Distribute(Mul(w.x, w.x) + Mul(w.y, w.y), Mul(w.z, w.z), Mul(k, k));
    Distribute(Mul(w.x, w.x), Mul(w.y, w.y), Mul(k, k));
    CancelFactor(Dot(w, w), d);
    DotFacts(w, w);
  }

  /** The model's `Normalize` returns a unit vector or the zero vector, so its square never exceeds one. */
  lemma NormalizeAtMostUnit(v: Vec3, sqrt: imap<real, real>)
    requires IsSqrt(sqrt)
    ensures Dot(Normalize(v, sqrt), Normalize(v, sqrt)) <= 1.0
    ensures IsZero(Normalize(v, sqrt)) <==> IsZero(v)
  {
    if IsZero(v) {
      NormalizeZero(v, sqrt);
      DotAsMul(v, v);
    } else {
      NormalizeIsUnit(v, sqrt);
    }
  }

  /** The zero vector is left as it is. */
  lemma NormalizeZero(v: Vec3, sqrt: imap<real, real>)
    requires IsZero(v)
    ensures Normalize(v, sqrt) == v
  {
    var length := Root(sqrt, Dot(v, v));
    if length != 0.0 {
      assert v.x / length == 0.0 && v.y / length == 0.0 && v.z / length == 0.0;
    }
  }

  /** Two vectors of at most unit length have a dot product in [-1, 1]. */
  lemma DotBounded(u: Vec3, v: Vec3)
    requires Dot(u, u) <= 1.0 && Dot(v, v) <= 1.0
    ensures -1.0 <= Dot(u, v) <= 1.0
  {
    var minus, plus := Sub(u, v), Sub(u, Scale(v, -1.0));
    DotFacts(minus, minus);
    DotFacts(plus, plus);
    assert Dot(minus, minus) == Dot(u, u) - 2.0 * Dot(u, v) + Dot(v, v);
    assert Dot(plus, plus) == Dot(u, u) + 2.0 * Dot(u, v) + Dot(v, v);
  }

  /** A 4-vector's square is non-negative, and positive exactly for a nonzero vector. */
  lemma Dot4Facts(v: Vec4)
    ensures Dot4(v, v) >= 0.0
    ensures Dot4(v, v) > 0.0 <==> !IsZero4(v)
  {
    Dot4AsMul(v, v);
    SquareNonNegative(v[0]);
    SquareNonNegative(v[1]);
    SquareNonNegative(v[2]);
    SquareNonNegative(v[3]);
    if IsZero4(v) {
      assert v == [0.0, 0.0, 0.0, 0.0];
    } else if v[0] != 0.0 {
      SquarePositive(v[0]);
    } else if v[1] != 0.0 {
      SquarePositive(v[1]);
    } else if v[2] != 0.0 {
      SquarePositive(v[2]);
    } else {
      SquarePositive(v[3]);
    }
  }

  lemma Length4Positive(v: Vec4, sqrt: imap<real, real>)
    requires IsSqrt(sqrt)
    requires !IsZero4(v)
    ensures Root(sqrt, Dot4(v, v)) > 0.0
  {
    Dot4Facts(v);
    var d := Dot4(v, v);
    assert Mul(Root(sqrt, d), Root(sqrt, d)) == d;
    RootNonZero(Root(sqrt, d), d);
  }

  /** `vec4f_normalize` gives a unit 4-vector from any nonzero one. */
  lemma Normalize4IsUnit(v: Vec4, sqrt: imap<real, real>)
    requires IsSqrt(sqrt)
    requires !IsZero4(v)
    ensures Dot4(Normalize4(v, sqrt), Normalize4(v, sqrt)) == 1.0
  {
    Length4Positive(v, sqrt);
    var d := Dot4(v, v);
    var k := Root(sqrt, d);
    assert Mul(k, k) == d;
    var w := Normalize4(v, sqrt);
    assert w == [v[0] / k, v[1] / k, v[2] / k, v[3] / k];
    QuotientSquared(v[0], k);
    QuotientSquared(v[1], k);
    QuotientSquared(v[2], k);
    QuotientSquared(v[3], k);
    Dot4AsMul(w, w);
    Dot4AsMul(v, v);
    Distribute(Mul(w[0], w[0]) + Mul(w[1], w[1]) + Mul(w[2], w[2]), Mul(w[3], w[3]), Mul(k, k));
    Distribute(Mul(w[0], w[0]) + Mul(w[1], w[1]), Mul(w[2], w[2]), Mul(k, k));
    Distribute(Mul(w[0], w[0]), Mul(w[1], w[1]), Mul(k, k));
    Dot4Facts(v);
    CancelFactor(Dot4(w, w), d);
  }

  /** The accumulating loop of `vec3f_dot_vec3f` computes `Dot`. */
  lemma SumProductsIsDot(u: seq<real>, v: seq<real>)
    requires |u| >= 3 && |v| >= 3
    ensures SumProducts(u, v, 3) == Dot(ToVec3(u), ToVec3(v))
  {
    assert SumProducts(u, v, 1) == u[0] * v[0];
    assert SumProducts(u, v, 2) == u[0] * v[0] + u[1] * v[1];
  }

  /** The accumulating loop of `vec4f_dot_vec4f` computes `Dot4`. */
  lemma SumProductsIsDot4(u: seq<real>, v: seq<real>)
    requires |u| >= 4 && |v| >= 4
    ensures SumProducts(u, v, 4) == Dot4(u[..4], v[..4])
  {
    assert SumProducts(u, v, 1) == u[0] * v[0];
    assert SumProducts(u, v, 2) == u[0] * v[0] + u[1] * v[1];
    assert SumProducts(u, v, 3) == u[0] * v[0] + u[1] * v[1] + u[2] * v[2];
  }

  // ---------------------------------------------------------------------------
  // The C routines

  /** `vec_cpy`: copies `size` components from `src` to `dest`; `dest` may be `src`. */
  method VecCpy(dest: array<real>, src: array<real>, size: int) returns (status: int)
    requires size <= dest.Length && size <= src.Length
    modifies dest
    ensures status == 0
    ensures forall k :: 0 <= k < size ==> dest[k] == old(src[k])
    ensures forall k :: 0 <= k < dest.Length && size <= k ==> dest[k] == old(dest[k])
  {
    for i := 0 to if size < 0 then 0 else size
      invariant forall k :: 0 <= k < i ==> dest[k] == old(src[k])
      invariant forall k :: i <= k < src.Length ==> src[k] == old(src[k])
      invariant forall k :: i <= k < dest.Length ==> dest[k] == old(dest[k])
    {
      dest[i] := src[i];
    }
    return 0;
  }

  /** `vec4f_dot_vec4f`. */
  method VecDot4(v1: array<real>, v2: array<real>) returns (output: real)
    requires v1.Length >= 4 && v2.Length >= 4
    ensures output == Dot4(v1[..4], v2[..4])
  {
    output := 0.0;
    for i := 0 to 4
      invariant output == SumProducts(v1[..], v2[..], i)
    {
      output := output + v1[i] * v2[i];
    }
    SumProductsIsDot4(v1[..], v2[..]);
  }

  /** `vec4f_normalize`: correct when `dest` is `src`, since the length is taken before any write. */
  method VecNormalize4(dest: array<real>, src: array<real>, sqrt: imap<real, real>)
    requires dest.Length >= 4 && src.Length >= 4
    requires IsSqrt(sqrt) && !IsZero4(src[..4])
    modifies dest
    ensures dest[..4] == Normalize4(old(src[..4]), sqrt)
    ensures Dot4(dest[..4], dest[..4]) == 1.0
    ensures dest[4..] == old(dest[4..])
  {
    ghost var v: Vec4 := src[..4];
    var dot := VecDot4(src, src);
    var length := Root(sqrt, dot);
    Length4Positive(v, sqrt);
    for i := 0 to 4
      invariant forall k :: 0 <= k < i ==> dest[k] == v[k] / length
      invariant forall k :: i <= k < 4 ==> src[k] == v[k]
      invariant dest[4..] == old(dest[4..])
    {
      dest[i] := src[i] / length;
    }
    assert dest[..4] == Normalize4(v, sqrt);
    Normalize4IsUnit(v, sqrt);
  }

  /** The body of the `vec4f_mult_mat4f` loop: row `i` copied into a local `v1` and dotted with `vec`. */
  method RowTimesVector(mat: array<real>, i: int, vec: array<real>) returns (product: real)
    requires mat.Length >= 16 && vec.Length >= 4 && 0 <= i < 4
    ensures product == Dot4(Row(mat[..16], i), vec[..4])
  {
    var v1 := new real[4] [mat[i * 4], mat[i * 4 + 1], mat[i * 4 + 2], mat[i * 4 + 3]];
    assert v1[..] == Row(mat[..16], i);
    product := VecDot4(v1, vec);
  }

  /**
   * `vec4f_mult_mat4f`: each component is a row of `mat` dotted with `vec`; the
   * result is then normalised in place.  `dest` may be `mat`: row `i` is copied
   * out before `dest[i]` is written, and later rows lie past index 3.
   */
  method VecMultMat4(dest: array<real>, mat: array<real>, vec: array<real>, sqrt: imap<real, real>)
    requires dest.Length >= 4 && mat.Length >= 16 && vec.Length >= 4
    requires dest != vec
    requires IsSqrt(sqrt) && !IsZero4(MatVec(mat[..16], vec[..4]))
    modifies dest
    ensures dest[..4] == Normalize4(MatVec(old(mat[..16]), vec[..4]), sqrt)
    ensures dest[4..] == old(dest[4..])
  {
    ghost var m: Mat4 := mat[..16];
    ghost var v: Vec4 := vec[..4];
    for i := 0 to 4
      invariant forall k :: 0 <= k < i ==> dest[k] == Dot4(Row(m, k), v)
      invariant forall k :: 4 * i <= k < 16 ==> mat[k] == m[k]
      invariant dest[4..] == old(dest[4..])
    {
      assert forall k :: 0 <= k < 4 ==> Row(mat[..16], i)[k] == mat[4 * i + k] == m[4 * i + k];
      assert Row(mat[..16], i) == Row(m, i);
      dest[i] := RowTimesVector(mat, i, vec);
    }
    assert dest[..4] == MatVec(m, v);
    VecNormalize4(dest, dest, sqrt);
  }

  /** `vec3f_sub_vec3f`: `dest` may be either operand. */
  method VecSub3(dest: array<real>, v1: array<real>, v2: array<real>) returns (status: int)
    requires dest.Length >= 3 && v1.Length >= 3 && v2.Length >= 3
    modifies dest
    ensures status == 0
    ensures ToVec3(dest[..]) == Sub(old(ToVec3(v1[..])), old(ToVec3(v2[..])))
    ensures dest[3..] == old(dest[3..])
  {
    ghost var a, b := v1[..3], v2[..3];
    for i := 0 to 3
      invariant forall k :: 0 <= k < i ==> dest[k] == a[k] - b[k]
      invariant forall k :: i <= k < 3 ==> v1[k] == a[k] && v2[k] == b[k]
      invariant dest[3..] == old(dest[3..])
    {
      dest[i] := v1[i] - v2[i];
    }
    assert ToVec3(dest[..]) == Sub(ToVec3(a), ToVec3(b));
    return 0;
  }

  /** `vec3f_dot_vec3f`. */
  method VecDot3(v1: array<real>, v2: array<real>) returns (out: real)
    requires v1.Length >= 3 && v2.Length >= 3
    ensures out == Dot(ToVec3(v1[..]), ToVec3(v2[..]))
  {
    out := 0.0;
    for i := 0 to 3
      invariant out == SumProducts(v1[..], v2[..], i)
    {
      out := out + v1[i] * v2[i];
    }
    SumProductsIsDot(v1[..], v2[..]);
  }

  /** `vec3f_normalize`: correct when `dest` is `src`, since the length is taken before any write. */
  method VecNormalize3(dest: array<real>, src: array<real>, sqrt: imap<real, real>)
    requires dest.Length >= 3 && src.Length >= 3
    requires IsSqrt(sqrt) && !IsZero(ToVec3(src[..]))
    modifies dest
    ensures ToVec3(dest[..]) == Normalize(old(ToVec3(src[..])), sqrt)
    ensures Dot(ToVec3(dest[..]), ToVec3(dest[..])) == 1.0
    ensures dest[3..] == old(dest[3..])
  {
    ghost var a := src[..3];
    ghost var v := ToVec3(a);
    var dot := VecDot3(src, src);
    var length := Root(sqrt, dot);
    LengthPositive(v, sqrt);
    for i := 0 to 3
      invariant forall k :: 0 <= k < i ==> dest[k] == a[k] / length
      invariant forall k :: i <= k < 3 ==> src[k] == a[k]
      invariant dest[3..] == old(dest[3..])
    {
      dest[i] := src[i] / length;
    }
    assert ToVec3(dest[..]) == Normalize(v, sqrt);
    NormalizeIsUnit(v, sqrt);
  }

  /** Normalising a vector in place, `vec3f_normalize(v, v)`, as `getRay` and `getRayHit` do. */
  method NormalizeInPlace(v: array<real>, sqrt: imap<real, real>)
    requires v.Length >= 3
    requires IsSqrt(sqrt) && !IsZero(ToVec3(v[..]))
    modifies v
    ensures ToVec3(v[..]) == Normalize(old(ToVec3(v[..])), sqrt)
    ensures v[3..] == old(v[3..])
  {
    VecNormalize3(v, v, sqrt);
  }

  /** `vec_cmp`: 1 exactly when the first `size` components agree (so 1 when `size <= 0`), else 0. */
  method VecCmp(v1: array<real>, v2: array<real>, size: int) returns (r: int)
    requires size <= v1.Length && size <= v2.Length
    ensures r == 0 || r == 1
    ensures r == 1 <==> forall k :: 0 <= k < size ==> v1[k] == v2[k]
  {
    for i := 0 to if size < 0 then 0 else size
      invariant forall k :: 0 <= k < i ==> v1[k] == v2[k]
    {
      if v1[i] != v2[i] {
        return 0;
      }
    }
    return 1;
  }
}
