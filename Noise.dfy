/**
  The noise engine of math_utils.cpp: the permutation and gradient tables,
  2D and 3D Perlin noise, the simplex gradient `Grad` and 2D simplex noise.
  Only exact real arithmetic is modelled; the `[0, 1]` and `[-1, 1]` range
  claims of the source rest on its rounded constants and are not stated.

  The noise functions read the permutation table through a parameter `perm`
  of 512 entries; the source's own table is `PermutationTable`, and
  `PermutationTableShape` proves it has the shape the lemmas below ask for.
*/
module Noise {
  import opened MathUtils

  /** A permutation-table entry: the table is declared `uint32_t`, but every entry is below 256. */
  type Byte = x: nat | x < 256

  /** The 256 initialisers listed for `PermutationTable`. */
  const ListedPermutation: seq<Byte> := [
    151, 160, 137, 91, 90, 15, 131, 13, 201, 95, 96, 53, 194, 233, 7, 225,
    140, 36, 103, 30, 69, 142, 8, 99, 37, 240, 21, 10, 23, 190, 6, 148,
    247, 120, 234, 75, 0, 26, 197, 62, 94, 252, 219, 203, 117, 35, 11, 32,
    57, 177, 33, 88, 237, 149, 56, 87, 174, 20, 125, 136, 171, 168, 68, 175,
    74, 165, 71, 134, 139, 48, 27, 166, 77, 146, 158, 231, 83, 111, 229, 122,
    60, 211, 133, 230, 220, 105, 92, 41, 55, 46, 245, 40, 244, 102, 143, 54,
    65, 25, 63, 161, 1, 216, 80, 73, 209, 76, 132, 187, 208, 89, 18, 169,
    200, 196, 135, 130, 116, 188, 159, 86, 164, 100, 109, 198, 173, 186, 3, 64,
    52, 217, 226, 250, 124, 123, 5, 202, 38, 147, 118, 126, 255, 82, 85, 212,
    207, 206, 59, 227, 47, 16, 58, 17, 182, 189, 28, 42, 223, 183, 170, 213,
    119, 248, 152, 2, 44, 154, 163, 70, 221, 153, 101, 155, 167, 43, 172, 9,
    129, 22, 39, 253, 19, 98, 108, 110, 79, 113, 224, 232, 178, 185, 112, 104,
    218, 246, 97, 228, 251, 34, 242, 193, 238, 210, 144, 12, 191, 179, 162, 241,
    81, 51, 145, 235, 249, 14, 239, 107, 49, 192, 214, 31, 181, 199, 106, 157,
    184, 84, 204, 176, 115, 121, 50, 45, 127, 4, 150, 254, 138, 236, 205, 93,
    222, 114, 67, 29, 24, 72, 243, 141, 128, 195, 78, 66, 215, 61, 156, 180
  ]

  /**
    `static uint32_t PermutationTable[512]`: only the first 256 entries are
    listed; static initialisation makes the other 256 zero (they are not a
    copy of the first half).
  */
  const PermutationTable: seq<Byte> := ListedPermutation + Zeros(256)

  /** `n` zero entries: the part of a static array that has no initialiser. */
  function Zeros(n: nat): (s: seq<Byte>)
    ensures |s| == n
    ensures forall k :: 0 <= k < n ==> s[k] == 0
  {
    if n == 0 then [] else Zeros(n - 1) + [0]
  }

  /** `Gradients2D[8]`. */
  const Gradients2D: seq<Vec2> := [
    Vec2(0.0, 1.0), Vec2(-0.7071, 0.7071), Vec2(-1.0, 0.0), Vec2(-0.7071, -0.7071),
    Vec2(0.0, -1.0), Vec2(0.7071, -0.7071), Vec2(1.0, 0.0), Vec2(0.7071, 0.7071)
  ]

  /** `Gradients3D[16]`; the last four repeat earlier directions. */
  const Gradients3D: seq<Vec3> := [
    Vec3(0.7071, 0.7071, 0.0), Vec3(-0.7071, 0.7071, 0.0), Vec3(0.7071, -0.7071, 0.0), Vec3(-0.7071, -0.7071, 0.0),
    Vec3(0.7071, 0.0, 0.7071), Vec3(-0.7071, 0.0, 0.7071), Vec3(0.7071, 0.0, -0.7071), Vec3(-0.7071, 0.0, -0.7071),
    Vec3(0.0, 0.7071, 0.7071), Vec3(0.0, -0.7071, 0.7071), Vec3(0.0, 0.7071, -0.7071), Vec3(0.0, -0.7071, -0.7071),
    Vec3(0.7071, 0.7071, 0.0), Vec3(-0.7071, 0.7071, 0.0), Vec3(0.0, -0.7071, 0.7071), Vec3(0.0, -0.7071, -0.7071)
  ]

  /** The Perlin output is shifted by this offset ... */
  const PerlinOffset: real := 0.7071
  /** ... and then multiplied by this factor. */
  const PerlinScale: real := 0.70711356243812756328666383821242

  /** The upper half of a 512-entry table is zero, as in the source's table. */
  predicate UpperHalfZero(perm: seq<Byte>)
  {
    |perm| == 512 && forall k :: 256 <= k < 512 ==> perm[k] == 0
  }

  /** The table has 512 entries, the listed ones first, and its upper half is zero. */
  lemma PermutationTableShape()
    ensures |PermutationTable| == 512
    ensures PermutationTable[..256] == ListedPermutation
    ensures UpperHalfZero(PermutationTable)
  {
  }

  // ---------------------------------------------------------------------
  // Lattice hashing
  // ---------------------------------------------------------------------

  /**
    `Index & (ArrayCount(PermutationTable) - 1)`. On two's complement
    integers masking with 511 is the Euclidean remainder by 512: the unique
    `k` in [0, 512) that differs from `index` by a multiple of 512.
  */
  function PermutationMask(index: int): (k: nat)
    ensures k < 512
    ensures (index - k) % 512 == 0
  {
    index % 512
  }

  /** `PermutationTable[Index & 511]`: in the zero half of the table the lookup is 0. */
  function Permute(perm: seq<Byte>, index: int): (r: Byte)
    requires |perm| == 512
    ensures UpperHalfZero(perm) && 256 <= index % 512 ==> r == 0
  {
    perm[PermutationMask(index)]
  }

  /** The lookup repeats with period 512. */
  lemma PermutePeriodic(perm: seq<Byte>, index: int)
    requires |perm| == 512
    ensures Permute(perm, index + 512) == Permute(perm, index)
  {
  }

  /** `PermutationTable[Hash & 511] & (ArrayCount(Gradients2D) - 1)`: always a valid gradient. */
  function GradientIndex2D(perm: seq<Byte>, hash: int): (g: nat)
    requires |perm| == 512
    ensures g < |Gradients2D|
    ensures (Permute(perm, hash) - g) % 8 == 0
  {
    Permute(perm, hash) % |Gradients2D|
  }

  /** `PermutationTable[Hash & 511] & (ArrayCount(Gradients3D) - 1)`: always a valid gradient. */
  function GradientIndex3D(perm: seq<Byte>, hash: int): (g: nat)
    requires |perm| == 512
    ensures g < |Gradients3D|
    ensures (Permute(perm, hash) - g) % 16 == 0
  {
    Permute(perm, hash) % |Gradients3D|
  }

  /** The gradient indices of the four corners of 2D lattice cell (i, j), in the order 00, 10, 01, 11. */
  function PerlinGradientIndices2D(perm: seq<Byte>, i: int, j: int): (g: seq<nat>)
    requires |perm| == 512
    ensures |g| == 4
    ensures forall c :: 0 <= c < 4 ==> g[c] < |Gradients2D|
  {
    var permI := Permute(perm, i);
    var permI1 := Permute(perm, i + 1);
    [GradientIndex2D(perm, permI + j), GradientIndex2D(perm, permI1 + j),
     GradientIndex2D(perm, permI + j + 1), GradientIndex2D(perm, permI1 + j + 1)]
  }

  /**
    The gradient indices of the eight corners of 3D lattice cell (i, j, k),
    in the order 000, 100, 010, 110, 001, 101, 011, 111.
  */
  function PerlinGradientIndices3D(perm: seq<Byte>, i: int, j: int, k: int): (g: seq<nat>)
    requires |perm| == 512
    ensures |g| == 8
    ensures forall c :: 0 <= c < 8 ==> g[c] < |Gradients3D|
  {
    var permI := Permute(perm, i);
    var permI1 := Permute(perm, i + 1);
    var permJI := Permute(perm, j + permI);
    var permJ1I := Permute(perm, (j + 1) + permI);
    var permJI1 := Permute(perm, j + permI1);
    var permJ1I1 := Permute(perm, (j + 1) + permI1);
    [GradientIndex3D(perm, k + permJI), GradientIndex3D(perm, k + permJI1),
     GradientIndex3D(perm, k + permJ1I), GradientIndex3D(perm, k + permJ1I1),
     GradientIndex3D(perm, (k + 1) + permJI), GradientIndex3D(perm, (k + 1) + permJI1),
     GradientIndex3D(perm, (k + 1) + permJ1I), GradientIndex3D(perm, (k + 1) + permJ1I1)]
  }

  // ---------------------------------------------------------------------
  // Perlin noise
  // ---------------------------------------------------------------------

  /** The quintic fade `t^3 (t (6t - 15) + 10)`: 0 at 0, 1 at 1, and within [0, 1] between. */
  function Quintic(t: real): (q: real)
    ensures t == 0.0 ==> q == 0.0
    ensures t == 1.0 ==> q == 1.0
    ensures 0.0 <= t <= 1.0 ==> 0.0 <= q <= 1.0
  {
    var q := t * t * t * (t * (6.0 * t - 15.0) + 10.0);
    QuinticInUnitInterval(t, q);
    q
  }

  lemma QuinticInUnitInterval(t: real, q: real)
    requires q == t * t * t * (t * (6.0 * t - 15.0) + 10.0)
    ensures 0.0 <= t <= 1.0 ==> 0.0 <= q <= 1.0
  {
    if 0.0 <= t <= 1.0 {
      var cube := t * t * t;
      var rest := 1.0 - t;
      var restCube := rest * rest * rest;
      MulNonNegative(t, t);
      MulNonNegative(t * t, t);
      MulNonNegative(rest, rest);
      MulNonNegative(rest * rest, rest);
      // 6t^2 - 15t + 10 = 1 + 3 (1 - t)(3 - 2t) >= 1
      MulNonNegative(rest, 3.0 - 2.0 * t);
      assert t * (6.0 * t - 15.0) + 10.0 == 1.0 + 3.0 * (rest * (3.0 - 2.0 * t));
      MulNonNegative(cube, t * (6.0 * t - 15.0) + 10.0);
      // 1 - q = (1 - t)^3 (6t^2 + 3t + 1)
      MulNonNegative(t, 6.0 * t + 3.0);
      MulNonNegative(restCube, t * (6.0 * t + 3.0) + 1.0);
      assert 1.0 - q == restCube * (t * (6.0 * t + 3.0) + 1.0);
    }
  }

  /** The fade is symmetric: fading from the other end gives the complement. */
  lemma QuinticSymmetric(t: real)
    ensures Quintic(1.0 - t) == 1.0 - Quintic(t)
  {
  }

  /** The gradients of the four corners of 2D lattice cell (i, j), in the order 00, 10, 01, 11. */
  function PerlinGradients2D(perm: seq<Byte>, i: int, j: int): (grads: seq<Vec2>)
    requires |perm| == 512
    ensures |grads| == 4
  {
    var g := PerlinGradientIndices2D(perm, i, j);
    [Gradients2D[g[0]], Gradients2D[g[1]], Gradients2D[g[2]], Gradients2D[g[3]]]
  }

  /** The gradients of the eight corners of 3D lattice cell (i, j, k), in the order 000, 100, ..., 111. */
  function PerlinGradients3D(perm: seq<Byte>, i: int, j: int, k: int): (grads: seq<Vec3>)
    requires |perm| == 512
    ensures |grads| == 8
  {
    var g := PerlinGradientIndices3D(perm, i, j, k);
    [Gradients3D[g[0]], Gradients3D[g[1]], Gradients3D[g[2]], Gradients3D[g[3]],
     Gradients3D[g[4]], Gradients3D[g[5]], Gradients3D[g[6]], Gradients3D[g[7]]]
  }

  /**
    The raw 2D Perlin value inside one lattice cell: the four gradient ramps
    at offset (u, v), blended by the quintic fades.
  */
  function PerlinCell2D(grads: seq<Vec2>, u: real, v: real): (r: real)
    requires |grads| == 4
    ensures (u == 0.0 || u == 1.0) && (v == 0.0 || v == 1.0) ==> r == 0.0
  {
    var ramp00 := Dot2(grads[0], Vec2(u, v));
    var ramp10 := Dot2(grads[1], Vec2(u - 1.0, v));
    var ramp01 := Dot2(grads[2], Vec2(u, v - 1.0));
    var ramp11 := Dot2(grads[3], Vec2(u - 1.0, v - 1.0));
    var qu := Quintic(u);
    var qv := Quintic(v);
    var x0 := ramp00 * (1.0 - qu) + ramp10 * qu;
    var x1 := ramp01 * (1.0 - qu) + ramp11 * qu;
    x0 * (1.0 - qv) + x1 * qv
  }

  /** `PerlinNoise2D(vec2 P)`, reading the permutation table `perm`. */
  function PerlinNoise2D(perm: seq<Byte>, p: Vec2): (r: real)
    requires |perm| == 512
    ensures FractionalPart(p.x) == 0.0 && FractionalPart(p.y) == 0.0 ==> r == PerlinOffset * PerlinScale
  {
    var i := FloorReal32ToInt32(p.x);
    var j := FloorReal32ToInt32(p.y);
    var raw := PerlinCell2D(PerlinGradients2D(perm, i, j), FractionalPart(p.x), FractionalPart(p.y));
    (raw + PerlinOffset) * PerlinScale
  }

  /**
    The raw 3D Perlin value inside one lattice cell. The four corners with the
    upper K coordinate use the offset `1 - T`, not `T - 1`, exactly as the
    source writes them.
  */
  function PerlinCell3D(grads: seq<Vec3>, u: real, v: real, t: real): (r: real)
    requires |grads| == 8
    ensures (u == 0.0 || u == 1.0) && (v == 0.0 || v == 1.0) && (t == 0.0 || t == 1.0) ==> r == 0.0
  {
    var ramp000 := Dot3(grads[0], Vec3(u, v, t));
    var ramp100 := Dot3(grads[1], Vec3(u - 1.0, v, t));
    var ramp010 := Dot3(grads[2], Vec3(u, v - 1.0, t));
    var ramp110 := Dot3(grads[3], Vec3(u - 1.0, v - 1.0, t));
    var ramp001 := Dot3(grads[4], Vec3(u, v, 1.0 - t));
    var ramp101 := Dot3(grads[5], Vec3(u - 1.0, v, 1.0 - t));
    var ramp011 := Dot3(grads[6], Vec3(u, v - 1.0, 1.0 - t));
    var ramp111 := Dot3(grads[7], Vec3(u - 1.0, v - 1.0, 1.0 - t));
    var qu := Quintic(u);
    var qv := Quintic(v);
    var qt := Quintic(t);
    var x00 := ramp000 * (1.0 - qu) + ramp100 * qu;
    var x10 := ramp010 * (1.0 - qu) + ramp110 * qu;
    var y0 := x00 * (1.0 - qv) + x10 * qv;
    var x01 := ramp001 * (1.0 - qu) + ramp101 * qu;
    var x11 := ramp011 * (1.0 - qu) + ramp111 * qu;
    var y1 := x01 * (1.0 - qv) + x11 * qv;
    y0 * (1.0 - qt) + y1 * qt
  }

  /** `PerlinNoise3D(vec3 P)`, reading the permutation table `perm`. */
  function PerlinNoise3D(perm: seq<Byte>, p: Vec3): (r: real)
    requires |perm| == 512
    ensures FractionalPart(p.x) == 0.0 && FractionalPart(p.y) == 0.0 && FractionalPart(p.z) == 0.0 ==>
      r == PerlinOffset * PerlinScale
  {
    var i := FloorReal32ToInt32(p.x);
    var j := FloorReal32ToInt32(p.y);
    var k := FloorReal32ToInt32(p.z);
    var raw := PerlinCell3D(PerlinGradients3D(perm, i, j, k), FractionalPart(p.x), FractionalPart(p.y), FractionalPart(p.z));
    (raw + PerlinOffset) * PerlinScale
  }

  /**
    Proof helper: unfolds `PerlinNoise2D` for a named cell (i, j), for the
    lattice and periodicity proofs. It states no property of its own.
  */
  lemma PerlinNoise2DInCell(perm: seq<Byte>, p: Vec2, i: int, j: int)
    requires |perm| == 512
    requires i == FloorReal32ToInt32(p.x) && j == FloorReal32ToInt32(p.y)
    ensures PerlinNoise2D(perm, p)
         == (PerlinCell2D(PerlinGradients2D(perm, i, j), FractionalPart(p.x), FractionalPart(p.y)) + PerlinOffset) * PerlinScale
  {
  }

  /**
    Proof helper: unfolds `PerlinNoise3D` for a named cell (i, j, k), for
    the lattice proof. It states no property of its own.
  */
  lemma PerlinNoise3DInCell(perm: seq<Byte>, p: Vec3, i: int, j: int, k: int)
    requires |perm| == 512
    requires i == FloorReal32ToInt32(p.x) && j == FloorReal32ToInt32(p.y) && k == FloorReal32ToInt32(p.z)
    ensures PerlinNoise3D(perm, p)
         == (PerlinCell3D(PerlinGradients3D(perm, i, j, k), FractionalPart(p.x), FractionalPart(p.y), FractionalPart(p.z)) + PerlinOffset) * PerlinScale
  {
  }

  /** At every lattice point the 2D noise is the fixed midpoint `0.7071 * 0.70711...`. */
  lemma PerlinNoise2DAtLattice(perm: seq<Byte>, a: int, b: int)
    requires |perm| == 512
    ensures PerlinNoise2D(perm, Vec2(a as real, b as real)) == PerlinOffset * PerlinScale
  {
    FloorOfInteger(a);
    FloorOfInteger(b);
    FractionalPartOfInteger(a);
    FractionalPartOfInteger(b);
    PerlinNoise2DInCell(perm, Vec2(a as real, b as real), a, b);
  }

  /** At every lattice point the 3D noise is the same midpoint. */
  lemma PerlinNoise3DAtLattice(perm: seq<Byte>, a: int, b: int, c: int)
    requires |perm| == 512
    ensures PerlinNoise3D(perm, Vec3(a as real, b as real, c as real)) == PerlinOffset * PerlinScale
  {
    FloorOfInteger(a);
    FloorOfInteger(b);
    FloorOfInteger(c);
    FractionalPartOfInteger(a);
    FractionalPartOfInteger(b);
    FractionalPartOfInteger(c);
    PerlinNoise3DInCell(perm, Vec3(a as real, b as real, c as real), a, b, c);
  }

  /** The 512-entry mask makes 2D Perlin noise periodic with period 512 along x ... */
  lemma PerlinNoise2DPeriodicX(perm: seq<Byte>, p: Vec2)
    requires |perm| == 512
    ensures PerlinNoise2D(perm, Vec2(p.x + 512.0, p.y)) == PerlinNoise2D(perm, p)
  {
    FloorShift(p.x, 512);
    var i := FloorReal32ToInt32(p.x);
    var j := FloorReal32ToInt32(p.y);
    PermutePeriodic(perm, i);
    PermutePeriodic(perm, i + 1);
    assert PerlinGradients2D(perm, i + 512, j) == PerlinGradients2D(perm, i, j);
    PerlinNoise2DInCell(perm, p, i, j);
    PerlinNoise2DInCell(perm, Vec2(p.x + 512.0, p.y), i + 512, j);
    FractionalPartShift(p.x, 512);
  }

  /** ... and along y. */
  lemma PerlinNoise2DPeriodicY(perm: seq<Byte>, p: Vec2)
    requires |perm| == 512
    ensures PerlinNoise2D(perm, Vec2(p.x, p.y + 512.0)) == PerlinNoise2D(perm, p)
  {
    FloorShift(p.y, 512);
    var i := FloorReal32ToInt32(p.x);
    var j := FloorReal32ToInt32(p.y);
    GradientsPeriodicY(perm, i, j);
    PerlinNoise2DInCell(perm, p, i, j);
    PerlinNoise2DInCell(perm, Vec2(p.x, p.y + 512.0), i, j + 512);
    FractionalPartShift(p.y, 512);
  }

  /** Shifting the lattice row by 512 leaves the cell's four gradients unchanged. */
  lemma GradientsPeriodicY(perm: seq<Byte>, i: int, j: int)
    requires |perm| == 512
    ensures PerlinGradients2D(perm, i, j + 512) == PerlinGradients2D(perm, i, j)
  {
    var permI := Permute(perm, i);
    var permI1 := Permute(perm, i + 1);
    PermutePeriodic(perm, permI + j);
    PermutePeriodic(perm, permI1 + j);
    PermutePeriodic(perm, permI + j + 1);
    PermutePeriodic(perm, permI1 + j + 1);
  }

  /**
    Because the upper half of the source's table is zero, every lattice
    column whose masked index lies in [256, 509] hashes alike: there the 2D
    noise repeats with period 1 along x.
  */
  lemma PerlinNoise2DRepeatsInZeroBand(perm: seq<Byte>, p: Vec2)
    requires UpperHalfZero(perm)
    requires 256 <= FloorReal32ToInt32(p.x) % 512 <= 509
    ensures PerlinNoise2D(perm, Vec2(p.x + 1.0, p.y)) == PerlinNoise2D(perm, p)
  {
    FloorShift(p.x, 1);
    var i := FloorReal32ToInt32(p.x);
    var j := FloorReal32ToInt32(p.y);
    ZeroBandGradients(perm, i, j);
    PerlinNoise2DInCell(perm, p, i, j);
    PerlinNoise2DInCell(perm, Vec2(p.x + 1.0, p.y), i + 1, j);
    FractionalPartShift(p.x, 1);
  }

  /** Neighbouring cells in the zero band get the same four gradients. */
  lemma ZeroBandGradients(perm: seq<Byte>, i: int, j: int)
    requires UpperHalfZero(perm)
    requires 256 <= i % 512 <= 509
    ensures PerlinGradients2D(perm, i + 1, j) == PerlinGradients2D(perm, i, j)
  {
    assert (i + 1) % 512 == i % 512 + 1 && (i + 2) % 512 == i % 512 + 2;
    assert Permute(perm, i) == 0 && Permute(perm, i + 1) == 0 && Permute(perm, i + 2) == 0;
  }

  // ---------------------------------------------------------------------
  // Simplex noise
  // ---------------------------------------------------------------------

  /** The eight simplex gradients `±X ± 2Y` and `±Y ± 2X`, as a table indexed by `Hash & 7`. */
  function SimplexGradientTable(x: real, y: real): seq<real>
  {
    [x + 2.0 * y, -x + 2.0 * y, x - 2.0 * y, -x - 2.0 * y,
     y + 2.0 * x, -y + 2.0 * x, y - 2.0 * x, -y - 2.0 * x]
  }

  /**
    `Grad(Hash, X, Y)`: the low three bits of the hash choose the gradient;
    `H < 4` puts `X` first, bit 0 negates the first term and bit 1 the second.
  */
  function Grad(hash: int, x: real, y: real): (r: real)
    ensures r == SimplexGradientTable(x, y)[hash % 8]
  {
    var h := hash % 8;
    var u := if h < 4 then x else y;
    var v := if h < 4 then y else x;
    (if h % 2 != 0 then -u else u) + (if (h / 2) % 2 != 0 then -2.0 * v else 2.0 * v)
  }

  /** `Grad` depends on the hash only through its low three bits. */
  lemma GradLowBits(hash1: int, hash2: int, x: real, y: real)
    requires hash1 % 8 == hash2 % 8
    ensures Grad(hash1, x, y) == Grad(hash2, x, y)
  {
  }

  /** C's `%` on `int`: the remainder of truncating division, with the sign of the dividend. */
  function TruncatedRemainder(a: int, n: nat): (r: int)
    requires n > 0
    ensures Absolute(r) == Absolute(a) % n
    ensures 0 <= a ==> 0 <= r
    ensures a < 0 ==> r <= 0
  {
    if a >= 0 then a % n else -((-a) % n)
  }

  /** `Absolute(i % 256)`: the wrapped simplex lattice coordinate. */
  function WrapIndex(i: int): (w: nat)
    ensures w <= 255
    ensures w == Absolute(i) % 256
  {
    Absolute(TruncatedRemainder(i, 256))
  }

  /** The wrap folds negative coordinates onto positive ones: `ii` is the same for i and -i. */
  lemma WrapIndexMirrors(i: int)
    ensures WrapIndex(-i) == WrapIndex(i)
  {
  }

  /** `ii + di + PermutationTable[jj + dj]`: the index of a simplex corner lookup, always in the table. */
  function SimplexLookupIndex(perm: seq<Byte>, ii: nat, jj: nat, di: nat, dj: nat): (k: nat)
    requires |perm| == 512
    requires ii <= 255 && jj <= 255 && di <= 1 && dj <= 1
    ensures k < |perm|
    ensures ii + di <= k <= ii + di + 255
  {
    ii + di + perm[jj + dj]
  }

  /** One simplex corner: zero once the squared distance exceeds 0.5, else `t^4 * Grad`. */
  function SimplexCorner(hash: int, dx: real, dy: real): (n: real)
    ensures dx * dx + dy * dy > 0.5 ==> n == 0.0
    ensures dx == 0.0 && dy == 0.0 ==> n == 0.0
  {
    var t := 0.5 - dx * dx - dy * dy;
    if t < 0.0 then 0.0
    else
      var t2 := t * t;
      t2 * t2 * Grad(hash, dx, dy)
  }

  const F2: real := 0.366025403
  const G2: real := 0.211324865

  /**
    The hash of one simplex corner: `PermutationTable[ii + di + PermutationTable[jj + dj]]`.
    With a zero upper half, an outer lookup that lands there reads 0, and an
    inner lookup that lands there leaves the outer index at `ii + di`.
  */
  function SimplexHash(perm: seq<Byte>, ii: nat, jj: nat, di: nat, dj: nat): (h: Byte)
    requires |perm| == 512
    requires ii <= 255 && jj <= 255 && di <= 1 && dj <= 1
    ensures UpperHalfZero(perm) && 256 <= SimplexLookupIndex(perm, ii, jj, di, dj) ==> h == 0
    ensures UpperHalfZero(perm) && 256 <= jj + dj ==> h == perm[ii + di]
  {
    perm[SimplexLookupIndex(perm, ii, jj, di, dj)]
  }

  /**
    The three corner contributions of the simplex cell (i, j), for a point at
    offset (x0, y0) from the cell origin, scaled by 40. At the origin itself
    the first corner sits on the point and the other two lie beyond the
    radius, so the value is 0.
  */
  function SimplexCell(perm: seq<Byte>, i: int, j: int, x0: real, y0: real): (r: real)
    requires |perm| == 512
    ensures x0 == 0.0 && y0 == 0.0 ==> r == 0.0
  {
    var i1 := if x0 > y0 then 1 else 0;
    var j1 := if x0 > y0 then 0 else 1;
    var x1 := x0 - i1 as real + G2;
    var y1 := y0 - j1 as real + G2;
    var x2 := x0 - 1.0 + 2.0 * G2;
    var y2 := y0 - 1.0 + 2.0 * G2;
    var ii := WrapIndex(i);
    var jj := WrapIndex(j);
    var n0 := SimplexCorner(SimplexHash(perm, ii, jj, 0, 0), x0, y0);
    var n1 := SimplexCorner(SimplexHash(perm, ii, jj, i1, j1), x1, y1);
    var n2 := SimplexCorner(SimplexHash(perm, ii, jj, 1, 1), x2, y2);
    40.0 * (n0 + n1 + n2)
  }

  /** `SimplexNoise2D(x, y)`, reading the permutation table `perm`; it vanishes at the origin. */
  function SimplexNoise2D(perm: seq<Byte>, x: real, y: real): (r: real)
    requires |perm| == 512
    ensures x == 0.0 && y == 0.0 ==> r == 0.0
  {
    FloorOfInteger(0);
    var s := (x + y) * F2;
    var i := FloorReal32ToInt32(x + s);
    var j := FloorReal32ToInt32(y + s);
    var t := (i + j) as real * G2;
    SimplexCell(perm, i, j, x - (i as real - t), y - (j as real - t))
  }

  /**
    The cell value depends on the cell only through `Absolute(i % 256)` and
    `Absolute(j % 256)`: it repeats every 256 cells on the non-negative side
    and mirrors negative cells onto positive ones, rather than repeating
    across zero.
  */
  lemma SimplexCellWraps(perm: seq<Byte>, i: int, j: int, x0: real, y0: real)
    requires |perm| == 512
    ensures 0 <= i ==> SimplexCell(perm, i + 256, j, x0, y0) == SimplexCell(perm, i, j, x0, y0)
    ensures 0 <= j ==> SimplexCell(perm, i, j + 256, x0, y0) == SimplexCell(perm, i, j, x0, y0)
    ensures SimplexCell(perm, -i, -j, x0, y0) == SimplexCell(perm, i, j, x0, y0)
  {
    WrapIndexMirrors(i);
    WrapIndexMirrors(j);
    if 0 <= i {
      WrapIndexShift(i);
    }
    if 0 <= j {
      WrapIndexShift(j);
    }
  }

  /** On the non-negative side the wrap repeats every 256 cells. */
  lemma WrapIndexShift(i: int)
    requires 0 <= i
    ensures WrapIndex(i + 256) == WrapIndex(i)
  {
  }
}
