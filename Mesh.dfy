/**
  `CalculateNormal` and `GenerateTerrain` of main.cpp: the height map is
  filled from four octaves of Perlin noise, eroded, and turned into one
  vertex and one normal per grid point, in row-major order, and a
  triangle-strip index buffer that runs row by row with a degenerate pair
  after every row.
*/
module Mesh {
  import opened MathUtils
  import opened Grid
  import opened Noise
  import opened Erosion

  /** `GridWidth`, `GridHeight`: the grid `GenerateTerrain` builds. */
  const GridWidth: nat := 512
  const GridHeight: nat := 512
  /** `TerrainWidth`, `TerrainHeight`, `MaxHeight`: the extent of the terrain in world units. */
  const TerrainWidth: real := 32.0
  const TerrainHeight: real := 32.0
  const MaxHeight: real := 10.0
  /** The base frequency of the noise octaves. */
  const NoiseFrequency: real := 0.01345

  // ---------------------------------------------------------------------
  // Normals
  // ---------------------------------------------------------------------

  /** `if(X == 0) X = 1; if(X == GridWidth) X = GridWidth - 1;`: a coordinate pulled off the border. */
  function ClampInterior(v: nat, n: nat): (r: nat)
    requires 2 <= n && v <= n
    ensures 1 <= r <= n - 1
    ensures 1 <= v <= n - 1 ==> r == v
    ensures v == 0 ==> r == 1
    ensures v == n ==> r == n - 1
  {
    var a := if v == 0 then 1 else v;
    if a == n then n - 1 else a
  }

  /**
    The indices of the left, right, down and up neighbours that
    `CalculateNormal` reads for grid point (x, z): all inside the height map.
  */
  function NeighbourIndices(width: nat, height: nat, x: nat, z: nat): (g: seq<nat>)
    requires 2 <= width && 2 <= height
    requires x <= width && z <= height
    ensures |g| == 4
    ensures forall k :: 0 <= k < 4 ==> g[k] < PointCount(width, height)
    ensures var cx := ClampInterior(x, width); var cz := ClampInterior(z, height);
      g[0] == GridIndex(width, cx - 1, cz) && g[1] == GridIndex(width, cx + 1, cz) &&
      g[2] == GridIndex(width, cx, cz - 1) && g[3] == GridIndex(width, cx, cz + 1)
  {
    var cx := ClampInterior(x, width);
    var cz := ClampInterior(z, height);
    GridIndexInBounds(width, height, cx - 1, cz);
    GridIndexInBounds(width, height, cx + 1, cz);
    GridIndexInBounds(width, height, cx, cz - 1);
    GridIndexInBounds(width, height, cx, cz + 1);
    [GridIndex(width, cx - 1, cz), GridIndex(width, cx + 1, cz), GridIndex(width, cx, cz - 1), GridIndex(width, cx, cz + 1)]
  }

  /** `vec3(HeightLeft - HeightRight, 0.125f, HeightUp - HeightDown)`: the normal before normalisation. */
  function NormalDirection(hm: seq<real>, width: nat, height: nat, x: nat, z: nat): (n: Vec3)
    requires |hm| == PointCount(width, height)
    requires 2 <= width && 2 <= height
    requires x <= width && z <= height
    ensures n.y == 0.125
  {
    var g := NeighbourIndices(width, height, x, z);
    Vec3(hm[g[0]] - hm[g[1]], 0.125, hm[g[3]] - hm[g[2]])
  }

  /**
    `CalculateNormal`: the unit vector along the central differences of the
    clamped point; it always points up.
  */
  function CalculateNormal(hm: seq<real>, width: nat, height: nat, x: nat, z: nat, sqrt: real -> real): (n: Vec3)
    requires IsSquareRoot(sqrt)
    requires |hm| == PointCount(width, height)
    requires 2 <= width && 2 <= height
    requires x <= width && z <= height
    ensures Dot3(n, n) == 1.0
    ensures 0.0 < n.y
  {
    var v := NormalDirection(hm, width, height, x, z);
    SquareNonNegative(v.x);
    SquareNonNegative(v.z);
    Normalize3(v, sqrt)
  }

  /**
    The normal points along the central differences: it is parallel to
    `(HeightLeft - HeightRight, 0.125, HeightUp - HeightDown)`, with the same signs.
  */
  lemma NormalAlongDirection(hm: seq<real>, width: nat, height: nat, x: nat, z: nat, sqrt: real -> real)
    requires IsSquareRoot(sqrt)
    requires |hm| == PointCount(width, height)
    requires 2 <= width && 2 <= height
    requires x <= width && z <= height
    ensures var n := CalculateNormal(hm, width, height, x, z, sqrt); var v := NormalDirection(hm, width, height, x, z);
      n.x * v.y == v.x * n.y && n.y * v.z == v.y * n.z &&
      (0.0 < n.x <==> 0.0 < v.x) && (n.x < 0.0 <==> v.x < 0.0) && (0.0 < n.z <==> 0.0 < v.z) && (n.z < 0.0 <==> v.z < 0.0)
  {
    var v := NormalDirection(hm, width, height, x, z);
    SquareNonNegative(v.x);
    SquareNonNegative(v.z);
  }

  /** On a flat height map every normal is straight up. */
  lemma FlatNormal(hm: seq<real>, width: nat, height: nat, x: nat, z: nat, sqrt: real -> real)
    requires IsSquareRoot(sqrt)
    requires |hm| == PointCount(width, height)
    requires 2 <= width && 2 <= height
    requires x <= width && z <= height
    requires forall k :: 0 <= k < |hm| ==> hm[k] == hm[0]
    ensures CalculateNormal(hm, width, height, x, z, sqrt) == Vec3(0.0, 1.0, 0.0)
  {
    var n := CalculateNormal(hm, width, height, x, z, sqrt);
    var v := NormalDirection(hm, width, height, x, z);
    NormalAlongDirection(hm, width, height, x, z, sqrt);
    assert v.x == 0.0 && v.z == 0.0;
    assert n.x * 0.125 == 0.0 && 0.125 * n.z == 0.0;
    assert n.y * n.y == 1.0;
    var a := n.y - 1.0;
    var b := n.y + 1.0;
    assert a * b == 0.0;
    assert a == a * b / b;
  }

  // ---------------------------------------------------------------------
  // Height map
  // ---------------------------------------------------------------------

  /** `1.5*(0.5*Noise + 0.5)` and the like: one octave of noise moved from [-1, 1] towards [0, amplitude]. */
  function Octave(perm: seq<Byte>, amplitude: real, frequency: real, x: nat, z: nat): (r: real)
    requires |perm| == 512
    ensures x == 0 && z == 0 ==> r == amplitude * (0.5 * (PerlinOffset * PerlinScale) + 0.5)
  {
    var p := Vec2(frequency * NoiseFrequency * x as real, -frequency * NoiseFrequency * z as real);
    assert x == 0 && z == 0 ==> PerlinNoise2D(perm, p) == PerlinOffset * PerlinScale by {
      if x == 0 && z == 0 {
        assert p == Vec2(0 as real, 0 as real);
        PerlinNoise2DAtLattice(perm, 0, 0);
      }
    }
    amplitude * (0.5 * PerlinNoise2D(perm, p) + 0.5)
  }

  /** The height `GenerateTerrain` gives grid point (x, z): `MaxHeight` times four octaves of noise. */
  function TerrainHeightAt(perm: seq<Byte>, x: nat, z: nat): (r: real)
    requires |perm| == 512
    ensures x == 0 && z == 0 ==> r == MaxHeight * 2.375 * (0.5 * (PerlinOffset * PerlinScale) + 0.5)
  {
    MaxHeight * (Octave(perm, 1.5, 0.5, x, z) + Octave(perm, 0.5, 1.0, x, z) + Octave(perm, 0.25, 2.0, x, z) + Octave(perm, 0.125, 4.0, x, z))
  }

  /** The noise height as a function of the grid point. */
  function HeightFn(perm: seq<Byte>): (nat, nat) --> real
  {
    (x: nat, z: nat) requires |perm| == 512 => TerrainHeightAt(perm, x, z)
  }

  /**
    The first pair of loops of `GenerateTerrain`: every grid point (x, z)
    gets the height `heightAt(x, z)`, row by row, so the height map holds
    those heights in row-major order.
  */
  method FillHeightMap(hm: array<real>, width: nat, height: nat, heightAt: (nat, nat) --> real)
    requires DefinedOnRows(heightAt, width, height + 1)
    requires hm.Length == PointCount(width, height)
    modifies hm
    ensures hm[..] == GridRows(heightAt, width, height + 1)
  {
    var z := 0;
    while z <= height
      invariant z <= height + 1
      invariant z * (width + 1) <= hm.Length
      invariant hm[..z * (width + 1)] == GridRows(heightAt, width, z)
    {
      MulSucc(z, width + 1);
      MulMonotone(z + 1, height + 1, width + 1);
      FillRow(hm, width, heightAt, z, z * (width + 1));
      z := z + 1;
    }
    assert hm[..] == hm[..(height + 1) * (width + 1)];
  }

  /** One row of the fill: row z, which starts at `base`, is written and the rows before it are kept. */
  method FillRow(hm: array<real>, width: nat, heightAt: (nat, nat) --> real, z: nat, base: nat)
    requires DefinedOnRows(heightAt, width, z + 1)
    requires base + width + 1 <= hm.Length
    requires hm[..base] == GridRows(heightAt, width, z)
    modifies hm
    ensures hm[..base + width + 1] == GridRows(heightAt, width, z + 1)
  {
    var x := 0;
    while x <= width
      invariant x <= width + 1
      invariant hm[..base + x] == GridRows(heightAt, width, z) + GridRow(heightAt, width, z, x)
    {
      ghost var done := hm[..base + x];
      hm[base + x] := heightAt(x, z);
      assert hm[..base + x + 1] == done + [heightAt(x, z)] by {
        assert hm[..base + x] == done;
      }
      x := x + 1;
    }
  }

  /** After the fill, the height of grid point (X, Z) is its noise height. */
  lemma FilledHeight(perm: seq<Byte>, width: nat, height: nat, x: nat, z: nat)
    requires |perm| == 512
    requires x <= width && z <= height
    ensures GridIndex(width, x, z) < |GridRows(HeightFn(perm), width, height + 1)|
    ensures GridRows(HeightFn(perm), width, height + 1)[GridIndex(width, x, z)] == TerrainHeightAt(perm, x, z)
  {
    GridRowsAt(HeightFn(perm), width, height + 1, x, z);
  }

  // ---------------------------------------------------------------------
  // Vertices and normals
  // ---------------------------------------------------------------------

  /** `vec3(StepX*X, Height, -StepZ*Z)`: the vertex of grid point (x, z). */
  function VertexAt(hm: seq<real>, width: nat, height: nat, x: nat, z: nat): (v: Vec3)
    requires |hm| == PointCount(width, height)
    requires 0 < width && 0 < height
    requires x <= width && z <= height
    ensures v.y == hm[GridIndex(width, x, z)]
    ensures 0.0 <= v.x <= TerrainWidth && -TerrainHeight <= v.z <= 0.0
  {
    GridIndexInBounds(width, height, x, z);
    Vec3(StepCoordinate(TerrainWidth, width, x), hm[GridIndex(width, x, z)], -StepCoordinate(TerrainHeight, height, z))
  }

  /** `Step*X` with `Step = Extent / N`: stays within [0, Extent] for X in [0, N], reaching both ends. */
  function StepCoordinate(extent: real, n: nat, v: nat): (r: real)
    requires 0.0 <= extent && 0 < n && v <= n
    ensures 0.0 <= r <= extent
    ensures v == 0 ==> r == 0.0
    ensures v == n ==> r == extent
  {
    var step := extent / n as real;
    MulNonNegative(step, v as real);
    MulMonotoneReal(v as real, n as real, step);
    assert step * n as real == extent;
    step * v as real
  }

  /** The vertex as a function of the grid point. */
  function VertexFn(hm: seq<real>, width: nat, height: nat): (nat, nat) --> Vec3
  {
    (x: nat, z: nat) requires |hm| == PointCount(width, height) && 0 < width && 0 < height && x <= width && z <= height =>
      VertexAt(hm, width, height, x, z)
  }

  /** The normal as a function of the grid point. */
  function NormalFn(hm: seq<real>, width: nat, height: nat, sqrt: real -> real): (nat, nat) --> Vec3
  {
    (x: nat, z: nat) requires IsSquareRoot(sqrt) && |hm| == PointCount(width, height) && 2 <= width && 2 <= height && x <= width && z <= height =>
      CalculateNormal(hm, width, height, x, z, sqrt)
  }

  /**
    The vertex loops of `GenerateTerrain`: for every grid point, row by row,
    push its vertex `vertexAt(x, z)` and its normal `normalAt(x, z)`.
  */
  method EmitVertices(vertexAt: (nat, nat) --> Vec3, normalAt: (nat, nat) --> Vec3, width: nat, height: nat)
    returns (vertices: seq<Vec3>, normals: seq<Vec3>)
    requires DefinedOnRows(vertexAt, width, height + 1) && DefinedOnRows(normalAt, width, height + 1)
    ensures vertices == GridRows(vertexAt, width, height + 1)
    ensures normals == GridRows(normalAt, width, height + 1)
  {
    vertices := [];
    normals := [];
    var z := 0;
    while z <= height
      invariant z <= height + 1
      invariant vertices == GridRows(vertexAt, width, z)
      invariant normals == GridRows(normalAt, width, z)
    {
      var x := 0;
      while x <= width
        invariant x <= width + 1
        invariant vertices == GridRows(vertexAt, width, z) + GridRow(vertexAt, width, z, x)
        invariant normals == GridRows(normalAt, width, z) + GridRow(normalAt, width, z, x)
      {
        vertices := vertices + [vertexAt(x, z)];
        normals := normals + [normalAt(x, z)];
        x := x + 1;
      }
      z := z + 1;
    }
  }

  /** Vertex `X + Z*(GridWidth + 1)` is the vertex of grid point (X, Z). */
  lemma VertexAtGridPoint(hm: seq<real>, width: nat, height: nat, x: nat, z: nat)
    requires |hm| == PointCount(width, height)
    requires 0 < width && 0 < height
    requires x <= width && z <= height
    ensures GridIndex(width, x, z) < |GridRows(VertexFn(hm, width, height), width, height + 1)|
    ensures GridRows(VertexFn(hm, width, height), width, height + 1)[GridIndex(width, x, z)] == VertexAt(hm, width, height, x, z)
  {
    GridRowsAt(VertexFn(hm, width, height), width, height + 1, x, z);
  }

  /** Normal `X + Z*(GridWidth + 1)` is `CalculateNormal(HeightMap, X, Z)`. */
  lemma NormalAtGridPoint(hm: seq<real>, width: nat, height: nat, sqrt: real -> real, x: nat, z: nat)
    requires IsSquareRoot(sqrt)
    requires |hm| == PointCount(width, height)
    requires 2 <= width && 2 <= height
    requires x <= width && z <= height
    ensures GridIndex(width, x, z) < |GridRows(NormalFn(hm, width, height, sqrt), width, height + 1)|
    ensures GridRows(NormalFn(hm, width, height, sqrt), width, height + 1)[GridIndex(width, x, z)] == CalculateNormal(hm, width, height, x, z, sqrt)
  {
    GridRowsAtValue(NormalFn(hm, width, height, sqrt), width, height + 1, x, z, CalculateNormal(hm, width, height, x, z, sqrt));
  }

  /** The vertex lies over the terrain's extent: X in [0, TerrainWidth], Z in [-TerrainHeight, 0]. */
  predicate InExtent(v: Vec3)
  {
    0.0 <= v.x <= TerrainWidth && -TerrainHeight <= v.z <= 0.0
  }

  /** Vertex k carries the height of entry k of the height map and lies within the terrain's extent. */
  predicate VertexOfEntry(hm: seq<real>, k: nat, v: Vec3)
  {
    k < |hm| && v.y == hm[k] && InExtent(v)
  }

  /** A unit vector that points up. */
  predicate UpwardUnit(n: Vec3)
  {
    Dot3(n, n) == 1.0 && 0.0 < n.y
  }

  /** Every vertex carries the height of its own entry of the height map and lies within the terrain's extent. */
  lemma VerticesOfEntries(hm: seq<real>, width: nat, height: nat, vertices: seq<Vec3>)
    requires |hm| == PointCount(width, height)
    requires 0 < width && 0 < height
    requires vertices == GridRows(VertexFn(hm, width, height), width, height + 1)
    ensures |vertices| == |hm|
    ensures forall k :: 0 <= k < |vertices| ==> VertexOfEntry(hm, k, vertices[k])
  {
    VertexFnOfEntry(hm, width, height);
    GridRowsAll(VertexFn(hm, width, height), width, height, (k: nat, v: Vec3) => VertexOfEntry(hm, k, v), vertices);
  }

  /** The vertex of every grid point carries the height of the point's entry. */
  lemma VertexFnOfEntry(hm: seq<real>, width: nat, height: nat)
    requires |hm| == PointCount(width, height)
    requires 0 < width && 0 < height
    ensures forall x: nat, z: nat :: x <= width && z <= height ==> VertexOfEntry(hm, GridIndex(width, x, z), VertexFn(hm, width, height)(x, z))
  {
    forall x: nat, z: nat | x <= width && z <= height
      ensures VertexOfEntry(hm, GridIndex(width, x, z), VertexFn(hm, width, height)(x, z))
    {
      GridIndexInBounds(width, height, x, z);
    }
  }

  /** Every normal is a unit vector pointing up. */
  lemma NormalsUpward(hm: seq<real>, width: nat, height: nat, sqrt: real -> real, normals: seq<Vec3>)
    requires IsSquareRoot(sqrt)
    requires |hm| == PointCount(width, height)
    requires 2 <= width && 2 <= height
    requires normals == GridRows(NormalFn(hm, width, height, sqrt), width, height + 1)
    ensures |normals| == |hm|
    ensures forall k :: 0 <= k < |normals| ==> UpwardUnit(normals[k])
  {
    NormalFnUpward(hm, width, height, sqrt);
    GridRowsEvery(NormalFn(hm, width, height, sqrt), width, height, UpwardUnit, normals);
  }

  /** The normal of every grid point is a unit vector pointing up. */
  lemma NormalFnUpward(hm: seq<real>, width: nat, height: nat, sqrt: real -> real)
    requires IsSquareRoot(sqrt)
    requires |hm| == PointCount(width, height)
    requires 2 <= width && 2 <= height
    ensures forall x: nat, z: nat :: x <= width && z <= height ==> UpwardUnit(NormalFn(hm, width, height, sqrt)(x, z))
  {
  }

  // ---------------------------------------------------------------------
  // Triangle-strip indices
  // ---------------------------------------------------------------------

  /** The first `n` pairs `X + Z*(GridWidth + 1)`, `X + (Z + 1)*(GridWidth + 1)` of row z. */
  function RowPairs(width: nat, z: nat, n: nat): (r: seq<nat>)
    ensures |r| == 2 * n
  {
    if n == 0 then []
    else RowPairs(width, z, n - 1) + [GridIndex(width, n - 1, z), GridIndex(width, n - 1, z + 1)]
  }

  /** Row z of the strip: its W + 1 pairs, then the degenerate pair `Index1`, `(Z + 1)*(GridWidth + 1)`. */
  function RowStrip(width: nat, z: nat): (r: seq<nat>)
    ensures |r| == RowLength(width)
  {
    RowPairs(width, z, width + 1) + [GridIndex(width, width, z + 1), GridIndex(width, 0, z + 1)]
  }

  /** The number of indices each row emits: `2*(GridWidth + 1) + 2`. */
  function RowLength(width: nat): nat
  {
    2 * (width + 1) + 2
  }

  /** The index buffer of the first `rows` rows. */
  function StripIndices(width: nat, rows: nat): (r: seq<nat>)
  {
    if rows == 0 then [] else StripIndices(width, rows - 1) + RowStrip(width, rows - 1)
  }

  /** The buffer holds `H*(2*(W + 1) + 2)` indices: a degenerate pair on every row, the last included. */
  lemma {:induction false} StripLength(width: nat, rows: nat)
    ensures |StripIndices(width, rows)| == rows * RowLength(width)
  {
    if rows > 0 {
      StripLength(width, rows - 1);
      assert rows * RowLength(width) == (rows - 1) * RowLength(width) + RowLength(width);
    }
  }

  /** Pair x of a row holds the two vertices of column x in rows z and z + 1. */
  lemma {:induction false} RowPairsAt(width: nat, z: nat, n: nat, x: nat)
    requires x < n
    ensures RowPairs(width, z, n)[2 * x] == GridIndex(width, x, z)
    ensures RowPairs(width, z, n)[2 * x + 1] == GridIndex(width, x, z + 1)
  {
    if x < n - 1 {
      RowPairsAt(width, z, n - 1, x);
    }
  }

  /** Row z of the strip, entry by entry. */
  lemma RowStripAt(width: nat, z: nat)
    ensures forall x :: 0 <= x <= width ==>
      RowStrip(width, z)[2 * x] == GridIndex(width, x, z) && RowStrip(width, z)[2 * x + 1] == GridIndex(width, x, z + 1)
    ensures RowStrip(width, z)[2 * width + 2] == GridIndex(width, width, z + 1)
    ensures RowStrip(width, z)[2 * width + 3] == GridIndex(width, 0, z + 1)
  {
    forall x | 0 <= x <= width
      ensures RowStrip(width, z)[2 * x] == GridIndex(width, x, z) && RowStrip(width, z)[2 * x + 1] == GridIndex(width, x, z + 1)
    {
      RowPairsAt(width, z, width + 1, x);
    }
  }

  /** Row z of the buffer starts at `z*(2*(W + 1) + 2)`. */
  lemma {:induction false} StripRow(width: nat, rows: nat, z: nat)
    requires z < rows
    ensures |StripIndices(width, rows)| == rows * RowLength(width)
    ensures z * RowLength(width) + RowLength(width) <= |StripIndices(width, rows)|
    ensures StripIndices(width, rows)[z * RowLength(width) .. z * RowLength(width) + RowLength(width)] == RowStrip(width, z)
  {
    var n := RowLength(width);
    var prev := StripIndices(width, rows - 1);
    var last := RowStrip(width, rows - 1);
    var base := z * n;
    StripLength(width, rows);
    StripLength(width, rows - 1);
    MulSucc(rows - 1, n);
    assert StripIndices(width, rows) == prev + last;
    if z < rows - 1 {
      StripRow(width, rows - 1, z);
      SliceOfPrefix(prev, last, base, base + n);
    } else {
      assert base == |prev|;
      SliceOfSuffix(prev, last);
    }
  }

  /** A slice that lies within a's part of a + b is the same slice of a. */
  lemma SliceOfPrefix(a: seq<nat>, b: seq<nat>, i: nat, j: nat)
    requires i <= j <= |a|
    ensures (a + b)[i..j] == a[i..j]
  {
    assert forall k :: i <= k < j ==> (a + b)[k] == a[k];
  }

  /** The part of a + b after a is b. */
  lemma SliceOfSuffix(a: seq<nat>, b: seq<nat>)
    ensures (a + b)[|a|..|a| + |b|] == b
  {
    assert forall k :: 0 <= k < |b| ==> (a + b)[|a| + k] == b[k];
  }

  /** A slice that equals r gives the entries of r at the slice's offset. */
  lemma SliceEntries(s: seq<nat>, base: nat, r: seq<nat>)
    requires base + |r| <= |s|
    requires s[base .. base + |r|] == r
    ensures forall i :: 0 <= i < |r| ==> s[base + i] == r[i]
  {
    forall i | 0 <= i < |r|
      ensures s[base + i] == r[i]
    {
      assert s[base .. base + |r|][i] == r[i];
    }
  }

  /**
    Entry by entry: row z, column x contributes `X + Z*(W + 1)` then
    `X + (Z + 1)*(W + 1)`, and the row ends with `(Z + 1)*(W + 1) + W` and
    `(Z + 1)*(W + 1)`.
  */
  lemma StripIndicesAt(width: nat, rows: nat, z: nat)
    requires z < rows
    ensures var s := StripIndices(width, rows); var base := z * RowLength(width);
      base + RowLength(width) <= |s| &&
      (forall x :: 0 <= x <= width ==> s[base + 2 * x] == GridIndex(width, x, z) && s[base + 2 * x + 1] == GridIndex(width, x, z + 1)) &&
      s[base + 2 * width + 2] == GridIndex(width, width, z + 1) &&
      s[base + 2 * width + 3] == GridIndex(width, 0, z + 1)
  {
    var s := StripIndices(width, rows);
    var base := z * RowLength(width);
    var r := RowStrip(width, z);
    StripRow(width, rows, z);
    SliceEntries(s, base, r);
    RowStripAt(width, z);
  }

  /**
    The pair ending each row is degenerate: it repeats the row's last index
    and, unless the row is the last, leads into the first index of the next.
  */
  lemma DegeneratePairs(width: nat, rows: nat, z: nat)
    requires z < rows
    ensures var s := StripIndices(width, rows); var base := z * RowLength(width);
      base + RowLength(width) <= |s| &&
      s[base + 2 * width + 2] == s[base + 2 * width + 1] &&
      (z + 1 < rows ==> base + RowLength(width) < |s| && s[base + 2 * width + 3] == s[base + RowLength(width)])
  {
    StripIndicesAt(width, rows, z);
    if z + 1 < rows {
      StripIndicesAt(width, rows, z + 1);
      MulSucc(z, RowLength(width));
    }
  }

  /** Every index of a `W x H` strip names a grid point: it is below `(W + 1)*(H + 1)`. */
  lemma {:induction false} StripIndicesInBounds(width: nat, height: nat, rows: nat)
    requires rows <= height
    ensures forall k :: 0 <= k < |StripIndices(width, rows)| ==> StripIndices(width, rows)[k] < PointCount(width, height)
  {
    if rows > 0 {
      StripIndicesInBounds(width, height, rows - 1);
      RowPairsInBounds(width, height, rows - 1, width + 1);
      GridIndexInBounds(width, height, width, rows);
      GridIndexInBounds(width, height, 0, rows);
    }
  }

  /** The first n pairs of row z < H lie in rows z and z + 1 of the grid. */
  lemma {:induction false} RowPairsInBounds(width: nat, height: nat, z: nat, n: nat)
    requires z < height && n <= width + 1
    ensures forall k :: 0 <= k < |RowPairs(width, z, n)| ==> RowPairs(width, z, n)[k] < PointCount(width, height)
  {
    if n > 0 {
      RowPairsInBounds(width, height, z, n - 1);
      GridIndexInBounds(width, height, n - 1, z);
      GridIndexInBounds(width, height, n - 1, z + 1);
    }
  }

  /**
    The index loops of `GenerateTerrain`: row by row, push the pairs, and
    after the last column of each row the degenerate pair.
  */
  method EmitStripIndices(width: nat, height: nat) returns (indices: seq<nat>)
    ensures indices == StripIndices(width, height)
    ensures |indices| == height * RowLength(width)
    ensures forall k :: 0 <= k < |indices| ==> indices[k] < PointCount(width, height)
  {
    indices := [];
    var z := 0;
    while z < height
      invariant z <= height
      invariant indices == StripIndices(width, z)
    {
      var row := EmitStripRow(width, z);
      indices := indices + row;
      z := z + 1;
    }
    StripLength(width, height);
    StripIndicesInBounds(width, height, height);
  }

  /** The inner index loop for row z: the row's pairs, then its degenerate pair. */
  method EmitStripRow(width: nat, z: nat) returns (row: seq<nat>)
    ensures row == RowStrip(width, z)
  {
    row := [];
    var x := 0;
    while x <= width
      invariant x <= width + 1
      invariant row == if x <= width then RowPairs(width, z, x) else RowStrip(width, z)
    {
      var index0 := x + z * (width + 1);
      var index1 := x + (z + 1) * (width + 1);
      row := row + [index0, index1];
      if x == width {
        row := row + [index1, (z + 1) * (width + 1)];
      }
      x := x + 1;
    }
  }

  // ---------------------------------------------------------------------
  // The whole pipeline
  // ---------------------------------------------------------------------

  /**
    The buffers `GenerateTerrain` emits for heights `hm`: the vertex and the
    normal of every grid point in row-major order, and the strip indices.
  */
  ghost predicate MeshOf(hm: seq<real>, width: nat, height: nat, sqrt: real -> real,
                         vertices: seq<Vec3>, normals: seq<Vec3>, indices: seq<nat>)
    requires IsSquareRoot(sqrt)
    requires 2 <= width && 2 <= height
    requires |hm| == PointCount(width, height)
  {
    && vertices == GridRows(VertexFn(hm, width, height), width, height + 1)
    && normals == GridRows(NormalFn(hm, width, height, sqrt), width, height + 1)
    && indices == StripIndices(width, height)
  }

  /**
    The second half of `GenerateTerrain`: from the eroded heights, the
    vertices and normals of every grid point and the strip indices over them.
  */
  method EmitMesh(heights: seq<real>, width: nat, height: nat, sqrt: real -> real)
    returns (vertices: seq<Vec3>, normals: seq<Vec3>, indices: seq<nat>)
    requires IsSquareRoot(sqrt)
    requires 2 <= width && 2 <= height
    requires |heights| == PointCount(width, height)
    ensures vertices == GridRows(VertexFn(heights, width, height), width, height + 1)
    ensures normals == GridRows(NormalFn(heights, width, height, sqrt), width, height + 1)
    ensures |vertices| == |normals| == |heights|
    ensures forall k :: 0 <= k < |vertices| ==> VertexOfEntry(heights, k, vertices[k])
    ensures forall k :: 0 <= k < |normals| ==> UpwardUnit(normals[k])
    ensures indices == StripIndices(width, height)
    ensures |indices| == height * RowLength(width)
    ensures forall k :: 0 <= k < |indices| ==> indices[k] < |vertices|
    ensures MeshOf(heights, width, height, sqrt, vertices, normals, indices)
  {
    vertices, normals := EmitVertices(VertexFn(heights, width, height), NormalFn(heights, width, height, sqrt), width, height);
    VerticesOfEntries(heights, width, height, vertices);
    NormalsUpward(heights, width, height, sqrt, normals);
    indices := EmitStripIndices(width, height);
  }

  /**
    `GenerateTerrain`: fill a 512 x 512 height map with noise, erode it,
    then emit its vertices, normals and strip indices.
  */
  method GenerateTerrain(perm: seq<Byte>, draws: seq<nat>, sqrt: real -> real)
    returns (vertices: seq<Vec3>, normals: seq<Vec3>, indices: seq<nat>, ghost noise: seq<real>, ghost eroded: seq<real>)
    requires IsSquareRoot(sqrt)
    requires |perm| == 512
    requires |draws| >= 2 * DropletsCount
    ensures noise == GridRows(HeightFn(perm), GridWidth, GridHeight + 1)
    ensures |noise| == |eroded| == PointCount(GridWidth, GridHeight)
    ensures NonNegative(noise) ==> NonNegative(eroded) && Sum(eroded) <= Sum(noise)
    ensures |vertices| == |normals| == |eroded|
    ensures forall k :: 0 <= k < |vertices| ==> VertexOfEntry(eroded, k, vertices[k])
    ensures forall k :: 0 <= k < |normals| ==> UpwardUnit(normals[k])
    ensures |indices| == GridHeight * RowLength(GridWidth)
    ensures forall k :: 0 <= k < |indices| ==> indices[k] < |vertices|
    ensures eroded == Droplets(noise, GridWidth, GridHeight, draws, sqrt, DropletsCount)
    ensures MeshOf(eroded, GridWidth, GridHeight, sqrt, vertices, normals, indices)
  {
    var width, height := GridWidth, GridHeight;
    vertices, normals, indices, noise, eroded := BuildTerrain(perm, draws, sqrt, width, height);
  }

  /** The steps of `GenerateTerrain` on a grid of any size of at least 2 x 2. */
  method BuildTerrain(perm: seq<Byte>, draws: seq<nat>, sqrt: real -> real, width: nat, height: nat)
    returns (vertices: seq<Vec3>, normals: seq<Vec3>, indices: seq<nat>, ghost noise: seq<real>, ghost eroded: seq<real>)
    requires IsSquareRoot(sqrt)
    requires |perm| == 512
    requires 2 <= width && 2 <= height
    requires |draws| >= 2 * DropletsCount
    ensures noise == GridRows(HeightFn(perm), width, height + 1)
    ensures |noise| == |eroded| == PointCount(width, height)
    ensures NonNegative(noise) ==> NonNegative(eroded) && Sum(eroded) <= Sum(noise)
    ensures |vertices| == |normals| == |eroded|
    ensures forall k :: 0 <= k < |vertices| ==> VertexOfEntry(eroded, k, vertices[k])
    ensures forall k :: 0 <= k < |normals| ==> UpwardUnit(normals[k])
    ensures |indices| == height * RowLength(width)
    ensures forall k :: 0 <= k < |indices| ==> indices[k] < |vertices|
    ensures eroded == Droplets(noise, width, height, draws, sqrt, DropletsCount)
    ensures MeshOf(eroded, width, height, sqrt, vertices, normals, indices)
  {
    var hm := new real[PointCount(width, height)];
    FillHeightMap(hm, width, height, HeightFn(perm));
    noise := hm[..];
    ghost var carriedOff := WaterErosion(hm, width, height, draws, sqrt);
    var heights := hm[..];
    eroded := heights;
    vertices, normals, indices := EmitMesh(heights, width, height, sqrt);
  }
}
