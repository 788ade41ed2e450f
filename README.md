# Hydraulic erosion terrain generator, modelled in Dafny

This project models the core of a small C++ terrain generator, in five parts:

- **Height map.** It fills a `(W+1) x (H+1)` height map, stored row-major as
  `X + Z*(W+1)`, with four octaves of 2D Perlin noise.
- **Droplet erosion.** It erodes the map in place with 75000 simulated water
  droplets. Each droplet lives for up to 30 steps. At each step it reads the
  four corners of its grid cell and follows the bilinear gradient. It either
  stops, or does one of two things:
  - it deposits sediment on the four corners of the cell it left;
  - or it erodes a radius-6 brush of cells around that cell, in proportion
    to weights.
- **Vertex grid.** From the eroded map it emits one vertex and one normal per
  grid point.
- **Index buffer.** It emits a triangle-strip index buffer. Every row of the
  buffer ends with a degenerate pair.
- **Scalar and noise helpers.** The model includes the helpers the above
  rely on: floor, clamp, min/max, lerp, absolute value, `NOZ` and normalise.
  It also includes lattice hashing into the permutation table, the Perlin
  2D/3D cell formulas, and the index wrap and corner gating of simplex
  noise.

## Modules

The modules follow the two source files:

- `MathUtils` (`MathUtils.dfy`): the scalar and vector helpers of
  `code/math_utils.cpp`.
- `Noise` (`Noise.dfy`): the gradient tables, the 512-entry permutation
  table, Perlin noise 2D/3D, `Grad` and simplex noise 2D from
  `code/math_utils.cpp`.
- `Grid` (`Grid.dfy`): the row-major grid layout shared by every loop of
  `code/main.cpp`. It holds:
  - `GridIndex`;
  - `GridRows`, the sequence a row-by-row loop over a function of `(X, Z)`
    produces;
  - `Sum`, the total of a height map.
- `Erosion` (`Erosion.dfy`): `WaterErosion` of `code/main.cpp`. The height map
  is an `array<real>` that the methods update in place. The droplet's state
  is a `Droplet` value that each lifetime step replaces. The ghost functions
  `Transfer`, `Step`, `Lifetime` and `Droplets` give the same computation on
  values: one deposit-or-erode, one lifetime pass, one droplet's life, and
  the first n droplets. Each method is proved to leave exactly the map
  they describe.
- `Mesh` (`Mesh.dfy`): `CalculateNormal` and `GenerateTerrain` of
  `code/main.cpp`:
  - filling the height map into an array;
  - the vertex/normal loop;
  - the strip-index loop.

## Modelling choices

- `float` is `real`.
- `sqrt` is a parameter `sqrt: real -> real`. The constraint
  `IsSquareRoot(sqrt)` gives the root of every non-negative number. Lengths
  are then exact: `NOZ` returns a unit vector or zero, and `Normalize` a unit
  vector.
- `rand()` is replaced by a sequence of draws passed to `WaterErosion`. Two
  draws place each droplet at `(draw % W, draw % H)`.
- The permutation table is a parameter `perm` with `|perm| == 512`.
  `Noise.PermutationTable` is the table as the source declares it: the 256
  listed entries, followed by 256 zeros from static initialisation.
  `I & 511` is written `I % 512`. On 32-bit two's complement this is the same
  as Dafny's Euclidean remainder.
- The C++ `%` in simplex noise truncates toward zero. The model spells it out
  as `Noise.TruncatedRemainder`.

## Model

| member | source | states |
|---|---|---|
| MathUtils.Absolute | code/math_utils.cpp:228-233 | the result is the value or its negation, and never negative |
| MathUtils.TruncateToInt | code/math_utils.cpp:238 | the `(int32_t)` cast truncates toward zero: the result is within 1 of the value, on the value's side of zero |
| MathUtils.FloorReal32ToInt32 | code/math_utils.cpp:235-245 | `r <= v < r + 1`, so negative non-integers round toward minus infinity |
| MathUtils.FloorUnique | code/math_utils.cpp:235-245 | any integer n with `n <= v < n + 1` is the floor |
| MathUtils.FloorBelowTruncation | code/math_utils.cpp:238-242 | for a negative non-integer, the floor is the truncation minus one (the decrement branch) |
| MathUtils.FloorShift | code/math_utils.cpp:235-245 | floor commutes with adding an integer |
| MathUtils.FloorOfInteger | code/math_utils.cpp:235-245 | the floor of an integer is that integer |
| MathUtils.FractionalPart | code/math_utils.cpp:1319-1320 | `U = P.x - floor(P.x)` lies in `[0,1)` and differs from the value by an integer |
| MathUtils.FractionalPartOfInteger | code/math_utils.cpp:1319-1320 | the cell offset of a lattice point is 0 |
| MathUtils.FractionalPartShift | code/math_utils.cpp:1319-1320 | the cell offset is unchanged by an integer shift |
| MathUtils.Min | code/math_utils.cpp:308-313 | the result is one of the inputs and at most both |
| MathUtils.Max | code/math_utils.cpp:315-320 | the result is one of the inputs and at least both |
| MathUtils.Clamp | code/math_utils.cpp:292-306 | the result lies between the bounds, whichever order they come in; an in-range value is unchanged; an out-of-range value goes to the nearer bound |
| MathUtils.ClampSymmetric | code/math_utils.cpp:295-300 | swapping the bounds does not change the result |
| MathUtils.ClampIdempotent | code/math_utils.cpp:292-306 | clamping twice is clamping once |
| MathUtils.Lerp | code/math_utils.cpp:284-290 | `Lerp(A,B,0) = A`, `Lerp(A,B,1) = B`, and for t in [0,1] the result lies between A and B |
| MathUtils.LerpBetween | code/math_utils.cpp:287 | `A + (B-A)t` lies between A and B for t in [0,1] |
| MathUtils.LerpAffine | code/math_utils.cpp:287 | `A + (B-A)t` equals the affine form `(1-t)A + tB` |
| MathUtils.LerpVec2 | code/math_utils.cpp:479-485 | componentwise Lerp: the endpoints at t = 0 and 1, and between the inputs per component for t in [0,1] |
| MathUtils.Length2 | code/math_utils.cpp:429-435 | the length is non-negative and its square is `Dot(A,A)` |
| MathUtils.Length3 | code/math_utils.cpp:608-614 | the length is non-negative and its square is `Dot(A,A)` |
| MathUtils.ScaledByInverseLength | code/math_utils.cpp:457 | scaling by `1/Length(A)` gives squared length 1 |
| MathUtils.NOZ | code/math_utils.cpp:445-461 | zero when the length is at most Epsilon; otherwise a unit vector parallel to the input, with the same sign in each component |
| MathUtils.Normalize3 | code/math_utils.cpp:616-622 | a unit vector, parallel to the input, with the same sign in every component |
| Noise.Zeros | code/math_utils.cpp:1283-1297 | the statically zeroed tail: n entries, all 0 |
| Noise.PermutationTableShape | code/math_utils.cpp:1283-1297 | the table has 512 entries; the first 256 are the listed ones; entries 256..511 are 0 |
| Noise.PermutationMask | code/math_utils.cpp:1307-1308 | `I & 511` is below 512 and congruent to I modulo 512 |
| Noise.Permute | code/math_utils.cpp:1307-1317 | a table lookup at a masked index; in a table with a zero upper half, indices whose mask is 256..511 read 0 |
| Noise.PermutePeriodic | code/math_utils.cpp:1307-1317 | a lookup is unchanged by adding 512 to the index |
| Noise.GradientIndex2D | code/math_utils.cpp:1310-1317 | the gradient index is below 8 and congruent to the table entry modulo 8 |
| Noise.GradientIndex3D | code/math_utils.cpp:1353-1383 | the gradient index is below 16 and congruent to the table entry modulo 16 |
| Noise.PerlinGradientIndices2D | code/math_utils.cpp:1304-1317 | for any integers I and J, all four corner gradient indices are below 8 |
| Noise.PerlinGradientIndices3D | code/math_utils.cpp:1342-1383 | for any integers I, J and K, all eight corner gradient indices are below 16 |
| Noise.Quintic | code/math_utils.cpp:1327-1328 | the fade weight is 0 at 0 and 1 at 1, and stays in [0,1] on [0,1] |
| Noise.QuinticInUnitInterval | code/math_utils.cpp:1327-1328 | the polynomial `6t^5 - 15t^4 + 10t^3` maps [0,1] into [0,1] |
| Noise.QuinticSymmetric | code/math_utils.cpp:1327-1328 | `q(1-t) = 1 - q(t)` |
| Noise.PerlinGradients2D | code/math_utils.cpp:1310-1317 | four corner gradients |
| Noise.PerlinGradients3D | code/math_utils.cpp:1353-1383 | eight corner gradients |
| Noise.PerlinCell2D | code/math_utils.cpp:1319-1331 | the blended ramp is 0 at all four corners of the cell |
| Noise.PerlinNoise2D | code/math_utils.cpp:1301-1336 | at a point with no fractional part the noise is the fixed value `0.7071 * 0.70711356...` |
| Noise.PerlinCell3D | code/math_utils.cpp:1385-1409 | the blended ramp, with `1 - T` in the upper-K corners as written, is 0 at all eight corners of the cell |
| Noise.PerlinNoise3D | code/math_utils.cpp:1339-1414 | at a point with no fractional part the noise is the fixed value `0.7071 * 0.70711356...` |
| Noise.PerlinNoise2DAtLattice | code/math_utils.cpp:1301-1336 | at every lattice point, Perlin 2D is `0.7071 * 0.70711356...` |
| Noise.PerlinNoise3DAtLattice | code/math_utils.cpp:1339-1414 | at every lattice point, Perlin 3D is `0.7071 * 0.70711356...` |
| Noise.PerlinNoise2DPeriodicX | code/math_utils.cpp:1304-1317 | Perlin 2D repeats with period 512 in x |
| Noise.PerlinNoise2DPeriodicY | code/math_utils.cpp:1304-1317 | Perlin 2D repeats with period 512 in y |
| Noise.GradientsPeriodicY | code/math_utils.cpp:1310-1317 | the corner gradients repeat with period 512 in J |
| Noise.ZeroBandGradients | code/math_utils.cpp:1283-1317 | with a zero upper half, cells whose I mod 512 is 256..509 get the same gradients as their right neighbour |
| Noise.PerlinNoise2DRepeatsInZeroBand | code/math_utils.cpp:1283-1336 | with a zero upper half, Perlin 2D on x mod 512 in [256,510) repeats with period 1 in x |
| Noise.Grad | code/math_utils.cpp:1418-1425 | the result is the entry `hash & 7` of the eight `±X ± 2Y` / `±Y ± 2X` choices |
| Noise.GradLowBits | code/math_utils.cpp:1421 | `Grad` depends only on the low three bits of the hash |
| Noise.TruncatedRemainder | code/math_utils.cpp:1464-1465 | C's `%`: its absolute value is `abs(a) mod n`, with the sign of a |
| Noise.WrapIndex | code/math_utils.cpp:1464-1465 | `Absolute(i % 256)` lies in [0,255] and equals `abs(i) mod 256` |
| Noise.WrapIndexMirrors | code/math_utils.cpp:1464-1465 | the wrap folds negative cells onto positive ones: `wrap(-i) = wrap(i)` |
| Noise.WrapIndexShift | code/math_utils.cpp:1464-1465 | on non-negative cells the wrap repeats every 256 cells |
| Noise.SimplexLookupIndex | code/math_utils.cpp:1472-1486 | every outer lookup `ii + di + P[jj + dj]` is below 512 |
| Noise.SimplexCorner | code/math_utils.cpp:1468-1487 | a corner farther than the cut-off contributes 0, and so does a corner at distance 0 |
| Noise.SimplexHash | code/math_utils.cpp:1472-1486 | with a zero upper table half, an outer lookup at 256 or above reads 0, and an inner lookup at 256 or above leaves the outer index at `ii + di` |
| Noise.SimplexCell | code/math_utils.cpp:1443-1491 | the three corner contributions vanish at the cell origin |
| Noise.SimplexNoise2D | code/math_utils.cpp:1427-1492 | simplex noise at the origin is 0 |
| Noise.SimplexCellWraps | code/math_utils.cpp:1464-1486 | the cell value repeats every 256 cells in i and in j on the non-negative side, and `(-i, -j)` gives the same value as `(i, j)` |
| Grid.GridIndex | code/main.cpp:43 | grid point (X, Z) sits at `X + Z*(W+1)`, inside the slice `[Z*(W+1), (Z+1)*(W+1))` of row Z |
| Grid.GridIndexInBounds | code/main.cpp:43 | `X + Z*(W+1)` is below `(W+1)*(H+1)` for every grid point |
| Grid.GridIndexInjective | code/main.cpp:43 | distinct grid points have distinct indices |
| Grid.GridIndexOnto | code/main.cpp:201 | every array index is the index of some grid point |
| Grid.GridIndexCoordinates | code/main.cpp:201 | the coordinates are recovered from an index by `mod` and `div` (W+1) |
| Grid.GridIndexNextRow | code/main.cpp:235 | one past the end of a row is the first point of the next row |
| Grid.GridRowsLength | code/main.cpp:192-203 | a row-by-row loop over `rows` rows visits `rows*(W+1)` points |
| Grid.GridRowsAt | code/main.cpp:192-203 | the row-by-row sequence holds `f(X,Z)` at `X + Z*(W+1)` |
| Grid.GridRowsAll | code/main.cpp:209-220 | a property of every grid point's value holds at every entry of the row-by-row sequence |
| Grid.SumUpdate | code/main.cpp:146 | changing one cell changes the total by the difference |
| Grid.SumNonNegative | code/main.cpp:145-146 | a non-negative map has a non-negative total |
| Erosion.SpawnPosition | code/main.cpp:21-22 | the spawn point is `(draw % W, draw % H)`, a grid point in `[0,W) x [0,H)` |
| Erosion.Spawn | code/main.cpp:23-27 | a new droplet starts at the spawn point with no sediment |
| Erosion.CellOf | code/main.cpp:41-42 | the droplet's cell is the integer part of its position and lies in `[0,W) x [0,H)` |
| Erosion.CornerIndices | code/main.cpp:43-46 | the four corner indices are the grid indices of the cell's corners, strictly increasing and below `(W+1)*(H+1)` |
| Erosion.CornerHeights | code/main.cpp:53-56 | the four heights read at the corner indices |
| Erosion.BilinearWeights | code/main.cpp:111-114 | the four bilinear weights sum to 1 and are non-negative inside the cell |
| Erosion.BilinearIsWeightedAverage | code/main.cpp:69-71 | the nested Lerp height equals the bilinear weights applied to the corners |
| Erosion.Bilinear | code/main.cpp:69-71 | the nested Lerps of the four corner heights; inside the cell the result lies between the lowest and highest corner |
| Erosion.HeightGradient | code/main.cpp:57-63 | the blended edge differences are the slope of the bilinear height: x-slope `Lerp(H01-H00, H11-H10, V)`, z-slope `Lerp(H10-H00, H11-H01, U)` |
| Erosion.HeightGradientOfPlane | code/main.cpp:57-63 | on a planar cell the interpolated gradient is the plane's slope |
| Erosion.CarryCapacity | code/main.cpp:103 | capacity is at least 0.001 and is either the floor or `-HeightDiff*Speed*Water*2` |
| Erosion.DropAmount | code/main.cpp:108 | `0 <= DropAmount <= sediment`, and at most the rise when the droplet climbs |
| Erosion.TakeAmount | code/main.cpp:119 | `TakeAmount >= 0`, at most the drop and at most the free capacity times 0.3 |
| Erosion.CellErosion | code/main.cpp:145 | a cell loses `min(height, amount)` and ends non-negative |
| Erosion.AddToEntry | code/main.cpp:111-114 | one cell grows by delta, nothing else changes, and the total grows by delta |
| Erosion.DepositShares | code/main.cpp:111-114 | the four shares add up to DropAmount and are non-negative inside the cell |
| Erosion.DepositEntries | code/main.cpp:111-114 | four updates at distinct corners add each share to its corner and leave every other cell alone |
| Erosion.Deposit | code/main.cpp:111-114 | the new map is `Deposited`: each corner gains its share and other cells are unchanged; the total grows by DropAmount; a non-negative map stays non-negative |
| Erosion.BrushWeight | code/main.cpp:130 | `max(0, Radius - dist)` lies in `[0, Radius]` |
| Erosion.BrushWeightOwnCell | code/main.cpp:121-133 | the droplet's own cell has positive weight, so the weight sum is never 0 |
| Erosion.BrushWeightTotalPositive | code/main.cpp:121-133 | the summed brush weight is positive |
| Erosion.BrushWeightSum | code/main.cpp:121-133 | the weight loop computes the total weight over in-grid brush cells, and it is positive |
| Erosion.Share | code/main.cpp:143-144 | `Weight/WeightSum*TakeAmount`: the whole weight sum asks for exactly TakeAmount, a non-negative weight for a non-negative part |
| Erosion.ErosionAmount | code/main.cpp:143-144 | the amount asked of brush point (X, Z) is never negative when TakeAmount is not |
| Erosion.ErodedHeight | code/main.cpp:139-148 | a brush cell ends non-negative; a cell outside the brush or the grid is unchanged |
| Erosion.ErodedTarget | code/main.cpp:135-150 | the eroded map `ErodedHeights` has each grid point eroded by its own share and keeps the cells outside the brush |
| Erosion.ErodeEntry | code/main.cpp:145-147 | one cell loses `min(height, share)`; the total drops by that amount |
| Erosion.ErodeOffset | code/main.cpp:139-148 | one brush offset: its cell is eroded if it is in the grid, and the removed amount is at most its share of TakeAmount |
| Erosion.ErodeRow | code/main.cpp:137-149 | one brush row: its cells are eroded, and the removed amount is at most the row's share of TakeAmount |
| Erosion.ErodeBrush | code/main.cpp:121-150 | the new map is `ErodedHeights`: each in-grid brush cell loses `min(height, Weight*TakeAmount)` and other cells are unchanged; the sediment gained is exactly the total removed, and at most TakeAmount |
| Erosion.ErodeBrushPoints | code/main.cpp:135-150 | the erode loop produces exactly the eroded map, and what it removes is the drop in total height |
| Erosion.SampleHeight | code/main.cpp:69-71 | the sampled height lies between the lowest and highest corner height of the droplet's cell |
| Erosion.SampleGradient | code/main.cpp:41-63 | the gradient under the droplet is zero when its cell is level |
| Erosion.Steer | code/main.cpp:66 | zero when the inertia blend of gradient and old direction has length at most Epsilon; otherwise a unit vector along that blend, with the same sign in each component |
| Erosion.KeepsFlowingReadsInBounds | code/main.cpp:73-86 | a step past the guard `KeepsFlowing` (non-zero direction, new position in `[0,W) x [0,H)`) has a new cell in `[0,W) x [0,H)`, so its corner reads are in bounds |
| Erosion.HeightDiff | code/main.cpp:102 | `NewHeight - OldHeight` lies between the lowest new corner minus the highest old corner and the highest new corner minus the lowest old corner |
| Erosion.BrushAt | code/main.cpp:126-143 | the brush around the old cell is a valid brush |
| Erosion.TransferSediment | code/main.cpp:106-151 | the new map and sediment are `Transfer`: deposit when over capacity or uphill, else erode; grid total plus sediment is conserved, and neither goes negative |
| Erosion.Transfer | code/main.cpp:106-151 | reference definition of the branch: when `Deposits` (over capacity or uphill) DropAmount goes onto the old cell's corners, else the brush erodes TakeAmount; the map keeps its size, and TransferSediment proves it conserves mass |
| Erosion.DepositBranch | code/main.cpp:106-115 | the deposit branch, taken when `Deposits` (over capacity or uphill): DropAmount leaves the droplet and lands on the old cell's corners, as `Transfer` says; mass is conserved |
| Erosion.ErodeBranch | code/main.cpp:116-151 | the erosion branch: the brush gives up to TakeAmount to the droplet, as `Transfer` says; mass is conserved and nothing goes negative |
| Erosion.DropletStep | code/main.cpp:40-156 | the new map, droplet and alive flag are exactly `Step` of the old map and droplet; mass is conserved and nothing goes negative |
| Erosion.LifetimePass | code/main.cpp:38-157 | one pass of the lifetime loop keeps the outcome of the droplet's remaining `Lifetime` unchanged, or, when the droplet stops, is that outcome; it conserves mass and keeps the map non-negative |
| Erosion.Step | code/main.cpp:40-156 | one lifetime pass: when the guard fires, the map and the sediment are unchanged; otherwise the droplet moves to a position inside the domain |
| Erosion.NextSpeed | code/main.cpp:155 | where `Speed^2 + HeightDiff*Gravity` is non-negative, the new speed is non-negative and its square is that value |
| Erosion.Lifetime | code/main.cpp:38-157 | the lifetime of a droplet over at most `steps` passes, stopping at the guard; the map keeps its size |
| Erosion.Droplets | code/main.cpp:18-158 | the map after the first n droplets, each spawned at the next two draws and run for 30 passes; the map keeps its size |
| Erosion.SimulateDroplet | code/main.cpp:20-157 | the new map and the sediment carried off are exactly `Lifetime` of the spawned droplet over 30 passes; the terrain loses exactly that sediment and stays non-negative |
| Erosion.WaterErosion | code/main.cpp:11-159 | the new map is exactly `Droplets` of the old map over 75000 droplets; the terrain loses exactly the sediment carried off, stays non-negative and never gains mass |
| Mesh.ClampInterior | code/main.cpp:164-167 | X and Z are clamped into `[1, N-1]`; interior values are kept |
| Mesh.NeighbourIndices | code/main.cpp:169-172 | the four neighbour reads are the clamped point's left, right, down and up indices, all in bounds when W, H >= 2 |
| Mesh.NormalDirection | code/main.cpp:174 | the unnormalised normal has y component 0.125 |
| Mesh.CalculateNormal | code/main.cpp:161-176 | the normal is a unit vector pointing up |
| Mesh.NormalAlongDirection | code/main.cpp:174 | the normal is parallel to `(Left - Right, 0.125, Up - Down)`, with the same signs |
| Mesh.FlatNormal | code/main.cpp:161-176 | on a flat map, every normal is `(0, 1, 0)` |
| Mesh.Octave | code/main.cpp:196-199 | one octave `A*(0.5*Noise + 0.5)`; at grid point (0,0) it is `A*(0.5 * lattice value + 0.5)` |
| Mesh.TerrainHeightAt | code/main.cpp:196-200 | the four-octave height; at grid point (0,0) it is `10 * 2.375 * (0.5 * lattice value + 0.5)` |
| Mesh.FillHeightMap | code/main.cpp:192-203 | after the fill loop, the map holds `heightAt(X,Z)` at `X + Z*(W+1)` for every grid point |
| Mesh.FillRow | code/main.cpp:194-202 | one row of the fill loop extends the filled prefix by that row |
| Mesh.FilledHeight | code/main.cpp:196-201 | the filled map holds the four-octave noise height at `X + Z*(W+1)` |
| Mesh.VertexAt | code/main.cpp:213-214 | the vertex's height is the map entry; x lies in `[0, 32]` and z in `[-32, 0]` |
| Mesh.StepCoordinate | code/main.cpp:207-208 | `Step*X` runs from 0 at the first grid line to the full extent at the last |
| Mesh.EmitVertices | code/main.cpp:209-220 | the loop emits vertices and normals in row-major order, one per grid point |
| Mesh.VertexAtGridPoint | code/main.cpp:209-218 | the vertex at `X + Z*(W+1)` is `(StepX*X, HeightMap[X+Z*(W+1)], -StepZ*Z)` |
| Mesh.NormalAtGridPoint | code/main.cpp:209-218 | the normal at `X + Z*(W+1)` is `CalculateNormal(X, Z)` |
| Mesh.VerticesOfEntries | code/main.cpp:209-220 | there are `(W+1)*(H+1)` vertices, and vertex k carries map entry k as its height |
| Mesh.NormalsUpward | code/main.cpp:209-220 | there are `(W+1)*(H+1)` normals, all unit and pointing up |
| Mesh.RowPairs | code/main.cpp:224-230 | the first n steps of a row emit 2n indices |
| Mesh.RowStrip | code/main.cpp:224-237 | a row emits `2(W+1) + 2` indices |
| Mesh.StripLength | code/main.cpp:222-238 | the index buffer has exactly `H*(2(W+1)+2)` entries |
| Mesh.RowPairsAt | code/main.cpp:226-230 | step X of row Z emits `X + Z*(W+1)`, then `X + (Z+1)*(W+1)` |
| Mesh.RowStripAt | code/main.cpp:224-236 | row Z: the pairs for X = 0..W, then `(Z+1)*(W+1)+W` and `(Z+1)*(W+1)` |
| Mesh.StripRow | code/main.cpp:222-238 | row Z occupies entries `[Z*RL, (Z+1)*RL)` of the buffer, with RL the row length |
| Mesh.StripIndicesAt | code/main.cpp:224-230 | in the whole buffer, entry `Z*RL + 2X` is `X + Z*(W+1)` and the next entry is `X + (Z+1)*(W+1)` |
| Mesh.DegeneratePairs | code/main.cpp:232-236 | every row, the last included, ends with the degenerate pair `(Z+1)*(W+1)+W`, `(Z+1)*(W+1)` |
| Mesh.StripIndicesInBounds | code/main.cpp:226-235 | every emitted index is below `(W+1)*(H+1)` |
| Mesh.EmitStripIndices | code/main.cpp:222-238 | the index loop emits the strip buffer: its length is `H*(2(W+1)+2)` and every index is in bounds |
| Mesh.EmitStripRow | code/main.cpp:224-237 | the inner loop emits one row's strip, degenerate pair included |
| Mesh.EmitMesh | code/main.cpp:207-238 | the vertex and normal buffers are `VertexAt` and `CalculateNormal` at every grid point in row-major order (`MeshOf`), the index buffer is the strip buffer, and every index names an emitted vertex |
| Mesh.GenerateTerrain | code/main.cpp:178-242 | on the 512 x 512 grid: the noise map is the four-octave height at every grid point; the eroded map is `Droplets` of it over 75000 droplets; the buffers are `MeshOf` the eroded map (vertices, normals and strip indices); a non-negative noise map stays non-negative and never gains mass |
| Mesh.BuildTerrain | code/main.cpp:178-242 | the same fill, erode and emit steps on a grid of any size of at least 2 x 2 |

## Left out

- Windowing, the GL context, buffer upload, shaders, the render loop, and
  the camera and matrix code are left out. They are I/O and rendering
  only.
- `malloc`/`memset`/`free` are left out. The fill loop overwrites every
  entry, so the zeroing is not observable. The allocation-failure branch,
  which emits nothing, is not modelled.
- `srand(1337)`/`rand()` are left out. They are a global foreign generator,
  so the droplet positions are an input sequence of draws.
- Float rounding, NaN and infinities are left out: arithmetic is exact over
  `real`.
- The root of a negative radicand in the speed update is left out. Its
  value is whatever the `sqrt` parameter returns there, because
  `IsSquareRoot` constrains only non-negative inputs.
- 32-bit overflow is left out: of the float-to-int casts, of the `int32_t`
  offsets, and of `uint32_t` index arithmetic. Integers are unbounded, and
  the grid sizes used keep every index far below 2^32.
- The `[0,1]` and `[-1,1]` range claims of the noise functions are not
  proved. They rest on approximate constants (0.7071, the scale factor
  40) and on floating-point analysis. The model proves the values at
  lattice points, the periodicity, and that every table index is in range.
- Noise.PermutationTableShape: the 256 listed entries are not proved to be
  a permutation of 0..255. The model states the table's length, its
  listed prefix and its zero upper half.
- Mesh.TerrainHeightAt: the four-octave sum is modelled as written, but
  nothing beyond its value at the origin is proved about it, because it is
  float scaling of noise values.
- `Square`, `SquareRoot`, `Absolute(float)`, `Dot` and `LengthSq` appear
  only through the `sqrt` parameter and the exact real expressions they
  compute. Cross products, `Perp` and equality tests are not used by the
  core.
- Mesh.CalculateNormal requires `W, H >= 2`. For W or H below 2 the
  source's clamping reads outside the array; the generator always uses 512.
- Mesh.GenerateTerrain: the permutation table is any 512-entry parameter
  `perm`. The source always reads `Noise.PermutationTable`, which is one
  such table, so every contract holds for it in particular.
- Mesh.FillHeightMap and Mesh.EmitVertices take the per-point height,
  vertex and normal as function parameters. Mesh.GenerateTerrain passes
  the four-octave noise height, `VertexAt` and `CalculateNormal`.
- Erosion.WaterErosion: the total the droplets carry off is a ghost result.
  The source keeps no such total, and drops each droplet's remaining
  sediment when the droplet stops.
- Erosion.DropletStep: water is stated as the source computes it, and
  speed only through Erosion.NextSpeed. No further properties of either
  are proved.
- Erosion.NextSpeed: where `Speed^2 + HeightDiff*Gravity` is negative,
  `sqrtf` gives NaN in the source. The model leaves the value there
  unconstrained and promises nothing about it.
- The index-buffer length follows the code: `H*(2(W+1)+2)`, with a
  degenerate pair after every row including the last. The shorter count
  `2(W+1)H + 2(H-1)`, which would leave the pair off the last row, is not
  what the code emits.
