/**
  `WaterErosion` of main.cpp: droplets spawned on the height map run
  downhill for at most `MaxLifeTime` steps, depositing sediment on the four
  corners of their old cell or eroding a round brush of cells around it.
  The height map is an `array<real>` updated in place; `rand()` becomes a
  sequence of draws and `sqrtf` the parameter `sqrt`.
*/
module Erosion {
  import opened MathUtils
  import opened Grid

  const DropletsCount: nat := 75000
  const MaxLifeTime: nat := 30
  const DropletInertia: real := 0.4
  const DropletCapacityFactor: real := 2.0
  const MinCarryCapacity: real := 0.001
  const DropletDeposition: real := 0.1
  const DropletErosion: real := 0.3
  const DropletEvaporation: real := 0.1
  const Gravity: real := 4.0
  const Radius: int := 6

  /** The state a droplet carries from one step to the next. */
  datatype Droplet = Droplet(p: Vec2, dir: Vec2, sediment: real, speed: real, water: real)

  /** The grid cell (x, z) whose corners surround a droplet. */
  datatype Cell = Cell(x: nat, z: nat)

  /** Where a droplet may stand: inside [0, GridWidth) x [0, GridHeight). */
  predicate InDomain(width: nat, height: nat, p: Vec2)
  {
    0.0 <= p.x < width as real && 0.0 <= p.y < height as real
  }

  // ---------------------------------------------------------------------
  // Spawning and cells
  // ---------------------------------------------------------------------

  /** `vec2(rand() % GridWidth, rand() % GridHeight)`: the spawn point is a grid point of the domain. */
  function SpawnPosition(width: nat, height: nat, drawX: nat, drawZ: nat): (p: Vec2)
    requires width > 0 && height > 0
    ensures InDomain(width, height, p)
    ensures p.x == (drawX % width) as real && p.y == (drawZ % height) as real
  {
    Vec2((drawX % width) as real, (drawZ % height) as real)
  }

  /** A fresh droplet: no direction, no sediment, unit speed and water. */
  function Spawn(p: Vec2): (d: Droplet)
    ensures d.p == p && d.sediment == 0.0
  {
    Droplet(p, Vec2(0.0, 0.0), 0.0, 1.0, 1.0)
  }

  /** `(uint32_t)DropletP.x`, `(uint32_t)DropletP.y`: the cell under a position of the domain. */
  function CellOf(width: nat, height: nat, p: Vec2): (c: Cell)
    requires InDomain(width, height, p)
    ensures c.x < width && c.z < height
    ensures c.x as real <= p.x < c.x as real + 1.0
    ensures c.z as real <= p.y < c.z as real + 1.0
  {
    Cell(TruncateToInt(p.x), TruncateToInt(p.y))
  }

  /** `U`, `V`: the droplet's offset inside its cell, in [0, 1) on each axis. */
  function CellOffset(c: Cell, p: Vec2): (uv: Vec2)
    ensures uv == Sub2(p, Vec2(c.x as real, c.z as real))
  {
    Vec2(p.x - c.x as real, p.y - c.z as real)
  }

  /**
    `Grid00Index`, `Grid01Index`, `Grid10Index`, `Grid11Index`: the corners
    (x, z), (x + 1, z), (x, z + 1) and (x + 1, z + 1) of cell c, all inside the
    height map when the cell lies in the domain.
  */
  function CornerIndices(width: nat, height: nat, c: Cell): (g: seq<nat>)
    requires c.x < width && c.z < height
    ensures |g| == 4
    ensures g[0] == GridIndex(width, c.x, c.z) && g[1] == GridIndex(width, c.x + 1, c.z)
    ensures g[2] == GridIndex(width, c.x, c.z + 1) && g[3] == GridIndex(width, c.x + 1, c.z + 1)
    ensures forall k :: 0 <= k < 4 ==> g[k] < PointCount(width, height)
    ensures g[0] < g[1] < g[2] < g[3]
  {
    GridIndexInBounds(width, height, c.x + 1, c.z + 1);
    var g00 := c.x + c.z * (width + 1);
    [g00, g00 + 1, g00 + (width + 1), g00 + (width + 1) + 1]
  }

  /** `Height00 .. Height11`: the heights at the four corners of cell c. */
  function CornerHeights(hm: seq<real>, width: nat, height: nat, c: Cell): (h: seq<real>)
    requires |hm| == PointCount(width, height)
    requires c.x < width && c.z < height
    ensures |h| == 4
    ensures forall k :: 0 <= k < 4 ==> h[k] == hm[CornerIndices(width, height, c)[k]]
  {
    var g := CornerIndices(width, height, c);
    [hm[g[0]], hm[g[1]], hm[g[2]], hm[g[3]]]
  }

  // ---------------------------------------------------------------------
  // Bilinear sampling
  // ---------------------------------------------------------------------

  /**
    `Lerp(Lerp(H00, H01, U), Lerp(H10, H11, U), V)`: the height under the
    droplet. On the unit square it lies between the lowest and the highest
    corner.
  */
  function Bilinear(h: seq<real>, u: real, v: real): (r: real)
    requires |h| == 4
    ensures 0.0 <= u <= 1.0 && 0.0 <= v <= 1.0 ==>
      Min(Min(h[0], h[1]), Min(h[2], h[3])) <= r <= Max(Max(h[0], h[1]), Max(h[2], h[3]))
  {
    Lerp(Lerp(h[0], h[1], u), Lerp(h[2], h[3], u), v)
  }

  /** The deposit weights `(1-U)(1-V)`, `U(1-V)`, `(1-U)V`, `UV` of the four corners. */
  function BilinearWeights(u: real, v: real): (w: seq<real>)
    ensures |w| == 4
    ensures w[0] + w[1] + w[2] + w[3] == 1.0
    ensures 0.0 <= u <= 1.0 && 0.0 <= v <= 1.0 ==> forall k :: 0 <= k < 4 ==> 0.0 <= w[k]
  {
    MulNonNegativeIn(u, v);
    [(1.0 - u) * (1.0 - v), u * (1.0 - v), (1.0 - u) * v, u * v]
  }

  /** On the unit square all four bilinear weights are non-negative. */
  lemma MulNonNegativeIn(u: real, v: real)
    ensures 0.0 <= u <= 1.0 && 0.0 <= v <= 1.0 ==>
      0.0 <= (1.0 - u) * (1.0 - v) && 0.0 <= u * (1.0 - v) && 0.0 <= (1.0 - u) * v && 0.0 <= u * v
  {
    if 0.0 <= u <= 1.0 && 0.0 <= v <= 1.0 {
      MulNonNegative(1.0 - u, 1.0 - v);
      MulNonNegative(u, 1.0 - v);
      MulNonNegative(1.0 - u, v);
      MulNonNegative(u, v);
    }
  }

  /**
    The sampled height is the weighted average of the corners with exactly
    the weights the deposit scatters with.
  */
  lemma BilinearIsWeightedAverage(h: seq<real>, u: real, v: real)
    requires |h| == 4
    ensures var w := BilinearWeights(u, v);
      Bilinear(h, u, v) == w[0] * h[0] + w[1] * h[1] + w[2] * h[2] + w[3] * h[3]
  {
    LerpAffine(h[0], h[1], u);
    LerpAffine(h[2], h[3], u);
    LerpAffine(Lerp(h[0], h[1], u), Lerp(h[2], h[3], u), v);
  }

  /**
    The height gradient of the cell: the four edge differences `Grad00 .. Grad11`
    blended bilinearly. It is the slope of `Bilinear`: the x-slope is the
    two x-edge differences blended along v, the z-slope the two z-edge
    differences blended along u.
  */
  function HeightGradient(h: seq<real>, u: real, v: real): (g: Vec2)
    requires |h| == 4
    ensures g.x == Lerp(h[1] - h[0], h[3] - h[2], v)
    ensures g.y == Lerp(h[2] - h[0], h[3] - h[1], u)
  {
    var grad00 := Vec2(h[1] - h[0], h[2] - h[0]);
    var grad01 := Vec2(h[1] - h[0], h[3] - h[1]);
    var grad10 := Vec2(h[3] - h[2], h[2] - h[0]);
    var grad11 := Vec2(h[3] - h[2], h[3] - h[1]);
    LerpVec2(LerpVec2(grad00, grad01, u), LerpVec2(grad10, grad11, u), v)
  }

  /** On a plane `a + b x + c z` the gradient is `(b, c)` everywhere in the cell. */
  lemma HeightGradientOfPlane(a: real, b: real, c: real, u: real, v: real)
    ensures HeightGradient([a, a + b, a + c, a + b + c], u, v) == Vec2(b, c)
  {
    var h := [a, a + b, a + c, a + b + c];
    assert Vec2(h[1] - h[0], h[2] - h[0]) == Vec2(b, c);
    assert Vec2(h[1] - h[0], h[3] - h[1]) == Vec2(b, c);
    assert Vec2(h[3] - h[2], h[2] - h[0]) == Vec2(b, c);
    assert Vec2(h[3] - h[2], h[3] - h[1]) == Vec2(b, c);
    LerpVec2Same(Vec2(b, c), u);
    LerpVec2Same(Vec2(b, c), v);
  }

  /** Interpolating a vector with itself gives it back. */
  lemma LerpVec2Same(a: Vec2, t: real)
    ensures LerpVec2(a, a, t) == a
  {
  }

  // ---------------------------------------------------------------------
  // Capacity, deposit and take amounts
  // ---------------------------------------------------------------------

  /** `Max(-HeightDiff*Speed*Water*CapacityFactor, MinCarryCapacity)`: never below 0.001. */
  function CarryCapacity(heightDiff: real, speed: real, water: real): (cap: real)
    ensures cap >= MinCarryCapacity
    ensures cap == MinCarryCapacity || cap == -heightDiff * speed * water * DropletCapacityFactor
  {
    Max(-heightDiff * speed * water * DropletCapacityFactor, MinCarryCapacity)
  }

  /**
    `sqrtf(Speed*Speed + HeightDiff*Gravity)`: the speed after a step that
    drops the droplet by `-heightDiff`. Where the radicand is non-negative
    its square is the old squared speed plus `HeightDiff*Gravity`.
  */
  function NextSpeed(speed: real, heightDiff: real, sqrt: real -> real): (r: real)
    ensures IsSquareRoot(sqrt) && 0.0 <= speed * speed + heightDiff * Gravity ==>
      0.0 <= r && r * r == speed * speed + heightDiff * Gravity
  {
    sqrt(speed * speed + heightDiff * Gravity)
  }

  /** The droplet deposits when it carries more than it can, or when it flows uphill. */
  predicate Deposits(capacity: real, sediment: real, heightDiff: real)
  {
    capacity < sediment || heightDiff > 0.0
  }

  /**
    `DropAmount`: uphill, fill the rise with at most the sediment carried;
    otherwise drop a tenth of the excess. Never more than is carried.
  */
  function DropAmount(capacity: real, sediment: real, heightDiff: real): (r: real)
    requires capacity >= MinCarryCapacity
    requires Deposits(capacity, sediment, heightDiff)
    ensures 0.0 <= sediment ==> 0.0 <= r <= sediment
    ensures heightDiff > 0.0 ==> r <= heightDiff
  {
    if heightDiff > 0.0 then Min(sediment, heightDiff)
    else (sediment - capacity) * DropletDeposition
  }

  /**
    `TakeAmount`: a third of the spare capacity, but never more than the
    drop in height. Non-negative whenever the droplet erodes.
  */
  function TakeAmount(capacity: real, sediment: real, heightDiff: real): (r: real)
    requires !Deposits(capacity, sediment, heightDiff)
    ensures 0.0 <= r
    ensures r <= -heightDiff && r <= (capacity - sediment) * DropletErosion
  {
    Min((capacity - sediment) * DropletErosion, -heightDiff)
  }

  /** `DeltaSediment`: a cell gives up the amount asked of it, but no more than its height. */
  function CellErosion(h: real, amount: real): (d: real)
    ensures d <= h && d <= amount
    ensures d == h || d == amount
    ensures 0.0 <= h - d
  {
    if h < amount then h else amount
  }

  // ---------------------------------------------------------------------
  // Deposit
  // ---------------------------------------------------------------------

  /** `HeightMap[k] += delta`: the terrain total grows by exactly `delta`. */
  method AddToEntry(hm: array<real>, k: nat, delta: real)
    requires k < hm.Length
    modifies hm
    ensures hm[..] == old(hm[..])[k := old(hm[k]) + delta]
    ensures Sum(hm[..]) == Sum(old(hm[..])) + delta
  {
    SumUpdate(hm[..], k, hm[k] + delta);
    hm[k] := hm[k] + delta;
  }

  /**
    `DropAmount*(1 - U)*(1 - V)`, `DropAmount*U*(1 - V)`, `DropAmount*(1 - U)*V`,
    `DropAmount*U*V`: the four shares add up to the whole amount.
  */
  function DepositShares(u: real, v: real, amount: real): (d: seq<real>)
    ensures |d| == 4
    ensures d[0] + d[1] + d[2] + d[3] == amount
    ensures 0.0 <= amount && 0.0 <= u <= 1.0 && 0.0 <= v <= 1.0 ==> forall k :: 0 <= k < 4 ==> 0.0 <= d[k]
  {
    var w := BilinearWeights(u, v);
    ScaledWeights(w, amount);
    [amount * w[0], amount * w[1], amount * w[2], amount * w[3]]
  }

  /** Scaling four weights that add up to 1 gives four parts that add up to the whole. */
  lemma ScaledWeights(w: seq<real>, amount: real)
    requires |w| == 4
    ensures amount * w[0] + amount * w[1] + amount * w[2] + amount * w[3] == amount * (w[0] + w[1] + w[2] + w[3])
    ensures 0.0 <= amount && (forall k :: 0 <= k < 4 ==> 0.0 <= w[k]) ==>
      forall k :: 0 <= k < 4 ==> 0.0 <= amount * w[k]
  {
    if 0.0 <= amount && (forall k :: 0 <= k < 4 ==> 0.0 <= w[k]) {
      forall k | 0 <= k < 4
        ensures 0.0 <= amount * w[k]
      {
        MulNonNegative(amount, w[k]);
      }
    }
  }

  /** The share of a deposit that lands on height-map entry k. */
  function DepositShare(g: seq<nat>, d: seq<real>, k: nat): real
    requires |g| == 4 && |d| == 4
  {
    if k == g[0] then d[0]
    else if k == g[1] then d[1]
    else if k == g[2] then d[2]
    else if k == g[3] then d[3]
    else 0.0
  }

  /** Heights `s0` after each entry k gains its share of a deposit on the corners g. */
  function Deposited(s0: seq<real>, g: seq<nat>, d: seq<real>): (s: seq<real>)
    requires |g| == 4 && |d| == 4
    ensures |s| == |s0|
  {
    seq(|s0|, k requires 0 <= k < |s0| => s0[k] + DepositShare(g, d, k))
  }

  /**
    The deposit scatter: `amount` is spread over the four corners of cell c
    with the bilinear weights of the offset (u, v); nothing else changes and
    the terrain gains exactly `amount`.
  */
  method Deposit(hm: array<real>, width: nat, height: nat, c: Cell, u: real, v: real, amount: real)
    requires hm.Length == PointCount(width, height)
    requires c.x < width && c.z < height
    modifies hm
    ensures forall k :: 0 <= k < hm.Length ==>
      hm[k] == old(hm[k]) + DepositShare(CornerIndices(width, height, c), DepositShares(u, v, amount), k)
    ensures hm[..] == Deposited(old(hm[..]), CornerIndices(width, height, c), DepositShares(u, v, amount))
    ensures Sum(hm[..]) == Sum(old(hm[..])) + amount
    ensures NonNegative(old(hm[..])) && 0.0 <= amount && 0.0 <= u <= 1.0 && 0.0 <= v <= 1.0 ==> NonNegative(hm[..])
  {
    var g := CornerIndices(width, height, c);
    var d := DepositShares(u, v, amount);
    ghost var s0 := hm[..];
    AddToEntry(hm, g[0], d[0]);
    ghost var s1 := hm[..];
    AddToEntry(hm, g[1], d[1]);
    ghost var s2 := hm[..];
    AddToEntry(hm, g[2], d[2]);
    ghost var s3 := hm[..];
    AddToEntry(hm, g[3], d[3]);
    DepositEntries(s0, s1, s2, s3, hm[..], g, d);
  }

  /** Four updates at four distinct corners: each entry gains exactly its corner's share. */
  lemma DepositEntries(s0: seq<real>, s1: seq<real>, s2: seq<real>, s3: seq<real>, s4: seq<real>, g: seq<nat>, d: seq<real>)
    requires |g| == 4 && |d| == 4
    requires g[0] < g[1] < g[2] < g[3] < |s0|
    requires s1 == s0[g[0] := s0[g[0]] + d[0]]
    requires s2 == s1[g[1] := s1[g[1]] + d[1]]
    requires s3 == s2[g[2] := s2[g[2]] + d[2]]
    requires s4 == s3[g[3] := s3[g[3]] + d[3]]
    ensures |s4| == |s0|
    ensures forall k :: 0 <= k < |s4| ==> s4[k] == s0[k] + DepositShare(g, d, k)
  {
  }

  // ---------------------------------------------------------------------
  // Brush erosion
  // ---------------------------------------------------------------------

  /** The brush of one erosion: the grid size, the droplet's cell and its position before the step. */
  datatype Brush = Brush(width: nat, height: nat, cell: Cell, center: Vec2)

  /** The brush's cell lies in the domain and its centre lies in that cell. */
  predicate ValidBrush(b: Brush)
  {
    b.cell.x < b.width && b.cell.z < b.height &&
    b.cell.x as real <= b.center.x < b.cell.x as real + 1.0 &&
    b.cell.z as real <= b.center.y < b.cell.z as real + 1.0
  }

  /** The number of offsets per axis, `-Radius .. Radius`. */
  const BrushSide: nat := 2 * Radius + 1

  /** Grid point (x, z) is inside the grid and within `Radius` cells of the brush's cell on both axes. */
  predicate InBrush(b: Brush, x: int, z: int)
  {
    0 <= x <= b.width && 0 <= z <= b.height &&
    b.cell.x - Radius <= x <= b.cell.x + Radius && b.cell.z - Radius <= z <= b.cell.z + Radius
  }

  /** `Max(0, Radius - Length(vec2i(XInd, ZInd) - OldP))`: between 0 and `Radius`. */
  function BrushWeight(x: int, z: int, center: Vec2, sqrt: real -> real): (w: real)
    requires IsSquareRoot(sqrt)
    ensures 0.0 <= w <= Radius as real
  {
    Max(0.0, Radius as real - Length2(Vec2(x as real - center.x, z as real - center.y), sqrt))
  }

  /** `0 <= a <= b` and `0 <= c` give `a * c <= b * c`. */
  lemma MulMonotoneReal(a: real, b: real, c: real)
    requires 0.0 <= a <= b && 0.0 <= c
    ensures a * c <= b * c
  {
    MulNonNegative(b - a, c);
    assert b * c - a * c == (b - a) * c;
  }

  /** The droplet's own cell is less than `Radius` away, so its weight is positive. */
  lemma BrushWeightOwnCell(b: Brush, sqrt: real -> real)
    requires IsSquareRoot(sqrt)
    requires ValidBrush(b)
    ensures 0.0 < BrushWeight(b.cell.x, b.cell.z, b.center, sqrt)
  {
    var dx := b.center.x - b.cell.x as real;
    var dy := b.center.y - b.cell.z as real;
    MulMonotoneReal(dx, 1.0, dx);
    MulMonotoneReal(dy, 1.0, dy);
    var offset := Vec2(b.cell.x as real - b.center.x, b.cell.z as real - b.center.y);
    assert Dot2(offset, offset) == dx * dx + dy * dy;
    ShortVector(offset, sqrt);
  }

  /** A vector whose squared length is below `Radius^2` is shorter than `Radius`. */
  lemma ShortVector(a: Vec2, sqrt: real -> real)
    requires IsSquareRoot(sqrt)
    requires Dot2(a, a) < (Radius * Radius) as real
    ensures Length2(a, sqrt) < Radius as real
  {
    var len := Length2(a, sqrt);
    if len >= Radius as real {
      MulMonotoneReal(Radius as real, len, Radius as real);
      MulMonotoneReal(Radius as real, len, len);
      assert false;
    }
  }

  /** The weight the loops find at offset (xOff, zOff): zero where the point is off the grid. */
  function OffsetWeight(b: Brush, sqrt: real -> real, xOff: int, zOff: int): (w: real)
    requires IsSquareRoot(sqrt)
    ensures 0.0 <= w
  {
    var x := b.cell.x + xOff;
    var z := b.cell.z + zOff;
    if 0 <= x <= b.width && 0 <= z <= b.height then BrushWeight(x, z, b.center, sqrt) else 0.0
  }

  /** The weights of the first `n` offsets `-Radius .. -Radius + n - 1` of row zOff. */
  function RowWeight(b: Brush, sqrt: real -> real, zOff: int, n: nat): (w: real)
    requires IsSquareRoot(sqrt)
    ensures 0.0 <= w
  {
    if n == 0 then 0.0 else RowWeight(b, sqrt, zOff, n - 1) + OffsetWeight(b, sqrt, -Radius + n - 1, zOff)
  }

  /** The weights of the first `rows` rows `-Radius .. -Radius + rows - 1` of the brush. */
  function BrushWeightPrefix(b: Brush, sqrt: real -> real, rows: nat): (w: real)
    requires IsSquareRoot(sqrt)
    ensures 0.0 <= w
  {
    if rows == 0 then 0.0 else BrushWeightPrefix(b, sqrt, rows - 1) + RowWeight(b, sqrt, -Radius + rows - 1, BrushSide)
  }

  /** `WeightSum`: the weights of the whole brush, positive because the droplet's own cell contributes. */
  function BrushWeightTotal(b: Brush, sqrt: real -> real): (w: real)
    requires IsSquareRoot(sqrt)
    requires ValidBrush(b)
    ensures 0.0 < w
  {
    BrushWeightTotalPositive(b, sqrt);
    BrushWeightPrefix(b, sqrt, BrushSide)
  }

  /** A row's weight is at least the weight of each of its offsets. */
  lemma {:induction false} RowWeightAtLeast(b: Brush, sqrt: real -> real, zOff: int, n: nat, xOff: int)
    requires IsSquareRoot(sqrt)
    requires -Radius <= xOff < -Radius + n
    ensures OffsetWeight(b, sqrt, xOff, zOff) <= RowWeight(b, sqrt, zOff, n)
  {
    if xOff < -Radius + n - 1 {
      RowWeightAtLeast(b, sqrt, zOff, n - 1, xOff);
    }
  }

  /** The brush's weight is at least the weight of each of its rows. */
  lemma {:induction false} PrefixAtLeastRow(b: Brush, sqrt: real -> real, rows: nat, zOff: int)
    requires IsSquareRoot(sqrt)
    requires -Radius <= zOff < -Radius + rows
    ensures RowWeight(b, sqrt, zOff, BrushSide) <= BrushWeightPrefix(b, sqrt, rows)
  {
    if zOff < -Radius + rows - 1 {
      PrefixAtLeastRow(b, sqrt, rows - 1, zOff);
    }
  }

  /** The droplet's own cell makes the brush's weight positive, so dividing by it is safe. */
  lemma BrushWeightTotalPositive(b: Brush, sqrt: real -> real)
    requires IsSquareRoot(sqrt)
    requires ValidBrush(b)
    ensures 0.0 < BrushWeightPrefix(b, sqrt, BrushSide)
  {
    BrushWeightOwnCell(b, sqrt);
    RowWeightAtLeast(b, sqrt, 0, BrushSide, 0);
    PrefixAtLeastRow(b, sqrt, BrushSide, 0);
  }

  /** The first pair of brush loops: add up the weights of the brush's points on the grid. */
  method BrushWeightSum(b: Brush, sqrt: real -> real) returns (weightSum: real)
    requires IsSquareRoot(sqrt)
    requires ValidBrush(b)
    ensures weightSum == BrushWeightTotal(b, sqrt)
    ensures 0.0 < weightSum
  {
    weightSum := 0.0;
    var zOff := -Radius;
    while zOff <= Radius
      invariant -Radius <= zOff <= Radius + 1
      invariant weightSum == BrushWeightPrefix(b, sqrt, zOff + Radius)
    {
      var xOff := -Radius;
      while xOff <= Radius
        invariant -Radius <= xOff <= Radius + 1
        invariant weightSum == BrushWeightPrefix(b, sqrt, zOff + Radius) + RowWeight(b, sqrt, zOff, xOff + Radius)
      {
        var x := b.cell.x + xOff;
        var z := b.cell.z + zOff;
        if 0 <= x && x <= b.width && 0 <= z && z <= b.height {
          weightSum := weightSum + BrushWeight(x, z, b.center, sqrt);
        }
        xOff := xOff + 1;
      }
      zOff := zOff + 1;
    }
    BrushWeightTotalPositive(b, sqrt);
  }

  /**
    `Weight*TakeAmount` with `Weight` a raw weight `w` normalised by
    `WeightSum`: the whole weight asks for all of `take`, and a
    non-negative weight a non-negative part of it.
  */
  function Share(w: real, weightSum: real, take: real): (r: real)
    requires weightSum != 0.0
    ensures w == weightSum ==> r == take
    ensures 0.0 <= w && 0.0 < weightSum && 0.0 <= take ==> 0.0 <= r
  {
    assert 0.0 <= w && 0.0 < weightSum && 0.0 <= take ==> 0.0 <= w / weightSum * take by {
      if 0.0 <= w && 0.0 < weightSum && 0.0 <= take {
        MulNonNegative(w / weightSum, take);
      }
    }
    assert w == weightSum ==> w / weightSum * take == take by {
      if w == weightSum {
        assert weightSum / weightSum == 1.0;
      }
    }
    w / weightSum * take
  }

  /** Shares add up: the share of a sum of weights is the sum of their shares. */
  lemma ShareAdd(a: real, w: real, weightSum: real, take: real)
    requires weightSum != 0.0
    ensures Share(a, weightSum, take) + Share(w, weightSum, take) == Share(a + w, weightSum, take)
  {
    assert a / weightSum + w / weightSum == (a + w) / weightSum;
  }

  /** The share of `take` asked of brush point (x, z): never negative when `take` is not. */
  function ErosionAmount(b: Brush, sqrt: real -> real, weightSum: real, take: real, x: int, z: int): (r: real)
    requires IsSquareRoot(sqrt)
    requires 0.0 < weightSum
    ensures 0.0 <= take ==> 0.0 <= r
  {
    Share(BrushWeight(x, z, b.center, sqrt), weightSum, take)
  }

  /** The height brush erosion leaves at grid point (x, z), which had height h. */
  function ErodedHeight(b: Brush, sqrt: real -> real, weightSum: real, take: real, x: int, z: int, h: real): (r: real)
    requires IsSquareRoot(sqrt)
    requires 0.0 < weightSum
    ensures InBrush(b, x, z) ==> 0.0 <= r
    ensures !InBrush(b, x, z) ==> r == h
  {
    if InBrush(b, x, z) then h - CellErosion(h, ErosionAmount(b, sqrt, weightSum, take, x, z)) else h
  }

  /** The heights after a brush erosion of `s0`, entry by entry. */
  ghost function ErodedHeights(b: Brush, sqrt: real -> real, weightSum: real, take: real, s0: seq<real>, n: nat): (t: seq<real>)
    requires IsSquareRoot(sqrt)
    requires 0.0 < weightSum
    requires n <= |s0|
    ensures |t| == n
    ensures forall k :: 0 <= k < n ==>
      t[k] == ErodedHeight(b, sqrt, weightSum, take, k % (b.width + 1), k / (b.width + 1), s0[k])
  {
    if n == 0 then []
    else
      var k := n - 1;
      ErodedHeights(b, sqrt, weightSum, take, s0, k) +
        [ErodedHeight(b, sqrt, weightSum, take, k % (b.width + 1), k / (b.width + 1), s0[k])]
  }

  /** The target heights of a brush erosion, indexed by grid point. */
  lemma ErodedTarget(b: Brush, sqrt: real -> real, weightSum: real, take: real, s0: seq<real>) returns (t: seq<real>)
    requires IsSquareRoot(sqrt)
    requires 0.0 < weightSum
    requires |s0| == PointCount(b.width, b.height)
    ensures |t| == |s0|
    ensures forall x: nat, z: nat :: x <= b.width && z <= b.height ==>
      GridIndex(b.width, x, z) < |t| &&
      t[GridIndex(b.width, x, z)] == ErodedHeight(b, sqrt, weightSum, take, x, z, s0[GridIndex(b.width, x, z)])
    ensures KeepsOutside(b, t, s0)
    ensures t == ErodedHeights(b, sqrt, weightSum, take, s0, |s0|)
  {
    t := ErodedHeights(b, sqrt, weightSum, take, s0, |s0|);
    forall x: nat, z: nat | x <= b.width && z <= b.height
      ensures GridIndex(b.width, x, z) < |t|
      ensures t[GridIndex(b.width, x, z)] == ErodedHeight(b, sqrt, weightSum, take, x, z, s0[GridIndex(b.width, x, z)])
    {
      ErodedHeightsAt(b, sqrt, weightSum, take, s0, x, z);
    }
    TargetKeepsOutside(b, sqrt, weightSum, take, s0, t);
  }

  /** Entry `X + Z*(GridWidth + 1)` of the eroded heights belongs to grid point (X, Z). */
  lemma ErodedHeightsAt(b: Brush, sqrt: real -> real, weightSum: real, take: real, s0: seq<real>, x: nat, z: nat)
    requires IsSquareRoot(sqrt)
    requires 0.0 < weightSum
    requires |s0| == PointCount(b.width, b.height)
    requires x <= b.width && z <= b.height
    ensures GridIndex(b.width, x, z) < |s0|
    ensures ErodedHeights(b, sqrt, weightSum, take, s0, |s0|)[GridIndex(b.width, x, z)]
      == ErodedHeight(b, sqrt, weightSum, take, x, z, s0[GridIndex(b.width, x, z)])
  {
    var k := GridIndex(b.width, x, z);
    GridIndexInBounds(b.width, b.height, x, z);
    GridIndexOnto(b.width, b.height, k);
    GridIndexInjective(b.width, k % (b.width + 1), k / (b.width + 1), x, z);
  }

  /** Eroded heights agree with the originals outside the brush. */
  lemma TargetKeepsOutside(b: Brush, sqrt: real -> real, weightSum: real, take: real, s0: seq<real>, t: seq<real>)
    requires IsSquareRoot(sqrt)
    requires 0.0 < weightSum
    requires |t| == |s0| == PointCount(b.width, b.height)
    requires forall x: nat, z: nat :: x <= b.width && z <= b.height ==>
      GridIndex(b.width, x, z) < |t| &&
      t[GridIndex(b.width, x, z)] == ErodedHeight(b, sqrt, weightSum, take, x, z, s0[GridIndex(b.width, x, z)])
    ensures KeepsOutside(b, t, s0)
  {
  }

  /** `t` agrees with `s0` at every grid point outside the brush. */
  ghost predicate KeepsOutside(b: Brush, t: seq<real>, s0: seq<real>)
    requires |t| == |s0| == PointCount(b.width, b.height)
  {
    GridIndexBounds(b.width, b.height);
    forall x: nat, z: nat :: x <= b.width && z <= b.height && !InBrush(b, x, z) ==>
      t[GridIndex(b.width, x, z)] == s0[GridIndex(b.width, x, z)]
  }

  /** In the loops' row-major order, grid point (x, z) comes before offset (xOff, zOff). */
  predicate VisitedBefore(b: Brush, x: int, z: int, xOff: int, zOff: int)
  {
    z < b.cell.z + zOff || (z == b.cell.z + zOff && x < b.cell.x + xOff)
  }

  /**
    The loop state before offset (xOff, zOff): heights `s` hold the target
    `t` at every grid point already visited and the original `s0` elsewhere.
  */
  ghost predicate ErodedBefore(b: Brush, s: seq<real>, s0: seq<real>, t: seq<real>, xOff: int, zOff: int)
    requires |s| == |s0| == |t| == PointCount(b.width, b.height)
  {
    GridIndexBounds(b.width, b.height);
    forall x: nat, z: nat :: x <= b.width && z <= b.height ==>
      s[GridIndex(b.width, x, z)] == if VisitedBefore(b, x, z, xOff, zOff) then t[GridIndex(b.width, x, z)] else s0[GridIndex(b.width, x, z)]
  }

  /** Writing the target at offset (xOff, zOff), when that point is on the grid, advances the loop state by one offset. */
  lemma ErodedBeforeStep(b: Brush, s: seq<real>, s0: seq<real>, t: seq<real>, xOff: int, zOff: int, s': seq<real>)
    requires |s| == |s0| == |t| == |s'| == PointCount(b.width, b.height)
    requires ErodedBefore(b, s, s0, t, xOff, zOff)
    requires var x := b.cell.x + xOff; var z := b.cell.z + zOff;
      if 0 <= x <= b.width && 0 <= z <= b.height then
        var k := GridIndex(b.width, x, z);
        k < |s| && s' == s[k := t[k]]
      else s' == s
    ensures ErodedBefore(b, s', s0, t, xOff + 1, zOff)
  {
    GridIndexBounds(b.width, b.height);
    var cx := b.cell.x + xOff;
    var cz := b.cell.z + zOff;
    if 0 <= cx <= b.width && 0 <= cz <= b.height {
      GridIndexUnique(b.width, cx, cz);
    }
  }

  /** Before the first offset, the visited points are exactly those before the brush, which keep their heights. */
  lemma ErodedBeforeStart(b: Brush, s0: seq<real>, t: seq<real>)
    requires |s0| == |t| == PointCount(b.width, b.height)
    requires KeepsOutside(b, t, s0)
    ensures ErodedBefore(b, s0, s0, t, -Radius, -Radius)
  {
    GridIndexBounds(b.width, b.height);
  }

  /** Running off the end of a row moves the loop state to the start of the next row. */
  lemma ErodedBeforeNextRow(b: Brush, s: seq<real>, s0: seq<real>, t: seq<real>, zOff: int)
    requires |s| == |s0| == |t| == PointCount(b.width, b.height)
    requires KeepsOutside(b, t, s0)
    requires ErodedBefore(b, s, s0, t, Radius + 1, zOff)
    ensures ErodedBefore(b, s, s0, t, -Radius, zOff + 1)
  {
    GridIndexBounds(b.width, b.height);
  }

  /** Past the last row every grid point holds its target height: the heights are the target. */
  lemma ErodedBeforeDone(b: Brush, s: seq<real>, s0: seq<real>, t: seq<real>)
    requires |s| == |s0| == |t| == PointCount(b.width, b.height)
    requires KeepsOutside(b, t, s0)
    requires ErodedBefore(b, s, s0, t, -Radius, Radius + 1)
    ensures s == t
  {
    forall k | 0 <= k < |s|
      ensures s[k] == t[k]
    {
      GridIndexOnto(b.width, b.height, k);
      var x, z := k % (b.width + 1), k / (b.width + 1);
      assert s[GridIndex(b.width, x, z)] == t[GridIndex(b.width, x, z)];
    }
  }

  /** One brush point: `HeightMap[k] -= DeltaSediment`, where `DeltaSediment` is capped by the height. */
  method ErodeEntry(hm: array<real>, k: nat, amount: real) returns (delta: real)
    requires k < hm.Length
    modifies hm
    ensures delta == CellErosion(old(hm[k]), amount)
    ensures hm[..] == old(hm[..])[k := old(hm[k]) - delta]
    ensures Sum(hm[..]) == Sum(old(hm[..])) - delta
  {
    delta := if hm[k] < amount then hm[k] else amount;
    SumUpdate(hm[..], k, hm[k] - delta);
    hm[k] := hm[k] - delta;
  }

  /**
    One pass of the inner brush loop at offset (xOff, zOff): when the point
    is on the grid it gives up its share of `take`, capped at its height, and
    the loop state advances to the next offset.
  */
  method ErodeOffset(hm: array<real>, b: Brush, sqrt: real -> real, weightSum: real, take: real, xOff: int, zOff: int,
                     ghost s0: seq<real>, ghost t: seq<real>) returns (delta: real)
    requires IsSquareRoot(sqrt)
    requires 0.0 < weightSum
    requires -Radius <= xOff <= Radius && -Radius <= zOff <= Radius
    requires hm.Length == |s0| == |t| == PointCount(b.width, b.height)
    requires forall x: nat, z: nat :: x <= b.width && z <= b.height ==>
      GridIndex(b.width, x, z) < |t| &&
      t[GridIndex(b.width, x, z)] == ErodedHeight(b, sqrt, weightSum, take, x, z, s0[GridIndex(b.width, x, z)])
    requires ErodedBefore(b, hm[..], s0, t, xOff, zOff)
    modifies hm
    ensures ErodedBefore(b, hm[..], s0, t, xOff + 1, zOff)
    ensures Sum(hm[..]) == Sum(old(hm[..])) - delta
    ensures forall k :: 0 <= k < hm.Length ==> hm[k] == old(hm[k]) || 0.0 <= hm[k]
    ensures NonNegative(s0) && 0.0 <= take ==> 0.0 <= delta <= Share(OffsetWeight(b, sqrt, xOff, zOff), weightSum, take)
  {
    ghost var before := hm[..];
    var x := b.cell.x + xOff;
    var z := b.cell.z + zOff;
    if 0 <= x && x <= b.width && 0 <= z && z <= b.height {
      GridIndexInBounds(b.width, b.height, x, z);
      var k := x + z * (b.width + 1);
      assert k == GridIndex(b.width, x, z);
      assert before[k] == s0[k];
      var amount := ErosionAmount(b, sqrt, weightSum, take, x, z);
      delta := ErodeEntry(hm, k, amount);
      assert InBrush(b, x, z);
      assert hm[..] == before[k := t[k]];
      ErodedBeforeStep(b, before, s0, t, xOff, zOff, hm[..]);
      if NonNegative(s0) && 0.0 <= take {
        var w := BrushWeight(x, z, b.center, sqrt);
        assert w == OffsetWeight(b, sqrt, xOff, zOff);
        assert 0.0 <= Share(w, weightSum, take);
        assert 0.0 <= before[k];
      }
    } else {
      delta := 0.0;
      ErodedBeforeStep(b, before, s0, t, xOff, zOff, hm[..]);
    }
  }

  /** The inner brush loop over the offsets of row zOff, and the step to the next row. */
  method ErodeRow(hm: array<real>, b: Brush, sqrt: real -> real, weightSum: real, take: real, zOff: int,
                  ghost s0: seq<real>, ghost t: seq<real>) returns (rowRemoved: real)
    requires IsSquareRoot(sqrt)
    requires 0.0 < weightSum
    requires -Radius <= zOff <= Radius
    requires hm.Length == |s0| == |t| == PointCount(b.width, b.height)
    requires forall x: nat, z: nat :: x <= b.width && z <= b.height ==>
      GridIndex(b.width, x, z) < |t| &&
      t[GridIndex(b.width, x, z)] == ErodedHeight(b, sqrt, weightSum, take, x, z, s0[GridIndex(b.width, x, z)])
    requires KeepsOutside(b, t, s0)
    requires ErodedBefore(b, hm[..], s0, t, -Radius, zOff)
    modifies hm
    ensures ErodedBefore(b, hm[..], s0, t, -Radius, zOff + 1)
    ensures Sum(hm[..]) == Sum(old(hm[..])) - rowRemoved
    ensures forall k :: 0 <= k < hm.Length ==> hm[k] == old(hm[k]) || 0.0 <= hm[k]
    ensures NonNegative(s0) && 0.0 <= take ==> 0.0 <= rowRemoved <= Share(RowWeight(b, sqrt, zOff, BrushSide), weightSum, take)
  {
    rowRemoved := 0.0;
    var xOff := -Radius;
    while xOff <= Radius
      invariant -Radius <= xOff <= Radius + 1
      invariant ErodedBefore(b, hm[..], s0, t, xOff, zOff)
      invariant Sum(hm[..]) == Sum(old(hm[..])) - rowRemoved
      invariant forall k :: 0 <= k < hm.Length ==> hm[k] == old(hm[k]) || 0.0 <= hm[k]
      invariant NonNegative(s0) && 0.0 <= take ==> 0.0 <= rowRemoved <= Share(RowWeight(b, sqrt, zOff, xOff + Radius), weightSum, take)
    {
      var delta := ErodeOffset(hm, b, sqrt, weightSum, take, xOff, zOff, s0, t);
      ShareAdd(RowWeight(b, sqrt, zOff, xOff + Radius), OffsetWeight(b, sqrt, xOff, zOff), weightSum, take);
      rowRemoved := rowRemoved + delta;
      xOff := xOff + 1;
    }
    ErodedBeforeNextRow(b, hm[..], s0, t, zOff);
  }

  /**
    The brush erosion: every point of the brush on the grid gives up its
    share of `take` (weight over `WeightSum`), capped at its height; every
    other entry is unchanged, the droplet gains exactly what the terrain
    lost, and no touched point is left below zero.
  */
  method ErodeBrush(hm: array<real>, b: Brush, take: real, sqrt: real -> real) returns (weightSum: real, removed: real)
    requires IsSquareRoot(sqrt)
    requires ValidBrush(b)
    requires hm.Length == PointCount(b.width, b.height)
    modifies hm
    ensures weightSum == BrushWeightTotal(b, sqrt)
    ensures forall x: nat, z: nat :: x <= b.width && z <= b.height ==>
      GridIndex(b.width, x, z) < hm.Length &&
      hm[GridIndex(b.width, x, z)] == ErodedHeight(b, sqrt, weightSum, take, x, z, old(hm[GridIndex(b.width, x, z)]))
    ensures hm[..] == ErodedHeights(b, sqrt, weightSum, take, old(hm[..]), hm.Length)
    ensures removed == Sum(old(hm[..])) - Sum(hm[..])
    ensures forall k :: 0 <= k < hm.Length ==> hm[k] == old(hm[k]) || 0.0 <= hm[k]
    ensures NonNegative(old(hm[..])) && 0.0 <= take ==> 0.0 <= removed <= take
  {
    weightSum := BrushWeightSum(b, sqrt);
    ghost var s0 := hm[..];
    ghost var t := ErodedTarget(b, sqrt, weightSum, take, s0);
    removed := ErodeBrushPoints(hm, b, sqrt, weightSum, take, t);
  }

  /** The second loop of the brush erosion: every entry of the brush ends at its target `t`. */
  method ErodeBrushPoints(hm: array<real>, b: Brush, sqrt: real -> real, weightSum: real, take: real, ghost t: seq<real>)
    returns (removed: real)
    requires IsSquareRoot(sqrt)
    requires ValidBrush(b)
    requires weightSum == BrushWeightTotal(b, sqrt)
    requires hm.Length == |t| == PointCount(b.width, b.height)
    requires forall x: nat, z: nat :: x <= b.width && z <= b.height ==>
      GridIndex(b.width, x, z) < |t| &&
      t[GridIndex(b.width, x, z)] == ErodedHeight(b, sqrt, weightSum, take, x, z, hm[GridIndex(b.width, x, z)])
    requires KeepsOutside(b, t, hm[..])
    modifies hm
    ensures hm[..] == t
    ensures removed == Sum(old(hm[..])) - Sum(hm[..])
    ensures forall k :: 0 <= k < hm.Length ==> hm[k] == old(hm[k]) || 0.0 <= hm[k]
    ensures NonNegative(old(hm[..])) && 0.0 <= take ==> 0.0 <= removed <= take
  {
    ghost var s0 := hm[..];
    ErodedBeforeStart(b, s0, t);
    removed := 0.0;
    var zOff := -Radius;
    while zOff <= Radius
      invariant -Radius <= zOff <= Radius + 1
      invariant ErodedBefore(b, hm[..], s0, t, -Radius, zOff)
      invariant removed == Sum(s0) - Sum(hm[..])
      invariant forall k :: 0 <= k < hm.Length ==> hm[k] == s0[k] || 0.0 <= hm[k]
      invariant NonNegative(s0) && 0.0 <= take ==> 0.0 <= removed <= Share(BrushWeightPrefix(b, sqrt, zOff + Radius), weightSum, take)
    {
      var rowRemoved := ErodeRow(hm, b, sqrt, weightSum, take, zOff, s0, t);
      ShareAdd(BrushWeightPrefix(b, sqrt, zOff + Radius), RowWeight(b, sqrt, zOff, BrushSide), weightSum, take);
      removed := removed + rowRemoved;
      zOff := zOff + 1;
    }
    ErodedBeforeDone(b, hm[..], s0, t);
    assert Share(weightSum, weightSum, take) == take;
  }

  // ---------------------------------------------------------------------
  // One droplet step
  // ---------------------------------------------------------------------

  /** The height the droplet samples at a position of the domain: bilinear in its cell. */
  function SampleHeight(hm: seq<real>, width: nat, height: nat, p: Vec2): (r: real)
    requires |hm| == PointCount(width, height)
    requires InDomain(width, height, p)
    ensures var h := CornerHeights(hm, width, height, CellOf(width, height, p));
      Min(Min(h[0], h[1]), Min(h[2], h[3])) <= r <= Max(Max(h[0], h[1]), Max(h[2], h[3]))
  {
    var c := CellOf(width, height, p);
    var uv := CellOffset(c, p);
    Bilinear(CornerHeights(hm, width, height, c), uv.x, uv.y)
  }

  /** The height gradient under a position of the domain: zero on a level cell. */
  function SampleGradient(hm: seq<real>, width: nat, height: nat, p: Vec2): (g: Vec2)
    requires |hm| == PointCount(width, height)
    requires InDomain(width, height, p)
    ensures var h := CornerHeights(hm, width, height, CellOf(width, height, p));
      h[0] == h[1] == h[2] == h[3] ==> g == Vec2(0.0, 0.0)
  {
    var c := CellOf(width, height, p);
    var uv := CellOffset(c, p);
    HeightGradient(CornerHeights(hm, width, height, c), uv.x, uv.y)
  }

  /**
    `NOZ(Lerp(Grad, DropletDir, DropletInertia))`: the new direction is the
    unit vector along the inertia blend of gradient and old direction, or
    zero when that blend is (nearly) zero.
  */
  function Steer(grad: Vec2, dir: Vec2, sqrt: real -> real): (r: Vec2)
    requires IsSquareRoot(sqrt)
    ensures var blend := LerpVec2(grad, dir, DropletInertia);
      (Length2(blend, sqrt) <= Epsilon ==> r == Vec2(0.0, 0.0)) &&
      (Length2(blend, sqrt) > Epsilon ==> Dot2(r, r) == 1.0 && SameDirection2(r, blend))
  {
    NOZ(LerpVec2(grad, dir, DropletInertia), sqrt)
  }

  /**
    The guard after the move: the droplet goes on only with a non-zero
    direction and a new position inside [0, GridWidth) x [0, GridHeight).
  */
  predicate KeepsFlowing(width: nat, height: nat, dir: Vec2, p: Vec2)
  {
    !(dir.x == 0.0 && dir.y == 0.0) && InDomain(width, height, p)
  }

  /** The guard admits exactly the positions whose four corners can be read. */
  lemma KeepsFlowingReadsInBounds(width: nat, height: nat, dir: Vec2, p: Vec2)
    requires KeepsFlowing(width, height, dir, p)
    ensures var c := CellOf(width, height, p);
      c.x < width && c.z < height &&
      forall k :: 0 <= k < 4 ==> CornerIndices(width, height, c)[k] < PointCount(width, height)
  {
  }

  /**
    `HeightDiff = NewHeight - OldHeight`, both sampled before the terrain
    changes: bounded by the corner heights of the new and the old cell.
  */
  function HeightDiff(hm: seq<real>, width: nat, height: nat, p: Vec2, newP: Vec2): (r: real)
    requires |hm| == PointCount(width, height)
    requires InDomain(width, height, p) && InDomain(width, height, newP)
    ensures var hNew := CornerHeights(hm, width, height, CellOf(width, height, newP));
      var hOld := CornerHeights(hm, width, height, CellOf(width, height, p));
      Min(Min(hNew[0], hNew[1]), Min(hNew[2], hNew[3])) - Max(Max(hOld[0], hOld[1]), Max(hOld[2], hOld[3])) <= r <=
      Max(Max(hNew[0], hNew[1]), Max(hNew[2], hNew[3])) - Min(Min(hOld[0], hOld[1]), Min(hOld[2], hOld[3]))
  {
    SampleHeight(hm, width, height, newP) - SampleHeight(hm, width, height, p)
  }

  /** The brush centred on a droplet standing at p. */
  function BrushAt(width: nat, height: nat, p: Vec2): (b: Brush)
    requires InDomain(width, height, p)
    ensures ValidBrush(b)
  {
    Brush(width, height, CellOf(width, height, p), p)
  }

  /**
    What the deposit-or-erode branch does to heights `s0`: the new heights
    and the new sediment load. It deposits `DropAmount` on the old cell's
    corners, or erodes `TakeAmount` from the brush and carries off what was
    removed.
  */
  ghost function Transfer(width: nat, height: nat, p: Vec2, sediment: real, cap: real, heightDiff: real,
                          sqrt: real -> real, s0: seq<real>): (r: (seq<real>, real))
    requires IsSquareRoot(sqrt)
    requires InDomain(width, height, p)
    requires cap >= MinCarryCapacity
    requires |s0| == PointCount(width, height)
    ensures |r.0| == |s0|
  {
    var c := CellOf(width, height, p);
    var uv := CellOffset(c, p);
    if Deposits(cap, sediment, heightDiff) then
      var drop := DropAmount(cap, sediment, heightDiff);
      (Deposited(s0, CornerIndices(width, height, c), DepositShares(uv.x, uv.y, drop)), sediment - drop)
    else
      var take := TakeAmount(cap, sediment, heightDiff);
      var b := BrushAt(width, height, p);
      var s := ErodedHeights(b, sqrt, BrushWeightTotal(b, sqrt), take, s0, |s0|);
      (s, sediment + (Sum(s0) - Sum(s)))
  }

  /**
    The deposit-or-erode branch of a droplet standing (before its move) at p:
    terrain plus sediment is conserved and neither goes negative.
  */
  method TransferSediment(hm: array<real>, width: nat, height: nat, p: Vec2, sediment: real, cap: real, heightDiff: real,
                          sqrt: real -> real) returns (newSediment: real)
    requires IsSquareRoot(sqrt)
    requires hm.Length == PointCount(width, height)
    requires InDomain(width, height, p)
    requires cap >= MinCarryCapacity
    modifies hm
    ensures (hm[..], newSediment) == Transfer(width, height, p, sediment, cap, heightDiff, sqrt, old(hm[..]))
    ensures Sum(hm[..]) + newSediment == Sum(old(hm[..])) + sediment
    ensures 0.0 <= sediment && NonNegative(old(hm[..])) ==> 0.0 <= newSediment && NonNegative(hm[..])
  {
    if cap < sediment || heightDiff > 0.0 {
      newSediment := DepositBranch(hm, width, height, p, sediment, cap, heightDiff, sqrt);
    } else {
      newSediment := ErodeBranch(hm, width, height, p, sediment, cap, heightDiff, sqrt);
    }
  }

  /** The deposit branch: `DropAmount` leaves the droplet and lands on the old cell's corners. */
  method DepositBranch(hm: array<real>, width: nat, height: nat, p: Vec2, sediment: real, cap: real, heightDiff: real,
                       sqrt: real -> real) returns (newSediment: real)
    requires IsSquareRoot(sqrt)
    requires hm.Length == PointCount(width, height)
    requires InDomain(width, height, p)
    requires cap >= MinCarryCapacity
    requires Deposits(cap, sediment, heightDiff)
    modifies hm
    ensures (hm[..], newSediment) == Transfer(width, height, p, sediment, cap, heightDiff, sqrt, old(hm[..]))
    ensures Sum(hm[..]) + newSediment == Sum(old(hm[..])) + sediment
    ensures 0.0 <= sediment && NonNegative(old(hm[..])) ==> 0.0 <= newSediment && NonNegative(hm[..])
  {
    ghost var hm0 := hm[..];
    var c := CellOf(width, height, p);
    var uv := CellOffset(c, p);
    var drop := DropAmount(cap, sediment, heightDiff);
    newSediment := sediment - drop;
    Deposit(hm, width, height, c, uv.x, uv.y, drop);
    assert Transfer(width, height, p, sediment, cap, heightDiff, sqrt, hm0)
        == (Deposited(hm0, CornerIndices(width, height, c), DepositShares(uv.x, uv.y, drop)), newSediment);
  }

  /** The erosion branch: the brush around the old cell gives up to `TakeAmount` to the droplet. */
  method ErodeBranch(hm: array<real>, width: nat, height: nat, p: Vec2, sediment: real, cap: real, heightDiff: real,
                     sqrt: real -> real) returns (newSediment: real)
    requires IsSquareRoot(sqrt)
    requires hm.Length == PointCount(width, height)
    requires InDomain(width, height, p)
    requires cap >= MinCarryCapacity
    requires !Deposits(cap, sediment, heightDiff)
    modifies hm
    ensures (hm[..], newSediment) == Transfer(width, height, p, sediment, cap, heightDiff, sqrt, old(hm[..]))
    ensures Sum(hm[..]) + newSediment == Sum(old(hm[..])) + sediment
    ensures 0.0 <= sediment && NonNegative(old(hm[..])) ==> 0.0 <= newSediment && NonNegative(hm[..])
  {
    ghost var hm0 := hm[..];
    var take := TakeAmount(cap, sediment, heightDiff);
    var b := BrushAt(width, height, p);
    var weightSum, removed := ErodeBrush(hm, b, take, sqrt);
    newSediment := sediment + removed;
    assert Transfer(width, height, p, sediment, cap, heightDiff, sqrt, hm0)
        == (ErodedHeights(b, sqrt, weightSum, take, hm0, |hm0|), newSediment);
    if NonNegative(hm0) {
      forall k | 0 <= k < hm.Length
        ensures 0.0 <= hm[k]
      {
      }
    }
  }

  /**
    One pass of the lifetime loop: read the four corners of the droplet's
    cell, steer, move, and either stop (the guard) or deposit on the old
    corners or erode the brush around the old cell, then update speed and
    water. Terrain plus sediment is conserved, and neither goes negative.
  */
  method DropletStep(hm: array<real>, width: nat, height: nat, d: Droplet, sqrt: real -> real) returns (next: Droplet, alive: bool)
    requires IsSquareRoot(sqrt)
    requires hm.Length == PointCount(width, height)
    requires InDomain(width, height, d.p)
    modifies hm
    ensures Outcome(hm[..], next, alive) == Step(old(hm[..]), width, height, d, sqrt)
    ensures Sum(hm[..]) + next.sediment == Sum(old(hm[..])) + d.sediment
    ensures 0.0 <= d.sediment && NonNegative(old(hm[..])) ==> 0.0 <= next.sediment && NonNegative(hm[..])
  {
    ghost var hm0 := hm[..];
    var dir := Steer(SampleGradient(hm[..], width, height, d.p), d.dir, sqrt);
    var newP := Sub2(d.p, dir);
    if !KeepsFlowing(width, height, dir, newP) {
      next := d.(p := newP, dir := dir);
      alive := false;
      assert Step(hm0, width, height, d, sqrt) == Outcome(hm0, next, false);
      return;
    }
    alive := true;
    var hd := HeightDiff(hm[..], width, height, d.p, newP);
    var cap := CarryCapacity(hd, d.speed, d.water);
    var speed := NextSpeed(d.speed, hd, sqrt);
    StepFlows(hm0, width, height, d, sqrt, dir, newP, hd);
    var sediment := TransferSediment(hm, width, height, d.p, d.sediment, cap, hd, sqrt);
    next := Droplet(newP, dir, sediment, speed, d.water * (1.0 - DropletEvaporation));
  }

  /** The state after one lifetime step: heights, droplet, and whether the droplet goes on. */
  datatype Outcome = Outcome(heights: seq<real>, next: Droplet, alive: bool)

  /**
    One pass of the lifetime loop on heights `s`: steer and move; stop at the
    guard with the terrain untouched; otherwise deposit or erode, then update
    speed and water.
  */
  ghost function Step(s: seq<real>, width: nat, height: nat, d: Droplet, sqrt: real -> real): (o: Outcome)
    requires IsSquareRoot(sqrt)
    requires |s| == PointCount(width, height)
    requires InDomain(width, height, d.p)
    ensures |o.heights| == |s|
    ensures o.alive ==> InDomain(width, height, o.next.p)
    ensures !o.alive ==> o.heights == s && o.next.sediment == d.sediment
  {
    var dir := Steer(SampleGradient(s, width, height, d.p), d.dir, sqrt);
    var newP := Sub2(d.p, dir);
    if !KeepsFlowing(width, height, dir, newP) then
      Outcome(s, d.(p := newP, dir := dir), false)
    else
      var hd := HeightDiff(s, width, height, d.p, newP);
      var cap := CarryCapacity(hd, d.speed, d.water);
      var t := Transfer(width, height, d.p, d.sediment, cap, hd, sqrt, s);
      Outcome(t.0, Droplet(newP, dir, t.1, NextSpeed(d.speed, hd, sqrt), d.water * (1.0 - DropletEvaporation)), true)
  }

  /** When the droplet passes the guard, `Step` is the sediment transfer at the old position. */
  lemma StepFlows(s: seq<real>, width: nat, height: nat, d: Droplet, sqrt: real -> real, dir: Vec2, newP: Vec2, hd: real)
    requires IsSquareRoot(sqrt)
    requires |s| == PointCount(width, height)
    requires InDomain(width, height, d.p)
    requires dir == Steer(SampleGradient(s, width, height, d.p), d.dir, sqrt)
    requires newP == Sub2(d.p, dir)
    requires KeepsFlowing(width, height, dir, newP)
    requires hd == HeightDiff(s, width, height, d.p, newP)
    ensures var t := Transfer(width, height, d.p, d.sediment, CarryCapacity(hd, d.speed, d.water), hd, sqrt, s);
      Step(s, width, height, d, sqrt)
      == Outcome(t.0, Droplet(newP, dir, t.1, NextSpeed(d.speed, hd, sqrt), d.water * (1.0 - DropletEvaporation)), true)
  {
  }

  // ---------------------------------------------------------------------
  // Droplets
  // ---------------------------------------------------------------------

  /**
    The lifetime loop of droplet d over at most `steps` steps on heights `s`:
    the final heights and the sediment the droplet carries when it stops.
  */
  ghost function Lifetime(s: seq<real>, width: nat, height: nat, d: Droplet, sqrt: real -> real, steps: nat): (r: (seq<real>, real))
    requires IsSquareRoot(sqrt)
    requires |s| == PointCount(width, height)
    requires InDomain(width, height, d.p)
    ensures |r.0| == |s|
    decreases steps, 1
  {
    if steps == 0 then (s, d.sediment)
    else StepAndContinue(s, width, height, d, sqrt, steps)
  }

  /**
    A lifetime with `steps > 0` passes left: one `Step`, then the rest of
    the lifetime if the droplet goes on, else the state it stopped in.
  */
  ghost function StepAndContinue(s: seq<real>, width: nat, height: nat, d: Droplet, sqrt: real -> real, steps: nat): (r: (seq<real>, real))
    requires IsSquareRoot(sqrt)
    requires |s| == PointCount(width, height)
    requires InDomain(width, height, d.p)
    requires steps > 0
    ensures |r.0| == |s|
    decreases steps, 0
  {
    var o := Step(s, width, height, d, sqrt);
    if o.alive then Lifetime(o.heights, width, height, o.next, sqrt, steps - 1)
    else (o.heights, o.next.sediment)
  }

  /** Droplet d with `steps` passes left on heights `s` ends its lifetime in `total`. */
  ghost predicate LifetimeEndsIn(s: seq<real>, width: nat, height: nat, d: Droplet, sqrt: real -> real, steps: nat, total: (seq<real>, real))
    requires IsSquareRoot(sqrt)
    requires |s| == PointCount(width, height)
    requires InDomain(width, height, d.p)
  {
    Lifetime(s, width, height, d, sqrt, steps) == total
  }

  /**
    A lifetime with steps left is its first `Step`, then the rest if the
    droplet goes on: the outcome of the rest equals the outcome of the whole.
  */
  lemma LifetimeAfterStep(s: seq<real>, width: nat, height: nat, d: Droplet, sqrt: real -> real, steps: nat,
                          heights: seq<real>, next: Droplet, alive: bool, total: (seq<real>, real))
    requires IsSquareRoot(sqrt)
    requires |s| == PointCount(width, height)
    requires InDomain(width, height, d.p)
    requires steps > 0
    requires Outcome(heights, next, alive) == Step(s, width, height, d, sqrt)
    requires Lifetime(s, width, height, d, sqrt, steps) == total
    ensures alive ==> InDomain(width, height, next.p) && |heights| == |s|
    ensures alive ==> Lifetime(heights, width, height, next, sqrt, steps - 1) == total
    ensures !alive ==> total == (heights, next.sediment)
  {
    assert Lifetime(s, width, height, d, sqrt, steps) == StepAndContinue(s, width, height, d, sqrt, steps);
  }

  /** The heights after the first n droplets, each spawned at the next two draws. */
  ghost function Droplets(s: seq<real>, width: nat, height: nat, draws: seq<nat>, sqrt: real -> real, n: nat): (t: seq<real>)
    requires IsSquareRoot(sqrt)
    requires width > 0 && height > 0
    requires |s| == PointCount(width, height)
    requires |draws| >= 2 * n
    ensures |t| == |s|
  {
    if n == 0 then s
    else
      var before := Droplets(s, width, height, draws, sqrt, n - 1);
      var p := SpawnPosition(width, height, draws[2 * (n - 1)], draws[2 * (n - 1) + 1]);
      Lifetime(before, width, height, Spawn(p), sqrt, MaxLifeTime).0
  }

  /** Droplet n + 1 runs its lifetime on the heights the first n droplets left. */
  lemma DropletsNext(s: seq<real>, width: nat, height: nat, draws: seq<nat>, sqrt: real -> real, n: nat)
    requires IsSquareRoot(sqrt)
    requires width > 0 && height > 0
    requires |s| == PointCount(width, height)
    requires |draws| >= 2 * (n + 1)
    ensures Droplets(s, width, height, draws, sqrt, n + 1)
         == Lifetime(Droplets(s, width, height, draws, sqrt, n), width, height,
                     Spawn(SpawnPosition(width, height, draws[2 * n], draws[2 * n + 1])), sqrt, MaxLifeTime).0
  {
  }

  /**
    One pass of the lifetime loop: a `DropletStep` from a droplet whose
    remaining lifetime (with `left` steps) ends in `total`. If the droplet
    goes on, its remaining lifetime from the new state still ends there;
    if it stops, `total` is the state it stopped in. Heights plus sediment
    keep the total of the heights `s0` the droplet started on, and a
    droplet started on non-negative heights keeps them non-negative.
  */
  method LifetimePass(hm: array<real>, width: nat, height: nat, d: Droplet, sqrt: real -> real,
                      ghost left: nat, ghost total: (seq<real>, real), ghost s0: seq<real>)
    returns (next: Droplet, alive: bool)
    requires IsSquareRoot(sqrt)
    requires hm.Length == PointCount(width, height)
    requires InDomain(width, height, d.p)
    requires left > 0 && LifetimeEndsIn(hm[..], width, height, d, sqrt, left, total)
    requires Sum(hm[..]) + d.sediment == Sum(s0)
    requires NonNegative(s0) ==> NonNegative(hm[..]) && 0.0 <= d.sediment
    modifies hm
    ensures alive ==> InDomain(width, height, next.p) && LifetimeEndsIn(hm[..], width, height, next, sqrt, left - 1, total)
    ensures !alive ==> total == (hm[..], next.sediment)
    ensures Sum(hm[..]) + next.sediment == Sum(s0)
    ensures NonNegative(s0) ==> NonNegative(hm[..]) && 0.0 <= next.sediment
  {
    ghost var before := hm[..];
    next, alive := DropletStep(hm, width, height, d, sqrt);
    ghost var after := hm[..];
    LifetimeAfterStep(before, width, height, d, sqrt, left, after, next, alive, total);
  }

  /**
    The lifetime loop of one droplet spawned at p: at most `MaxLifeTime`
    steps, stopping at the guard. Whatever sediment the droplet still
    carries at the end leaves the terrain with it.
  */
  method SimulateDroplet(hm: array<real>, width: nat, height: nat, p: Vec2, sqrt: real -> real) returns (carriedOff: real)
    requires IsSquareRoot(sqrt)
    requires hm.Length == PointCount(width, height)
    requires InDomain(width, height, p)
    modifies hm
    ensures (hm[..], carriedOff) == Lifetime(old(hm[..]), width, height, Spawn(p), sqrt, MaxLifeTime)
    ensures Sum(hm[..]) + carriedOff == Sum(old(hm[..]))
    ensures NonNegative(old(hm[..])) ==> NonNegative(hm[..]) && 0.0 <= carriedOff
  {
    ghost var s0 := hm[..];
    var d := Spawn(p);
    var lifeTime := 0;
    ghost var left: nat := MaxLifeTime;
    ghost var total := Lifetime(s0, width, height, d, sqrt, left);
    while lifeTime < MaxLifeTime
      invariant lifeTime <= MaxLifeTime && left == MaxLifeTime - lifeTime
      invariant InDomain(width, height, d.p)
      invariant LifetimeEndsIn(hm[..], width, height, d, sqrt, left, total)
      invariant Sum(hm[..]) + d.sediment == Sum(s0)
      invariant NonNegative(s0) ==> NonNegative(hm[..]) && 0.0 <= d.sediment
    {
      var next, alive := LifetimePass(hm, width, height, d, sqrt, left, total, s0);
      if !alive {
        carriedOff := next.sediment;
        return;
      }
      d := next;
      lifeTime := lifeTime + 1;
      left := left - 1;
    }
    carriedOff := d.sediment;
  }

  /**
    `WaterErosion`: `DropletsCount` droplets, each spawned at the grid point
    given by the next two draws of the random stream. On a non-negative
    height map the terrain stays non-negative and never gains mass: it
    loses exactly the sediment the droplets carry off.
  */
  method WaterErosion(hm: array<real>, width: nat, height: nat, draws: seq<nat>, sqrt: real -> real) returns (ghost carriedOff: real)
    requires IsSquareRoot(sqrt)
    requires width > 0 && height > 0
    requires hm.Length == PointCount(width, height)
    requires |draws| >= 2 * DropletsCount
    modifies hm
    ensures hm[..] == Droplets(old(hm[..]), width, height, draws, sqrt, DropletsCount)
    ensures Sum(hm[..]) + carriedOff == Sum(old(hm[..]))
    ensures NonNegative(old(hm[..])) ==> NonNegative(hm[..]) && 0.0 <= carriedOff && Sum(hm[..]) <= Sum(old(hm[..]))
  {
    ghost var s0 := hm[..];
    carriedOff := 0.0;
    var droplet := 0;
    while droplet < DropletsCount
      invariant droplet <= DropletsCount
      invariant hm[..] == Droplets(s0, width, height, draws, sqrt, droplet)
      invariant Sum(hm[..]) + carriedOff == Sum(s0)
      invariant NonNegative(s0) ==> NonNegative(hm[..]) && 0.0 <= carriedOff
    {
      var p := SpawnPosition(width, height, draws[2 * droplet], draws[2 * droplet + 1]);
      var lost := SimulateDroplet(hm, width, height, p, sqrt);
      DropletsNext(s0, width, height, draws, sqrt, droplet);
      carriedOff := carriedOff + lost;
      droplet := droplet + 1;
    }
  }
}
