/**
  The height map layout shared by `WaterErosion`, `CalculateNormal` and
  `GenerateTerrain` in main.cpp: a `(GridWidth + 1) x (GridHeight + 1)` array
  of heights stored row by row, grid point (X, Z) at `X + Z*(GridWidth + 1)`.
*/
module Grid {

  /**
    `X + Z*(GridWidth + 1)`: where grid point (x, z) lives in the height map,
    inside the slice of row z.
  */
  function GridIndex(width: nat, x: nat, z: nat): (i: nat)
    ensures z * (width + 1) <= i
    ensures x <= width ==> i < (z + 1) * (width + 1)
  {
    x + z * (width + 1)
  }

  /** The number of grid points, `(GridWidth + 1)*(GridHeight + 1)`. */
  function PointCount(width: nat, height: nat): nat
  {
    (width + 1) * (height + 1)
  }

  /** Every grid point of a `width x height` grid has an index inside the height map. */
  lemma GridIndexInBounds(width: nat, height: nat, x: nat, z: nat)
    requires x <= width && z <= height
    ensures GridIndex(width, x, z) < PointCount(width, height)
  {
    MulMonotone(z, height, width + 1);
    assert (width + 1) * (height + 1) == height * (width + 1) + width + 1;
  }

  /** Every grid point has an index inside the height map. */
  lemma GridIndexBounds(width: nat, height: nat)
    ensures forall x: nat, z: nat :: x <= width && z <= height ==> GridIndex(width, x, z) < PointCount(width, height)
  {
    forall x: nat, z: nat | x <= width && z <= height
      ensures GridIndex(width, x, z) < PointCount(width, height)
    {
      GridIndexInBounds(width, height, x, z);
    }
  }

  /** `a <= b` implies `a * c <= b * c` for natural numbers. */
  lemma MulMonotone(a: nat, b: nat, c: nat)
    requires a <= b
    ensures a * c <= b * c
  {
    assert b * c == a * c + (b - a) * c;
  }

  /** Distinct grid points have distinct indices. */
  lemma GridIndexInjective(width: nat, x1: nat, z1: nat, x2: nat, z2: nat)
    requires x1 <= width && x2 <= width
    requires GridIndex(width, x1, z1) == GridIndex(width, x2, z2)
    ensures x1 == x2 && z1 == z2
  {
    if z1 < z2 {
      MulMonotone(1, z2 - z1, width + 1);
      assert false;
    } else if z2 < z1 {
      MulMonotone(1, z1 - z2, width + 1);
      assert false;
    }
  }

  /** No other grid point shares the index of grid point (x, z). */
  lemma GridIndexUnique(width: nat, x: nat, z: nat)
    requires x <= width
    ensures forall x': nat, z': nat :: x' <= width && GridIndex(width, x', z') == GridIndex(width, x, z) ==> x' == x && z' == z
  {
    forall x': nat, z': nat | x' <= width && GridIndex(width, x', z') == GridIndex(width, x, z)
      ensures x' == x && z' == z
    {
      GridIndexInjective(width, x', z', x, z);
    }
  }

  /** Every index of the height map is the index of some grid point. */
  lemma GridIndexOnto(width: nat, height: nat, k: nat)
    requires k < PointCount(width, height)
    ensures k % (width + 1) <= width && k / (width + 1) <= height
    ensures GridIndex(width, k % (width + 1), k / (width + 1)) == k
  {
    var z := k / (width + 1);
    if z > height {
      MulMonotone(height + 1, z, width + 1);
      assert false;
    }
  }

  /** Grid point (x, z) is recovered from its index by `% (width + 1)` and `/ (width + 1)`. */
  lemma GridIndexCoordinates(width: nat, x: nat, z: nat)
    requires x <= width
    ensures GridIndex(width, x, z) % (width + 1) == x
    ensures GridIndex(width, x, z) / (width + 1) == z
  {
    var k := GridIndex(width, x, z);
    var q := k / (width + 1);
    var r := k % (width + 1);
    assert k == r + q * (width + 1);
    GridIndexInjective(width, r, q, x, z);
  }

  /** The point one past the end of row z is the first point of row z + 1. */
  lemma GridIndexNextRow(width: nat, z: nat)
    ensures GridIndex(width, width + 1, z) == GridIndex(width, 0, z + 1)
  {
  }

  /** `(z + 1) * n == z * n + n`. */
  lemma MulSucc(z: nat, n: nat)
    ensures (z + 1) * n == z * n + n
  {
  }

  // ---------------------------------------------------------------------
  // Values laid out row by row
  // ---------------------------------------------------------------------

  /** `f` is defined at every point of the first `rows` rows of a `width`-wide grid. */
  ghost predicate DefinedOnRows<T>(f: (nat, nat) --> T, width: nat, rows: nat)
  {
    forall x: nat, z: nat :: x <= width && z < rows ==> f.requires(x, z)
  }

  /** The values of f at the first n points (0, z) .. (n - 1, z) of row z. */
  function GridRow<T>(f: (nat, nat) --> T, width: nat, z: nat, n: nat): (r: seq<T>)
    requires n <= width + 1
    requires DefinedOnRows(f, width, z + 1)
    ensures |r| == n
  {
    if n == 0 then [] else GridRow(f, width, z, n - 1) + [f(n - 1, z)]
  }

  /** The values of f at every point of the first `rows` rows, one row after another. */
  function GridRows<T>(f: (nat, nat) --> T, width: nat, rows: nat): (r: seq<T>)
    requires DefinedOnRows(f, width, rows)
  {
    if rows == 0 then [] else GridRows(f, width, rows - 1) + GridRow(f, width, rows - 1, width + 1)
  }

  /** Row z holds f's value at (x, z) in place x. */
  lemma {:induction false} GridRowAt<T>(f: (nat, nat) --> T, width: nat, z: nat, n: nat, x: nat)
    requires n <= width + 1 && x < n
    requires DefinedOnRows(f, width, z + 1)
    ensures GridRow(f, width, z, n)[x] == f(x, z)
  {
    if x < n - 1 {
      GridRowAt(f, width, z, n - 1, x);
    }
  }

  /** `rows` rows hold `rows * (width + 1)` values. */
  lemma {:induction false} GridRowsLength<T>(f: (nat, nat) --> T, width: nat, rows: nat)
    requires DefinedOnRows(f, width, rows)
    ensures |GridRows(f, width, rows)| == rows * (width + 1)
  {
    if rows > 0 {
      GridRowsLength(f, width, rows - 1);
      MulSucc(rows - 1, width + 1);
    }
  }

  /** Row-major layout: f's value at grid point (x, z) sits at `GridIndex(width, x, z)`. */
  lemma {:induction false} GridRowsAt<T>(f: (nat, nat) --> T, width: nat, rows: nat, x: nat, z: nat)
    requires DefinedOnRows(f, width, rows)
    requires x <= width && z < rows
    ensures GridIndex(width, x, z) < |GridRows(f, width, rows)|
    ensures GridRows(f, width, rows)[GridIndex(width, x, z)] == f(x, z)
  {
    GridRowsLength(f, width, rows - 1);
    GridRowsLength(f, width, rows);
    if z < rows - 1 {
      GridRowsAt(f, width, rows - 1, x, z);
    } else {
      GridRowAt(f, width, z, width + 1, x);
    }
  }

  /** A property of (index, value) that holds at every grid point holds at every entry of the rows. */
  lemma GridRowsAll<T>(f: (nat, nat) --> T, width: nat, height: nat, P: (nat, T) -> bool, s: seq<T>)
    requires DefinedOnRows(f, width, height + 1)
    requires s == GridRows(f, width, height + 1)
    requires forall x: nat, z: nat :: x <= width && z <= height ==> P(GridIndex(width, x, z), f(x, z))
    ensures |s| == PointCount(width, height)
    ensures forall k :: 0 <= k < |s| ==> P(k, s[k])
  {
    GridRowsLength(f, width, height + 1);
    forall k | 0 <= k < |s|
      ensures P(k, s[k])
    {
      var x, z := GridPointOf(width, height + 1, k);
      GridRowsAt(f, width, height + 1, x, z);
    }
  }

  /** A property that holds at every grid point holds at every entry of the rows. */
  lemma GridRowsEvery<T>(f: (nat, nat) --> T, width: nat, height: nat, P: T -> bool, s: seq<T>)
    requires DefinedOnRows(f, width, height + 1)
    requires s == GridRows(f, width, height + 1)
    requires forall x: nat, z: nat :: x <= width && z <= height ==> P(f(x, z))
    ensures |s| == PointCount(width, height)
    ensures forall k :: 0 <= k < |s| ==> P(s[k])
  {
    GridRowsAll(f, width, height, (k: nat, v: T) => P(v), s);
  }

  /** Entry k of `rows` rows belongs to grid point (k % (width + 1), k / (width + 1)). */
  lemma GridPointOf(width: nat, rows: nat, k: nat) returns (x: nat, z: nat)
    requires k < rows * (width + 1)
    ensures x <= width && z < rows && GridIndex(width, x, z) == k
  {
    x := k % (width + 1);
    z := k / (width + 1);
    assert k == x + z * (width + 1);
    if z >= rows {
      MulMonotone(rows, z, width + 1);
      assert false;
    }
  }

  /** The entry of grid point (x, z) is any v that equals f(x, z). */
  lemma GridRowsAtValue<T>(f: (nat, nat) --> T, width: nat, rows: nat, x: nat, z: nat, v: T)
    requires DefinedOnRows(f, width, rows)
    requires x <= width && z < rows
    requires f(x, z) == v
    ensures GridIndex(width, x, z) < |GridRows(f, width, rows)|
    ensures GridRows(f, width, rows)[GridIndex(width, x, z)] == v
  {
    GridRowsAt(f, width, rows, x, z);
  }

  // ---------------------------------------------------------------------
  // Totals
  // ---------------------------------------------------------------------

  /** The total of a sequence of heights: the terrain's mass. */
  function Sum(s: seq<real>): real
  {
    if |s| == 0 then 0.0 else Sum(s[..|s| - 1]) + s[|s| - 1]
  }

  /** Replacing one entry changes the total by exactly the difference. */
  lemma {:induction false} SumUpdate(s: seq<real>, k: nat, v: real)
    requires k < |s|
    ensures Sum(s[k := v]) == Sum(s) - s[k] + v
  {
    var t := s[k := v];
    if k == |s| - 1 {
      assert t[..|t| - 1] == s[..|s| - 1];
    } else {
      assert t[..|t| - 1] == s[..|s| - 1][k := v];
      SumUpdate(s[..|s| - 1], k, v);
    }
  }

  /** Every height is non-negative. */
  predicate NonNegative(s: seq<real>)
  {
    forall k :: 0 <= k < |s| ==> 0.0 <= s[k]
  }

  /** A total of non-negative heights is non-negative. */
  lemma {:induction false} SumNonNegative(s: seq<real>)
    requires NonNegative(s)
    ensures 0.0 <= Sum(s)
  {
    if |s| > 0 {
      SumNonNegative(s[..|s| - 1]);
    }
  }
}
