/**
  The scalar and small-vector helpers of math_utils.cpp that the terrain
  pipeline relies on, stated over exact reals and unbounded integers.
  `float` becomes `real`; `int32_t`/`uint32_t` become `int`/`nat`.
  The square root that `sqrtf` computes is not defined here: every member
  that needs it takes it as a parameter `sqrt` and assumes only
  `IsSquareRoot(sqrt)`.
*/
module MathUtils {

  datatype Vec2 = Vec2(x: real, y: real)
  datatype Vec3 = Vec3(x: real, y: real, z: real)

  /** The `Epsilon` below which `NOZ` treats a vector as zero (1.19e-7). */
  const Epsilon: real := 0.000000119

  /** `sqrt` agrees with the mathematical square root on non-negative reals. */
  ghost predicate IsSquareRoot(sqrt: real -> real) {
    forall v: real {:trigger sqrt(v)} :: 0.0 <= v ==> 0.0 <= sqrt(v) && sqrt(v) * sqrt(v) == v
  }

  // ---------------------------------------------------------------------
  // Integer helpers
  // ---------------------------------------------------------------------

  /** `Absolute(int32_t)`: the magnitude, returned as an unsigned value. */
  function Absolute(value: int): (r: nat)
    ensures r == value || r == -value
  {
    if value < 0 then -value else value
  }

  /** The C cast `(int32_t)Value`: truncation toward zero. */
  function TruncateToInt(value: real): (r: int)
    ensures 0.0 <= value ==> r as real <= value < r as real + 1.0
    ensures value < 0.0 ==> r as real - 1.0 < value <= r as real
  {
    if value >= 0.0 then value.Floor else -((-value).Floor)
  }

  /** `FloorReal32ToInt32`: truncate, then step down once if that overshot. */
  function FloorReal32ToInt32(value: real): (r: int)
    ensures r as real <= value < r as real + 1.0
  {
    var truncated := TruncateToInt(value);
    if truncated as real > value then truncated - 1 else truncated
  }

  /** The floor is unique: any integer within one below `value` is it. */
  lemma FloorUnique(value: real, n: int)
    requires n as real <= value < n as real + 1.0
    ensures FloorReal32ToInt32(value) == n
  {
  }

  /** Negative non-integers round toward minus infinity, one below the cast. */
  lemma FloorBelowTruncation(value: real)
    requires value < 0.0 && (TruncateToInt(value) as real) != value
    ensures FloorReal32ToInt32(value) == TruncateToInt(value) - 1
  {
  }

  /** Shifting the argument by an integer shifts the floor by the same integer. */
  lemma FloorShift(value: real, n: int)
    ensures FloorReal32ToInt32(value + n as real) == FloorReal32ToInt32(value) + n
  {
    FloorUnique(value + n as real, FloorReal32ToInt32(value) + n);
  }

  /** On an integer-valued argument the floor is that integer. */
  lemma FloorOfInteger(n: int)
    ensures FloorReal32ToInt32(n as real) == n
  {
    FloorUnique(n as real, n);
  }

  /** The fractional offset `P - floor(P)` used by the noise functions lies in [0, 1). */
  function FractionalPart(value: real): (u: real)
    ensures 0.0 <= u < 1.0
    ensures (value - u).Floor as real == value - u
  {
    value - FloorReal32ToInt32(value) as real
  }

  /** An integer has no fractional part. */
  lemma FractionalPartOfInteger(n: int)
    ensures FractionalPart(n as real) == 0.0
  {
    FloorOfInteger(n);
  }

  /** Shifting by an integer leaves the fractional part unchanged. */
  lemma FractionalPartShift(value: real, n: int)
    ensures FractionalPart(value + n as real) == FractionalPart(value)
  {
    FloorShift(value, n);
  }

  // ---------------------------------------------------------------------
  // Real helpers
  // ---------------------------------------------------------------------

  /** `Min(float, float)`: `(A < B) ? A : B`. */
  function Min(a: real, b: real): (r: real)
    ensures r <= a && r <= b
    ensures r == a || r == b
  {
    if a < b then a else b
  }

  /** `Max(float, float)`: `(A > B) ? A : B`. */
  function Max(a: real, b: real): (r: real)
    ensures r >= a && r >= b
    ensures r == a || r == b
  {
    if a > b then a else b
  }

  /** `Clamp(Value, Min, Max)`: the bounds may come in either order. */
  function Clamp(value: real, bound1: real, bound2: real): (r: real)
    ensures Min(bound1, bound2) <= r <= Max(bound1, bound2)
    ensures Min(bound1, bound2) <= value <= Max(bound1, bound2) ==> r == value
    ensures value < Min(bound1, bound2) ==> r == Min(bound1, bound2)
    ensures value > Max(bound1, bound2) ==> r == Max(bound1, bound2)
  {
    var lo := if bound1 > bound2 then bound2 else bound1;
    var hi := if bound1 > bound2 then bound1 else bound2;
    if value < lo then lo else if value > hi then hi else value
  }

  /** Clamping does not depend on the order of the two bounds. */
  lemma ClampSymmetric(value: real, bound1: real, bound2: real)
    ensures Clamp(value, bound1, bound2) == Clamp(value, bound2, bound1)
  {
  }

  /** Clamping twice is clamping once. */
  lemma ClampIdempotent(value: real, bound1: real, bound2: real)
    ensures Clamp(Clamp(value, bound1, bound2), bound1, bound2) == Clamp(value, bound1, bound2)
  {
  }

  /** `Lerp(float A, float B, float t)`: `A + (B - A) * t`. */
  function Lerp(a: real, b: real, t: real): (r: real)
    ensures t == 0.0 ==> r == a
    ensures t == 1.0 ==> r == b
    ensures 0.0 <= t <= 1.0 ==> Min(a, b) <= r <= Max(a, b)
  {
    LerpBetween(a, b, t);
    a + (b - a) * t
  }

  /** For `t` in [0, 1], `A + (B - A) * t` lies between `A` and `B`. */
  lemma LerpBetween(a: real, b: real, t: real)
    ensures 0.0 <= t <= 1.0 ==> Min(a, b) <= a + (b - a) * t <= Max(a, b)
  {
    if 0.0 <= t <= 1.0 {
      var d := if a <= b then b - a else a - b;
      MulNonNegative(d, t);
      MulNonNegative(d, 1.0 - t);
      assert d * (1.0 - t) == d - d * t;
      assert (b - a) * t == if a <= b then d * t else -(d * t);
    }
  }

  /** The product of two non-negative reals is non-negative. */
  lemma MulNonNegative(a: real, b: real)
    requires 0.0 <= a && 0.0 <= b
    ensures 0.0 <= a * b
  {
  }

  /** Linear interpolation is the affine combination `(1 - t) A + t B`. */
  lemma LerpAffine(a: real, b: real, t: real)
    ensures Lerp(a, b, t) == (1.0 - t) * a + t * b
  {
  }

  // ---------------------------------------------------------------------
  // Vectors
  // ---------------------------------------------------------------------

  function Add2(a: Vec2, b: Vec2): Vec2 { Vec2(a.x + b.x, a.y + b.y) }
  function Sub2(a: Vec2, b: Vec2): Vec2 { Vec2(a.x - b.x, a.y - b.y) }
  function Scale2(a: Vec2, s: real): Vec2 { Vec2(a.x * s, a.y * s) }
  function Dot2(a: Vec2, b: Vec2): real { a.x * b.x + a.y * b.y }
  function Scale3(a: Vec3, s: real): Vec3 { Vec3(a.x * s, a.y * s, a.z * s) }
  function Dot3(a: Vec3, b: Vec3): real { a.x * b.x + a.y * b.y + a.z * b.z }

  /** `Lerp(vec2 A, vec2 B, float t)`: `A + (B - A) * t`, one component at a time. */
  function LerpVec2(a: Vec2, b: Vec2, t: real): (r: Vec2)
    ensures t == 0.0 ==> r == a
    ensures t == 1.0 ==> r == b
    ensures 0.0 <= t <= 1.0 ==> Min(a.x, b.x) <= r.x <= Max(a.x, b.x) && Min(a.y, b.y) <= r.y <= Max(a.y, b.y)
  {
    LerpBetween(a.x, b.x, t);
    LerpBetween(a.y, b.y, t);
    Add2(a, Scale2(Sub2(b, a), t))
  }

  /** `Length(vec2)`: `sqrtf(LengthSq(A))`. */
  function Length2(a: Vec2, sqrt: real -> real): (r: real)
    requires IsSquareRoot(sqrt)
    ensures 0.0 <= r && r * r == Dot2(a, a)
  {
    assert 0.0 <= Dot2(a, a);
    sqrt(Dot2(a, a))
  }

  /** `Length(vec3)`. */
  function Length3(a: Vec3, sqrt: real -> real): (r: real)
    requires IsSquareRoot(sqrt)
    ensures 0.0 <= r && r * r == Dot3(a, a)
  {
    assert 0.0 <= Dot3(a, a);
    sqrt(Dot3(a, a))
  }

  /** A square is non-negative. */
  lemma SquareNonNegative(a: real)
    ensures 0.0 <= a * a
  {
    if a < 0.0 {
      assert a * a == (-a) * (-a);
    }
  }

  /** Scaling a vector by the reciprocal of its (positive) length gives a unit vector. */
  lemma ScaledByInverseLength(lengthSq: real, len: real, scaledSq: real)
    requires 0.0 < len && len * len == lengthSq
    requires scaledSq == lengthSq * ((1.0 / len) * (1.0 / len))
    ensures scaledSq == 1.0
  {
    assert (1.0 / len) * (1.0 / len) == 1.0 / (len * len);
  }

  /** r points the same way as a: parallel, with the same sign in each component. */
  predicate SameDirection2(r: Vec2, a: Vec2)
  {
    (r.x < 0.0 <==> a.x < 0.0) && (r.y < 0.0 <==> a.y < 0.0) &&
    (0.0 < r.x <==> 0.0 < a.x) && (0.0 < r.y <==> 0.0 < a.y) &&
    r.x * a.y == a.x * r.y
  }

  /** `NOZ(vec2)`: normalise, or the zero vector when the length is at most `Epsilon`. */
  function NOZ(a: Vec2, sqrt: real -> real): (r: Vec2)
    requires IsSquareRoot(sqrt)
    ensures Length2(a, sqrt) <= Epsilon ==> r == Vec2(0.0, 0.0)
    ensures Length2(a, sqrt) > Epsilon ==> Dot2(r, r) == 1.0 && SameDirection2(r, a)
  {
    var len := Length2(a, sqrt);
    if len <= Epsilon then Vec2(0.0, 0.0)
    else
      var r := Scale2(a, 1.0 / len);
      assert Dot2(r, r) == Dot2(a, a) * ((1.0 / len) * (1.0 / len));
      ScaledByInverseLength(Dot2(a, a), len, Dot2(r, r));
      r
  }

  /** `Normalize(vec3)`: `A * (1 / Length(A))`; the caller passes a vector of positive length. */
  function Normalize3(a: Vec3, sqrt: real -> real): (r: Vec3)
    requires IsSquareRoot(sqrt)
    requires 0.0 < Dot3(a, a)
    ensures Dot3(r, r) == 1.0
    ensures (r.x < 0.0 <==> a.x < 0.0) && (r.y < 0.0 <==> a.y < 0.0) && (r.z < 0.0 <==> a.z < 0.0)
    ensures (0.0 < r.x <==> 0.0 < a.x) && (0.0 < r.y <==> 0.0 < a.y) && (0.0 < r.z <==> 0.0 < a.z)
    ensures r.x * a.y == a.x * r.y && r.y * a.z == a.y * r.z && r.x * a.z == a.x * r.z
  {
    var len := Length3(a, sqrt);
    assert len != 0.0;
    var r := Scale3(a, 1.0 / len);
    assert Dot3(r, r) == Dot3(a, a) * ((1.0 / len) * (1.0 / len));
    ScaledByInverseLength(Dot3(a, a), len, Dot3(r, r));
    r
  }
}
