/**
 * Exact stand-ins for Unity's Vector2 and Vector3, on `real`.
 *
 * Unity compares lengths (`magnitude`, `Vector3.Distance`), which need a square
 * root. Every such comparison in the game is against a constant or against
 * another length, so the model compares squared lengths instead; the lemmas at
 * the end of this module show that the rewrites agree with the length tests.
 */
module Geometry {
  datatype Vec2 = Vec2(x: real, y: real)
  datatype Vec3 = Vec3(x: real, y: real, z: real)

  /** `Vector3.zero`. */
  const Zero: Vec3 := Vec3(0.0, 0.0, 0.0)

  function Abs(r: real): real { if r < 0.0 then -r else r }

  function Add(a: Vec3, b: Vec3): Vec3 { Vec3(a.x + b.x, a.y + b.y, a.z + b.z) }
  function Sub(a: Vec3, b: Vec3): Vec3 { Vec3(a.x - b.x, a.y - b.y, a.z - b.z) }
  function Scale(k: real, a: Vec3): Vec3 { Vec3(k * a.x, k * a.y, k * a.z) }
  function Dot(a: Vec3, b: Vec3): real { a.x * b.x + a.y * b.y + a.z * b.z }

  /** Squared length; `a.magnitude` is its square root. */
  function SqNorm(a: Vec3): real { Dot(a, a) }

  /** Squared `Vector3.Distance(a, b)`. */
  function SqDist(a: Vec3, b: Vec3): real { SqNorm(Sub(b, a)) }

  /** Squared distance of the projections of `a` and `b` on the y = 0 plane. */
  function PlanarSqDist(a: Vec3, b: Vec3): real {
    (b.x - a.x) * (b.x - a.x) + (b.z - a.z) * (b.z - a.z)
  }

  function Sub2(a: Vec2, b: Vec2): Vec2 { Vec2(a.x - b.x, a.y - b.y) }
  function SqNorm2(a: Vec2): real { a.x * a.x + a.y * a.y }

  /**
   * Unity's `Vector3 ==` is approximate: two vectors compare equal when the
   * squared length of their difference is below 1e-10 (the square of
   * `Vector3.kEpsilon`, 1e-5).
   */
  const EqualityTolerance: real := 0.0000000001

  /** `a == Vector3.zero` as Unity evaluates it. */
  predicate NearlyZero(a: Vec3) { SqNorm(a) < EqualityTolerance }

  /** A vector at height y, with |y| at least Unity's tolerance, never compares equal to zero. */
  lemma HeightKeepsFromZero(a: Vec3, y: real)
    requires a.y == y && y * y >= EqualityTolerance
    ensures !NearlyZero(a)
  {
    SquarePositive(a.x);
    SquarePositive(a.z);
    assert a.y * a.y == y * y;
  }

  /** A length whose square is `sq` is strictly greater than `limit`. */
  predicate LongerThan(sq: real, limit: real) { limit < 0.0 || sq > limit * limit }

  /** A length whose square is `sq` is strictly less than `limit`. */
  predicate ShorterThan(sq: real, limit: real) { limit > 0.0 && sq < limit * limit }

  lemma SquarePositive(r: real)
    ensures r * r >= 0.0
    ensures r != 0.0 ==> r * r > 0.0
  {
    if r < 0.0 {
      assert r * r == (-r) * (-r);
    }
  }

  lemma PositiveSquare(r: real)
    requires r > 0.0
    ensures r * r > 0.0
  {
  }

  /** `LongerThan` is the test `m > limit` on the length `m` itself. */
  lemma LongerThanIsLengthTest(m: real, limit: real)
    requires m >= 0.0
    ensures LongerThan(m * m, limit) <==> m > limit
  {
    if limit >= 0.0 {
      var mm, ml, ll := m * m, m * limit, limit * limit;
      if m > limit {
        assert mm > ml >= ll;
      } else {
        assert mm <= ml <= ll;
      }
    }
  }

  /** `ShorterThan` is the test `m < limit` on the length `m` itself. */
  lemma ShorterThanIsLengthTest(m: real, limit: real)
    requires m >= 0.0
    ensures ShorterThan(m * m, limit) <==> m < limit
  {
    if limit > 0.0 {
      var mm, ml, ll := m * m, m * limit, limit * limit;
      if m < limit {
        assert mm <= ml < ll;
      } else {
        assert mm >= ml >= ll;
      }
    }
  }

  /** Of two lengths, the one with the smaller square is the smaller. */
  lemma SquareMonotonic(m: real, n: real)
    requires m >= 0.0 && n >= 0.0
    ensures m * m < n * n <==> m < n
  {
    var mm, mn, nn := m * m, m * n, n * n;
    if m < n {
      assert mm <= mn < nn;
    } else {
      assert mm >= mn >= nn;
    }
  }
}
