/** Numeric primitives of the C++ standard library as the colour code uses
    them, with `real` standing in for `double` and `float`. */
module Numeric {

  /** `std::clamp(x, lo, hi)` on reals. */
  function Clamp(x: real, lo: real, hi: real): (r: real)
    requires lo <= hi
    ensures lo <= r <= hi
    ensures lo <= x <= hi ==> r == x
    ensures x < lo ==> r == lo
    ensures hi < x ==> r == hi
  {
    if x < lo then lo else if hi < x then hi else x
  }

  /** `std::clamp(x, lo, hi)` on ints. */
  function ClampInt(x: int, lo: int, hi: int): (r: int)
    requires lo <= hi
    ensures lo <= r <= hi
    ensures lo <= x <= hi ==> r == x
    ensures x < lo ==> r == lo
    ensures hi < x ==> r == hi
  {
    if x < lo then lo else if hi < x then hi else x
  }

  /** `static_cast<int>(x)`: rounds toward zero. */
  function Trunc(x: real): (n: int)
    ensures 0.0 <= x ==> 0 <= n && n as real <= x < n as real + 1.0
    ensures x < 0.0 ==> n <= 0 && n as real - 1.0 < x <= n as real
  {
    if 0.0 <= x then x.Floor else -((-x).Floor)
  }

  /** `std::round(x)`: nearest integer, halfway cases away from zero. */
  function Round(x: real): (n: int)
    ensures x - 0.5 <= n as real <= x + 0.5
    ensures 0.0 <= x ==> x - 0.5 < n as real
    ensures x < 0.0 ==> n as real < x + 0.5
    ensures 0.0 <= x ==> 0 <= n
  {
    if 0.0 <= x then (x + 0.5).Floor else -((-x + 0.5).Floor)
  }

  /** `std::fmod(x, y)` for a positive divisor: the remainder of the
      quotient truncated toward zero, so it carries the sign of `x`. */
  function Fmod(x: real, y: real): (r: real)
    requires 0.0 < y
    ensures -y < r < y
    ensures 0.0 <= x ==> 0.0 <= r
    ensures x <= 0.0 ==> r <= 0.0
    ensures 0.0 <= x < y ==> r == x
    ensures -y < x <= 0.0 ==> r == x
    ensures ((x - r) / y).Floor as real == (x - r) / y
  {
    var n := Trunc(x / y);
    FmodFacts(x, y, n);
    WholeQuotient(x, y, n);
    x - n as real * y
  }

  /** Removing `x - n * y` from `x` leaves exactly `n` multiples of `y`. */
  lemma WholeQuotient(x: real, y: real, n: int)
    requires 0.0 < y
    ensures ((x - (x - n as real * y)) / y).Floor as real == (x - (x - n as real * y)) / y
  {
    assert x - (x - n as real * y) == n as real * y;
    assert n as real * y / y == n as real;
  }

  /** The truncated quotient `n` brackets `x` between `n * y` and the next
      multiple of `y` on the side away from zero. */
  lemma FmodFacts(x: real, y: real, n: int)
    requires 0.0 < y && n == Trunc(x / y)
    ensures var r := x - n as real * y;
      && -y < r < y
      && (0.0 <= x ==> 0.0 <= r)
      && (x <= 0.0 ==> r <= 0.0)
      && (0.0 <= x < y ==> r == x)
      && (-y < x <= 0.0 ==> r == x)
  {
    var q := n as real;
    if 0.0 <= x {
      DivNonneg(x, y);
      MulLeOfLeDiv(x, y, q);
      MulGtOfGtDiv(x, y, q + 1.0);
      if x < y {
        DivBelowOne(x, y);
      }
    } else {
      DivNeg(x, y);
      MulGeOfGeDiv(x, y, q);
      MulLtOfLtDiv(x, y, q - 1.0);
      if -y < x {
        DivAboveMinusOne(x, y);
      }
    }
  }

  // ---------------------------------------------------------------------
  // Facts about quotients and products by a positive number, one per lemma
  // so that each proof obligation stays small.

  lemma DivNonneg(x: real, y: real)
    requires 0.0 < y && 0.0 <= x
    ensures 0.0 <= x / y
  {
  }

  lemma DivPos(x: real, y: real)
    requires 0.0 < y && 0.0 < x
    ensures 0.0 < x / y
  {
  }

  lemma DivNeg(x: real, y: real)
    requires 0.0 < y && x < 0.0
    ensures x / y < 0.0
  {
  }

  lemma DivBelowOne(x: real, y: real)
    requires 0.0 < y && x < y
    ensures x / y < 1.0
  {
  }

  lemma DivAtMostOne(x: real, y: real)
    requires 0.0 < y && x <= y
    ensures x / y <= 1.0
  {
  }

  lemma DivAboveMinusOne(x: real, y: real)
    requires 0.0 < y && -y < x
    ensures -1.0 < x / y
  {
  }

  lemma DivAtLeastMinusOne(x: real, y: real)
    requires 0.0 < y && -y <= x
    ensures -1.0 <= x / y
  {
  }

  lemma MulLeOfLeDiv(x: real, y: real, b: real)
    requires 0.0 < y && b <= x / y
    ensures b * y <= x
  {
  }

  lemma MulGtOfGtDiv(x: real, y: real, b: real)
    requires 0.0 < y && x / y < b
    ensures x < b * y
  {
  }

  lemma MulGeOfGeDiv(x: real, y: real, b: real)
    requires 0.0 < y && x / y <= b
    ensures x <= b * y
  {
  }

  lemma MulLtOfLtDiv(x: real, y: real, b: real)
    requires 0.0 < y && b < x / y
    ensures b * y < x
  {
  }

  /** A quotient by a positive bound of something no larger in magnitude
      lies in [-1, 1] and has the sign of the dividend. */
  lemma QuotientInUnit(x: real, d: real)
    requires 0.0 < d && -d <= x <= d
    ensures -1.0 <= x / d <= 1.0
    ensures 0.0 <= x ==> 0.0 <= x / d
    ensures x < 0.0 ==> x / d < 0.0
  {
    DivAtLeastMinusOne(x, d);
    DivAtMostOne(x, d);
    if 0.0 <= x {
      DivNonneg(x, d);
    } else {
      DivNeg(x, d);
    }
  }

  /** `a * b`. Every product in the model goes through this function, so
      that the facts below are all the arithmetic the proofs need: its sign,
      and the bounds of a quantity scaled by a weight. */
  function Product(a: real, b: real): (r: real)
    ensures 0.0 <= a && 0.0 <= b ==> 0.0 <= r
    ensures 0.0 < a && 0.0 < b ==> 0.0 < r
    ensures a < 0.0 && b < 0.0 ==> 0.0 < r
    ensures a == 0.0 || b == 0.0 ==> r == 0.0
    ensures 0.0 <= a && 0.0 <= b <= 1.0 ==> r <= a
    ensures a <= 0.0 && 0.0 <= b <= 1.0 ==> a <= r <= 0.0
    ensures 0.0 <= a && 1.0 <= b ==> a <= r
    ensures b == 1.0 ==> r == a
    ensures b == 0.5 ==> r == a / 2.0
  {
    ProductFacts(a, b);
    a * b
  }

  lemma ProductFacts(a: real, b: real)
    ensures 0.0 <= a && 0.0 <= b ==> 0.0 <= a * b
    ensures 0.0 < a && 0.0 < b ==> 0.0 < a * b
    ensures a < 0.0 && b < 0.0 ==> 0.0 < a * b
    ensures a == 0.0 || b == 0.0 ==> a * b == 0.0
    ensures 0.0 <= a && 0.0 <= b <= 1.0 ==> a * b <= a
    ensures a <= 0.0 && 0.0 <= b <= 1.0 ==> a <= a * b <= 0.0
    ensures 0.0 <= a && 1.0 <= b ==> a <= a * b
    ensures b == 1.0 ==> a * b == a
    ensures b == 0.5 ==> a * b == a / 2.0
  {
    if a == 0.0 || b == 0.0 {
      MulZero(a, b);
    } else if b == 1.0 {
      MulOne(a, b);
    } else if b == 0.5 {
      MulHalf(a, b);
    } else if 0.0 < a && 0.0 < b {
      MulPos(a, b);
      if b <= 1.0 {
        MulAtMost(a, b);
      } else {
        MulAtLeast(a, b);
      }
    } else if a < 0.0 && b < 0.0 {
      MulNegNeg(a, b);
    } else if a < 0.0 && 0.0 < b <= 1.0 {
      MulNegAtMost(a, b);
    }
  }

  lemma MulZero(a: real, b: real)
    requires a == 0.0 || b == 0.0
    ensures a * b == 0.0
  {
  }

  lemma MulOne(a: real, b: real)
    requires b == 1.0
    ensures a * b == a
  {
  }

  lemma MulHalf(a: real, b: real)
    requires b == 0.5
    ensures a * b == a / 2.0
  {
  }

  lemma MulPos(a: real, b: real)
    requires 0.0 < a && 0.0 < b
    ensures 0.0 < a * b
  {
  }

  lemma MulNegNeg(a: real, b: real)
    requires a < 0.0 && b < 0.0
    ensures 0.0 < a * b
  {
  }

  lemma MulAtMost(a: real, b: real)
    requires 0.0 <= a && 0.0 <= b <= 1.0
    ensures a * b <= a
  {
  }

  lemma MulNegAtMost(a: real, b: real)
    requires a <= 0.0 && 0.0 <= b <= 1.0
    ensures a <= a * b <= 0.0
  {
  }

  lemma MulAtLeast(a: real, b: real)
    requires 0.0 <= a && 1.0 <= b
    ensures a <= a * b
  {
  }

  /** Negating both factors leaves the product unchanged. */
  lemma ProductNeg(a: real, b: real)
    ensures Product(-a, -b) == Product(a, b)
  {
  }

  lemma ProductComm(a: real, b: real)
    ensures Product(a, b) == Product(b, a)
  {
  }

  /** Multiplication distributes over a difference of left factors. */
  lemma ProductDiffLeft(s: real, t: real, k: real)
    ensures Product(t, k) - Product(s, k) == Product(t - s, k)
  {
  }

  /** Multiplication distributes over a difference of right factors. */
  lemma ProductDiffRight(k: real, s: real, t: real)
    ensures Product(k, t) - Product(k, s) == Product(k, t - s)
  {
  }

  /** A non-negative factor preserves order in the other factor. */
  lemma ProductMonoLeft(k: real, s: real, t: real)
    requires 0.0 <= k && s <= t
    ensures Product(k, s) <= Product(k, t)
  {
    ProductDiffRight(k, s, t);
  }

  /** A positive factor preserves strict order in the other factor. */
  lemma ProductStrictRight(s: real, t: real, k: real)
    requires 0.0 < k && s < t
    ensures Product(s, k) < Product(t, k)
  {
    ProductDiffLeft(s, t, k);
  }

  // ---------------------------------------------------------------------
  // Linear interpolation

  /** `p + (q - p) * w`: the point a fraction `w` of the way from `p` to `q`. */
  function Lerp(p: real, q: real, w: real): (v: real)
    ensures 0.0 <= w <= 1.0 && p <= q ==> p <= v <= q
    ensures 0.0 <= w <= 1.0 && q <= p ==> q <= v <= p
    ensures w == 0.0 ==> v == p
    ensures w == 1.0 ==> v == q
    ensures w == 0.5 ==> v == (p + q) / 2.0
    ensures p == q ==> v == p
  {
    p + Product(q - p, w)
  }

  /** The interpolation is the weighted average `p * (1 - w) + q * w`. */
  lemma LerpIsWeightedAverage(p: real, q: real, w: real)
    ensures Lerp(p, q, w) == p * (1.0 - w) + q * w
  {
  }

  /** Interpolating backwards with the complementary weight reaches the
      same point. */
  lemma LerpSwap(p: real, q: real, w: real)
    ensures Lerp(p, q, w) == Lerp(q, p, 1.0 - w)
  {
  }

  function Max3(x: real, y: real, z: real): (m: real)
    ensures x <= m && y <= m && z <= m
    ensures m == x || m == y || m == z
  {
    if x >= y && x >= z then x else if y >= z then y else z
  }

  function Min3(x: real, y: real, z: real): (m: real)
    ensures m <= x && m <= y && m <= z
    ensures m == x || m == y || m == z
  {
    if x <= y && x <= z then x else if y <= z then y else z
  }

  function Abs(x: real): (r: real)
    ensures 0.0 <= r && (r == x || r == -x)
  {
    if x < 0.0 then -x else x
  }

  /** Rounding is monotone. */
  lemma RoundMono(a: real, b: real)
    requires a <= b
    ensures Round(a) <= Round(b)
  {
  }

  /** Rounding a value that is already integral gives that integer back. */
  lemma RoundOfInt(n: int)
    ensures Round(n as real) == n
  {
  }

  /** A real number is a whole multiple of a full turn of 360 degrees. */
  predicate WholeTurns(d: real)
  {
    (d / 360.0).Floor as real == d / 360.0
  }
}
