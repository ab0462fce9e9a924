/**
 Scalar helpers of the engine (utilities/roxy_math.c), modelled over `real`.

 The C code works on `float`; floor, ceil, truncation, the remainder and the
 comparisons in clamp are exact in IEEE arithmetic, so the real-valued model is
 faithful for them. The rounding of `+`, `-`, `*` and `/` in lerp, map and round
 is abstracted away.
 */
module RoxyMath {

  /** A real number with no fractional part. */
  predicate IsIntegral(x: real) {
    x.Floor as real == x
  }

  function Abs(x: real): real {
    if x < 0.0 then -x else x
  }

  function Min(x: real, y: real): real {
    if x <= y then x else y
  }

  function Max(x: real, y: real): real {
    if x <= y then y else x
  }

  /** Rounding toward zero, as C's cast and `truncf` do. */
  function Trunc(q: real): (t: int)
    ensures Abs(t as real) <= Abs(q) < Abs(t as real) + 1.0
    ensures q >= 0.0 ==> t >= 0
    ensures q <= 0.0 ==> t <= 0
  {
    if q >= 0.0 then q.Floor else -((-q).Floor)
  }

  /**
   C's `fmodf(x, y)`: the remainder of truncated division. It has the sign of the
   dividend and is smaller than the divisor in magnitude. The callers divide by 1
   or by a duration that Lua supplies unchecked (or twice that duration). The model
   covers a positive divisor only. `fmodf(x, 0)` is NaN, which has no real
   counterpart.
   */
  function Fmod(x: real, y: real): (r: real)
    requires y > 0.0
    ensures x >= 0.0 ==> 0.0 <= r < y
    ensures x <= 0.0 ==> -y < r <= 0.0
    ensures IsIntegral((x - r) / y)
  {
    var t := Trunc(x / y) as real;
    RemainderBounds(x, y, t);
    WholeDivisorsRemoved(x, y, t);
    x - y * t
  }

  /** Taking `x - y * t` away from `x` leaves exactly `t` divisors. */
  lemma WholeDivisorsRemoved(x: real, y: real, t: real)
    requires y > 0.0
    ensures (x - (x - y * t)) / y == t
  {
    var p := y * t;
    assert x - (x - p) == p;
  }

  /** Multiplying the bounds of the truncated quotient `t` of `x / y` back by `y`. */
  lemma RemainderBounds(x: real, y: real, t: real)
    requires y > 0.0
    requires x / y >= 0.0 ==> t <= x / y < t + 1.0
    requires x / y <= 0.0 ==> t - 1.0 < x / y <= t
    ensures x >= 0.0 ==> 0.0 <= x - y * t < y
    ensures x <= 0.0 ==> -y < x - y * t <= 0.0
  {
    var q := x / y;
    assert x == y * q;
    if x == 0.0 {
      assert q == 0.0 && t == 0.0;
    } else if x > 0.0 {
      QuotientSign(x, y);
      ScaledFraction(x, y, q, t);
    } else {
      QuotientSign(-x, y);
      assert -x == y * -q;
      ScaledFraction(-x, y, -q, -t);
    }
  }

  /** With `x == y * q` and `q` less than one above `t`, the remainder `x - y * t` is below `y`. */
  lemma ScaledFraction(x: real, y: real, q: real, t: real)
    requires y > 0.0 && x == y * q && 0.0 <= q - t < 1.0
    ensures 0.0 <= x - y * t < y
  {
    var f := q - t;
    ScaleBelow(y, f);
    var p := y * f;
    assert p == y * q - y * t;
    assert 0.0 <= p < y;
  }

  /** A fraction in [0, 1) of a positive quantity is smaller than the quantity. */
  lemma ScaleBelow(y: real, f: real)
    requires y > 0.0 && 0.0 <= f < 1.0
    ensures 0.0 <= y * f < y
  {
    assert y * (1.0 - f) > 0.0;
  }

  /** A non-negative quantity divided by a positive one is non-negative. */
  lemma QuotientSign(x: real, y: real)
    requires x >= 0.0 && y > 0.0
    ensures x / y >= 0.0
  {
  }

  /**
   The remainder of a non-negative dividend is determined by any way of writing
   it as whole divisors plus a rest in [0, y).
   */
  lemma FmodUnique(x: real, y: real, k: int, r: real)
    requires x >= 0.0 && y > 0.0 && 0.0 <= r < y
    requires x == y * k as real + r
    ensures Fmod(x, y) == r
  {
    var t := Trunc(x / y);
    var r' := Fmod(x, y);
    assert x == y * t as real + r';
    var n := k - t;
    assert y * n as real == y * k as real - y * t as real == r' - r;
    OnlyZeroMultipleIsSmall(y, n, r' - r);
  }

  /** The only whole multiple of a positive `y` strictly between `-y` and `y` is zero. */
  lemma OnlyZeroMultipleIsSmall(y: real, n: int, d: real)
    requires y > 0.0 && d == y * n as real && -y < d < y
    ensures n == 0
  {
    if n >= 1 {
      ProductNonNegative(y, n as real - 1.0);
    } else if n <= -1 {
      ProductNonNegative(y, -1.0 - n as real);
    }
  }

  /** A dividend already below the divisor is its own remainder. */
  lemma FmodSmall(x: real, y: real)
    requires 0.0 <= x < y
    ensures Fmod(x, y) == x
  {
    FmodUnique(x, y, 0, x);
  }

  /** Adding one divisor to a non-negative dividend does not change the remainder. */
  lemma FmodShift(x: real, y: real)
    requires x >= 0.0 && y > 0.0
    ensures Fmod(x + y, y) == Fmod(x, y)
  {
    var t := Trunc(x / y);
    var r := Fmod(x, y);
    assert x == y * t as real + r;
    assert x + y == y * (t + 1) as real + r;
    FmodUnique(x + y, y, t + 1, r);
  }

  /** roxy_math_truncateDecimal: `n - fmodf(n, 1)`, which drops the fraction toward zero. */
  function TruncateDecimal(n: real): (r: real)
    ensures IsIntegral(r)
    ensures n >= 0.0 ==> 0.0 <= r <= n < r + 1.0
    ensures n <= 0.0 ==> r - 1.0 < n <= r <= 0.0
  {
    var f := Fmod(n, 1.0);
    assert IsIntegral(n - f);
    n - f
  }

  /** roxy_math_roundDown: `floorf`. */
  function RoundDown(n: real): (r: real)
    ensures IsIntegral(r)
    ensures r <= n < r + 1.0
  {
    n.Floor as real
  }

  /** roxy_math_roundUp: `ceilf`, the floor of the negation, negated. */
  function RoundUp(n: real): (r: real)
    ensures IsIntegral(r)
    ensures r - 1.0 < n <= r
  {
    var k := (-n).Floor;
    assert (-(k as real)).Floor == -k;
    -(k as real)
  }

  /** `floorf` gives the greatest integer not above `n`, `ceilf` the least not below it. */
  lemma RoundDownUpExtremal(n: real, k: int)
    ensures k as real <= n ==> k as real <= RoundDown(n)
    ensures k as real >= n ==> RoundUp(n) <= k as real
  {
    var lo := n.Floor;
    assert k > lo ==> k as real >= lo as real + 1.0;
    var hi := -((-n).Floor);
    assert k < hi ==> k as real <= hi as real - 1.0;
  }

  /** Dropping the fraction is flooring for non-negative numbers and ceiling for the others. */
  lemma TruncateDecimalDirection(n: real)
    ensures n >= 0.0 ==> TruncateDecimal(n) == RoundDown(n)
    ensures n <= 0.0 ==> TruncateDecimal(n) == RoundUp(n)
  {
    var r := TruncateDecimal(n);
    assert r.Floor as real == r;
    RoundDownUpExtremal(n, r.Floor);
  }

  /** roxy_math_round: `floorf(n + 0.5)`, so that halves go toward plus infinity. */
  function Round(n: real): (r: real)
    ensures IsIntegral(r)
    ensures r - 0.5 <= n < r + 0.5
  {
    RoundDown(n + 0.5)
  }

  /** Round picks the integer nearest to `n`; on a tie, the larger one. */
  lemma RoundIsNearest(n: real, k: int)
    ensures Abs(Round(n) - n) <= Abs(k as real - n)
    ensures Abs(Round(n) - n) == Abs(k as real - n) ==> k as real <= Round(n)
  {
    var r := Round(n);
    assert r.Floor as real == r;
    var ri := r.Floor;
    assert ri as real - 0.5 <= n < ri as real + 0.5;
    if k < ri {
      assert k as real <= ri as real - 1.0;
    } else if k > ri {
      assert k as real >= ri as real + 1.0;
    }
  }

  /** A negative half rounds up: -2.5 rounds to -2, and 2.5 to 3. */
  lemma RoundHalves()
    ensures Round(-2.5) == -2.0
    ensures Round(2.5) == 3.0
  {
  }

  /**
   roxy_math_clamp. The bounds are swapped when `lower > upper`; then the value
   is pinned to the lower bound below it and to the upper bound above it.
   */
  function Clamp(value: real, lower: real, upper: real): (r: real)
    ensures Min(lower, upper) <= r <= Max(lower, upper)
    ensures Min(lower, upper) <= value <= Max(lower, upper) ==> r == value
    ensures value < Min(lower, upper) ==> r == Min(lower, upper)
    ensures value > Max(lower, upper) ==> r == Max(lower, upper)
  {
    var lo := if lower > upper then upper else lower;
    var hi := if lower > upper then lower else upper;
    if value < lo then lo else if value > hi then hi else value
  }

  /** Clamp does not depend on the order of its bounds. */
  lemma ClampSymmetric(value: real, lower: real, upper: real)
    ensures Clamp(value, lower, upper) == Clamp(value, upper, lower)
  {
  }

  /** Clamping twice with the same bounds is clamping once. */
  lemma ClampIdempotent(value: real, lower: real, upper: real)
    ensures Clamp(Clamp(value, lower, upper), lower, upper) == Clamp(value, lower, upper)
  {
  }

  /** Clamp is monotone in the value it clamps. */
  lemma ClampMonotone(v: real, w: real, lower: real, upper: real)
    requires v <= w
    ensures Clamp(v, lower, upper) <= Clamp(w, lower, upper)
  {
  }

  /** roxy_math_lerp: `a + (b - a) * t`. */
  function Lerp(a: real, b: real, t: real): (r: real)
    ensures t == 0.0 ==> r == a
    ensures t == 1.0 ==> r == b
  {
    a + (b - a) * t
  }

  /** For `t` in [0, 1] the interpolant stays between the two ends. */
  lemma LerpBetween(a: real, b: real, t: real)
    requires 0.0 <= t <= 1.0
    ensures Min(a, b) <= Lerp(a, b, t) <= Max(a, b)
  {
    var d := b - a;
    if d >= 0.0 {
      ProductNonNegative(d, t);
      ProductNonNegative(d, 1.0 - t);
    } else {
      ProductNonNegative(-d, t);
      ProductNonNegative(-d, 1.0 - t);
    }
  }

  lemma ProductNonNegative(u: real, v: real)
    requires u >= 0.0 && v >= 0.0
    ensures u * v >= 0.0
  {
  }

  /**
   roxy_math_map: sends `value` from the range [fromLow, fromHigh] to the range
   [toLow, toHigh], linearly. The C code divides by `fromHigh - fromLow`, so the
   source range must not be empty.
   */
  function Map(value: real, fromLow: real, fromHigh: real, toLow: real, toHigh: real): (r: real)
    requires fromHigh != fromLow
    ensures value == fromLow ==> r == toLow
    ensures value == fromHigh ==> r == toHigh
    ensures r == Lerp(toLow, toHigh, (value - fromLow) / (fromHigh - fromLow))
  {
    var s := (value - fromLow) / (fromHigh - fromLow);
    DivideBySelf(fromHigh - fromLow);
    assert value == fromLow ==> s == 0.0;
    s * (toHigh - toLow) + toLow
  }

  /** A non-zero quantity divided by itself is one. */
  lemma DivideBySelf(d: real)
    requires d != 0.0
    ensures d / d == 1.0
  {
  }

  /** Mapping there and back again gives the value back. */
  lemma MapRoundTrip(value: real, fromLow: real, fromHigh: real, toLow: real, toHigh: real)
    requires fromHigh != fromLow && toHigh != toLow
    ensures Map(Map(value, fromLow, fromHigh, toLow, toHigh), toLow, toHigh, fromLow, fromHigh) == value
  {
    var s := (value - fromLow) / (fromHigh - fromLow);
    var m := s * (toHigh - toLow) + toLow;
    assert (m - toLow) / (toHigh - toLow) == s;
    assert s * (fromHigh - fromLow) == value - fromLow;
  }
}
