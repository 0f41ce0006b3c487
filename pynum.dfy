/**
 * Python's numeric built-ins used by the car valuation code, over exact reals:
 * `round(x)` (round half to even), `round(x, 2)` and `math.pow(b, n)` for an
 * integer exponent.
 */
module PyNum {

  function Max(a: real, b: real): (r: real)
    ensures r >= a && r >= b && (r == a || r == b)
  {
    if a >= b then a else b
  }

  predicate IsEven(n: int) {
    n % 2 == 0
  }

  /** Python 3 `round(x)`: the nearest integer, ties going to the even one. */
  function RoundHalfEven(x: real): (r: int)
  {
    var f := x.Floor;
    var frac := x - f as real;
    if frac < 0.5 then f
    else if frac > 0.5 then f + 1
    else if IsEven(f) then f else f + 1
  }

  lemma RoundIsNearest(x: real)
    ensures -0.5 <= RoundHalfEven(x) as real - x <= 0.5
  {
  }

  lemma RoundOfInteger(n: int)
    ensures RoundHalfEven(n as real) == n
  {
  }

  /** `round` never reverses the order of two numbers. */
  lemma RoundMonotone(x: real, y: real)
    requires x <= y
    ensures RoundHalfEven(x) <= RoundHalfEven(y)
  {
    var fx, fy := x.Floor, y.Floor;
    if fx == fy {
    } else {
      assert fx < fy;
      RoundIsNearest(x);
      RoundIsNearest(y);
      if fx + 1 == fy {
        // Both round into {fx, fx + 1, fx + 2}; only ties can collide.
        var rx, ry := RoundHalfEven(x), RoundHalfEven(y);
        assert rx <= fx + 1;
        assert ry >= fy;
      }
    }
  }

  /** Python's `round(x, 2)` on the exact value of x. */
  function Round2(x: real): (r: real)
    ensures -0.005 <= r - x <= 0.005
  {
    RoundIsNearest(x * 100.0);
    RoundHalfEven(x * 100.0) as real / 100.0
  }

  lemma Round2Monotone(x: real, y: real)
    requires x <= y
    ensures Round2(x) <= Round2(y)
  {
    RoundMonotone(x * 100.0, y * 100.0);
  }

  lemma Round2OfZero()
    ensures Round2(0.0) == 0.0
  {
    RoundOfInteger(0);
  }

  /** A whole number is its own two-decimal rounding. */
  lemma Round2OfInteger(n: int)
    ensures Round2(n as real) == n as real
  {
    assert (n as real) * 100.0 == (n * 100) as real;
    RoundOfInteger(n * 100);
  }

  /** b to the power n for a natural exponent. */
  function Pow(b: real, n: nat): real
    requires b > 0.0
  {
    if n == 0 then 1.0 else b * Pow(b, n - 1)
  }

  /**
   * Powers of a positive base are positive.  (Kept out of Pow's own contract:
   * a strict bound on a factor of every product in a proof makes the
   * solver's nonlinear reasoning give up.)
   */
  lemma {:induction false} PowPositive(b: real, n: nat)
    requires b > 0.0
    ensures Pow(b, n) > 0.0
    decreases n
  {
    if n > 0 {
      PowPositive(b, n - 1);
      MulPositive(b, Pow(b, n - 1));
    }
  }

  /** `math.pow(b, n)` for a positive base and an integer exponent. */
  function IntPow(b: real, n: int): real
    requires b > 0.0
  {
    if n >= 0 then Pow(b, n)
    else
      PowPositive(b, -n);
      1.0 / Pow(b, -n)
  }

  lemma IntPowPositive(b: real, n: int)
    requires b > 0.0
    ensures IntPow(b, n) > 0.0
  {
    if n >= 0 {
      PowPositive(b, n);
    } else {
      PowPositive(b, -n);
    }
  }

  /** For a base in (0, 1], a larger exponent never gives a larger power. */
  lemma {:induction false} PowAntitone(b: real, m: nat, n: nat)
    requires 0.0 < b <= 1.0
    requires m <= n
    ensures Pow(b, n) <= Pow(b, m)
    decreases n
  {
    if m < n {
      PowAntitone(b, m, n - 1);
      PowStep(b, n - 1);
    }
  }

  /** One more factor of a base in (0, 1] never increases the power. */
  lemma PowStep(b: real, n: nat)
    requires 0.0 < b <= 1.0
    ensures Pow(b, n + 1) <= Pow(b, n)
  {
    var p := Pow(b, n);
    PowPositive(b, n);
    assert Pow(b, n + 1) == b * p;
    MulLeft(p, b, 1.0);
  }

  lemma ReciprocalAntitone(x: real, y: real)
    requires 0.0 < x <= y
    ensures 1.0 / y <= 1.0 / x
  {
    assert 1.0 / y * y == 1.0 && 1.0 / x * x == 1.0;
    if 1.0 / y > 1.0 / x {
      MulLeft(x, 1.0 / x, 1.0 / y);
      MulLeft(1.0 / y, x, y);
    }
  }

  /** The power never grows with the exponent, for a base in (0, 1]. */
  lemma IntPowAntitone(b: real, m: int, n: int)
    requires 0.0 < b <= 1.0
    requires m <= n
    ensures IntPow(b, n) <= IntPow(b, m)
  {
    if 0 <= m {
      PowAntitone(b, m, n);
    } else if n < 0 {
      PowAntitone(b, -n, -m);
      PowPositive(b, -m);
      ReciprocalAntitone(Pow(b, -m), Pow(b, -n));
    } else {
      PowAntitone(b, 0, n);
      PowAntitone(b, 0, -m);
      PowPositive(b, -m);
      ReciprocalAntitone(Pow(b, -m), 1.0);
    }
  }

  /** Powers of a base in (0, 1] are at most 1 for n >= 0 and at least 1 for n <= 0. */
  lemma IntPowVersusOne(b: real, n: int)
    requires 0.0 < b <= 1.0
    ensures IntPow(b, 0) == 1.0
    ensures n >= 0 ==> IntPow(b, n) <= 1.0
    ensures n <= 0 ==> IntPow(b, n) >= 1.0
  {
    if n >= 0 {
      IntPowAntitone(b, 0, n);
    } else {
      IntPowAntitone(b, n, 0);
    }
  }

  lemma MulLeft(a: real, x: real, y: real)
    requires a >= 0.0 && x <= y
    ensures a * x <= a * y
  {
  }

  lemma MulRight(x: real, y: real, a: real)
    requires a >= 0.0 && x <= y
    ensures x * a <= y * a
  {
  }

  /** Scaling by a non-negative factor keeps the larger of two values the larger. */
  lemma ScaledMaxMonotone(a: real, x1: real, x2: real, f: real)
    requires a >= 0.0 && x2 <= x1
    ensures Max(a * x2, f) <= Max(a * x1, f)
  {
    MulLeft(a, x2, x1);
  }

  lemma MulPositive(a: real, b: real)
    requires a > 0.0 && b > 0.0
    ensures a * b > 0.0
  {
  }

  lemma ScaleAtMost(a: real, x: real)
    requires a >= 0.0 && x <= 1.0
    ensures a * x <= a
  {
    MulLeft(a, x, 1.0);
  }

  lemma ScaleAtLeast(a: real, x: real)
    requires a >= 0.0 && x >= 1.0
    ensures a * x >= a
  {
    MulLeft(a, 1.0, x);
  }

  /** A fraction in [0, 1] of a non-negative amount lies between 0 and that amount. */
  lemma FractionOf(a: real, x: real)
    requires a >= 0.0 && 0.0 <= x <= 1.0
    ensures 0.0 <= a * x <= a
  {
    MulLeft(a, 0.0, x);
    MulLeft(a, x, 1.0);
  }

  /** A fraction of a fraction of a non-negative amount lies between 0 and that amount. */
  lemma FractionOfFraction(a: real, x: real, y: real)
    requires a >= 0.0 && 0.0 <= x <= 1.0 && 0.0 <= y <= 1.0
    ensures 0.0 <= a * x * y <= a
  {
    FractionOf(a, x);
    FractionOf(a * x, y);
  }

  /** A factor in [0, h] scales an amount in [0, a] into [0, a * h]. */
  lemma ScaledBound(b: real, z: real, a: real, h: real)
    requires 0.0 <= b <= a && 0.0 <= z <= h
    ensures 0.0 <= b * z <= a * h
  {
    MulLeft(b, 0.0, z);
    MulLeft(b, z, h);
    MulRight(b, a, h);
  }

  /** A product of four positive factors is positive. */
  lemma ProductPositive(a: real, b: real, c: real, d: real)
    requires a > 0.0 && b > 0.0 && c > 0.0 && d > 0.0
    ensures a * b * c * d > 0.0
  {
    MulPositive(a, b);
    MulPositive(a * b, c);
    MulPositive(a * b * c, d);
  }

  /** Rounding to the hundred gives a multiple of 100 within 50 of the value. */
  lemma RoundedToHundred(v: real)
    ensures RoundHalfEven(v / 100.0) * 100 % 100 == 0
    ensures -50.0 <= (RoundHalfEven(v / 100.0) * 100) as real - v <= 50.0
  {
    var n := RoundHalfEven(v / 100.0);
    RoundIsNearest(v / 100.0);
    assert (n * 100) as real == n as real * 100.0;
  }

  /**
   * Rounding the lower and upper ends of a range of relative width r around
   * a positive value keeps the ends in order and within half a unit of the value.
   */
  lemma RoundedRange(v: real, r: real)
    requires v > 0.0 && 0.0 <= r <= 1.0
    ensures RoundHalfEven(v * (1.0 - r)) as real <= v + 0.5
    ensures v - 0.5 <= RoundHalfEven(v * (1.0 + r)) as real
    ensures RoundHalfEven(v * (1.0 - r)) <= RoundHalfEven(v * (1.0 + r))
  {
    RoundIsNearest(v * (1.0 - r));
    RoundIsNearest(v * (1.0 + r));
    assert v * (1.0 - r) <= v <= v * (1.0 + r);
    RoundMonotone(v * (1.0 - r), v * (1.0 + r));
  }
}
