/** Scalar helpers: sums of squares, hypot, a floor-based remainder and the
    wrapping of angles and of differences into a half-open interval. */
module MathUtil {

  /** boost::math::constants::pi<double>(): the double closest to pi, written
      out exactly (884279719003555 / 2^48). */
  const PI: real := 3.141592653589793115997963468544185161590576171875

  /** two_pi<double>() is exactly twice the double pi. */
  const TWO_PI: real := 2.0 * PI

  /** std::abs on a scalar. */
  function Abs(x: real): (r: real)
    ensures r >= 0.0 && (r == x || r == -x)
  {
    if x < 0.0 then -x else x
  }

  /** sumSquares(t) = t*t and sumSquares(t, rest...) = t*t + sumSquares(rest...);
      the variadic argument pack is a non-empty sequence. */
  function SumSquares(args: seq<real>): (r: real)
    requires |args| >= 1
    ensures r >= 0.0
    ensures |args| == 1 ==> r == args[0] * args[0]
    ensures r >= args[0] * args[0]
  {
    SquareNonNegative(args[0]);
    if |args| == 1 then args[0] * args[0]
    else args[0] * args[0] + SumSquares(args[1..])
  }

  lemma SquareNonNegative(x: real)
    ensures x * x >= 0.0
  {
    if x < 0.0 {
      assert x * x == (-x) * (-x);
    }
  }

  /** sqrt holds a square root at x. std::sqrt is not modelled; callers pass a
      function that is a square root at the one point where it is used. */
  ghost predicate IsSqrtAt(sqrt: real -> real, x: real)
  {
    sqrt(x) >= 0.0 && sqrt(x) * sqrt(x) == x
  }

  /** hypot(args...) = sqrt(sumSquares(args...)). */
  function Hypot(sqrt: real -> real, args: seq<real>): (r: real)
    requires |args| >= 1
    requires IsSqrtAt(sqrt, SumSquares(args))
    ensures r >= 0.0
    ensures r * r == SumSquares(args)
  {
    sqrt(SumSquares(args))
  }

  /** hypot of one argument is |a|, as the sweep over a single argument expects. */
  lemma HypotOfOne(sqrt: real -> real, a: real)
    requires IsSqrtAt(sqrt, SumSquares([a]))
    ensures Hypot(sqrt, [a]) == if a >= 0.0 then a else -a
  {
    var h := Hypot(sqrt, [a]);
    var m := if a >= 0.0 then a else -a;
    assert h * h == m * m;
    SquareRootsEqual(h, m);
  }

  /** Two non-negative numbers with equal squares are equal. */
  lemma SquareRootsEqual(x: real, y: real)
    requires x >= 0.0 && y >= 0.0
    requires x * x == y * y
    ensures x == y
  {
    assert (x - y) * (x + y) == x * x - y * y;
    if x + y == 0.0 {
    } else {
      assert x - y == 0.0 by { ZeroProduct(x - y, x + y); }
    }
  }

  lemma ZeroProduct(x: real, y: real)
    requires x * y == 0.0 && y != 0.0
    ensures x == 0.0
  {
    assert x == (x * y) / y;
  }

  /** 0 <= t < 1 scales a positive b into [0, b). */
  lemma FractionOfPositive(t: real, b: real)
    requires 0.0 <= t < 1.0 && b > 0.0
    ensures 0.0 <= t * b < b
  {
    assert b - t * b == (1.0 - t) * b;
    PositiveProduct(1.0 - t, b);
    if t > 0.0 {
      PositiveProduct(t, b);
    }
  }

  lemma PositiveProduct(x: real, y: real)
    requires x > 0.0 && y > 0.0
    ensures x * y > 0.0
  {
  }

  /** unsignedMod(a, b) = a - floor(a / b) * b. */
  function UnsignedMod(a: real, b: real): (r: real)
    requires b != 0.0
    ensures b > 0.0 ==> 0.0 <= r < b
    ensures b < 0.0 ==> b < r <= 0.0
  {
    var f := (a / b).Floor as real;
    RemainderBounds(a, b, f);
    a - f * b
  }

  /** With f the whole part of a / b, a - f * b lies between 0 and b. */
  lemma RemainderBounds(a: real, b: real, f: real)
    requires b != 0.0 && 0.0 <= a / b - f < 1.0
    ensures b > 0.0 ==> 0.0 <= a - f * b < b
    ensures b < 0.0 ==> b < a - f * b <= 0.0
  {
    RemainderAsFraction(a, b, f);
    FractionOfNonZero(a / b - f, b, a - f * b);
  }

  /** a - f * b is the fractional part a / b - f scaled by b. */
  lemma RemainderAsFraction(a: real, b: real, f: real)
    requires b != 0.0
    ensures a - f * b == (a / b - f) * b
  {
    assert (a / b) * b == a;
    assert (a / b - f) * b == (a / b) * b - f * b;
  }

  /** 0 <= t < 1 scales b into [0, b) or (b, 0], following the sign of b;
      p names the product t * b. */
  lemma FractionOfNonZero(t: real, b: real, p: real)
    requires 0.0 <= t < 1.0 && b != 0.0 && p == t * b
    ensures b > 0.0 ==> 0.0 <= p < b
    ensures b < 0.0 ==> b < p <= 0.0
  {
    if b > 0.0 {
      FractionOfPositive(t, b);
    } else {
      FractionOfPositive(t, -b);
      assert t * b == -(t * -b);
    }
  }

  /** a - unsignedMod(a, b) is the integer multiple floor(a / b) of b. */
  lemma UnsignedModDecomposition(a: real, b: real)
    requires b != 0.0
    ensures a == (a / b).Floor as real * b + UnsignedMod(a, b)
  {
  }

  /** unsignedMod(a, b) is the one value in [0, b) that differs from a by an
      integer multiple of b. */
  lemma UnsignedModUnique(a: real, b: real, k: int, r: real)
    requires b > 0.0
    requires 0.0 <= r < b
    requires a == k as real * b + r
    ensures UnsignedMod(a, b) == r
  {
    var q := a / b;
    assert q == k as real + r / b by {
      assert a / b == (k as real * b) / b + r / b;
    }
    QuotientBelowOne(r, b);
    assert q.Floor == k;
  }

  lemma QuotientBelowOne(r: real, b: real)
    requires b > 0.0 && 0.0 <= r < b
    ensures 0.0 <= r / b < 1.0
  {
    assert r / b * b == r;
    if r / b < 0.0 {
      assert false;
    } else if r / b >= 1.0 {
      assert false;
    }
  }

  /** Adding an integer multiple of b does not change unsignedMod(., b). */
  lemma UnsignedModPeriodic(a: real, b: real, k: int)
    requires b > 0.0
    ensures UnsignedMod(a + k as real * b, b) == UnsignedMod(a, b)
  {
    var f := (a / b).Floor;
    UnsignedModDecomposition(a, b);
    assert a + k as real * b == (f + k) as real * b + UnsignedMod(a, b);
    UnsignedModUnique(a + k as real * b, b, f + k, UnsignedMod(a, b));
  }

  /** zeroTo2Pi(a) = unsignedMod(a, 2 pi). */
  function ZeroTo2Pi(a: real): (r: real)
    ensures 0.0 <= r < TWO_PI
  {
    UnsignedMod(a, TWO_PI)
  }

  lemma ZeroTo2PiPeriodic(a: real, k: int)
    ensures ZeroTo2Pi(a + k as real * TWO_PI) == ZeroTo2Pi(a)
  {
    UnsignedModPeriodic(a, TWO_PI, k);
  }

  /** The test sweep: an angle already in [0, 2 pi) is returned unchanged
      after any whole number of turns is added. */
  lemma ZeroTo2PiOfCanonical(a: real, k: int)
    requires 0.0 <= a < TWO_PI
    ensures ZeroTo2Pi(a + k as real * TWO_PI) == a
  {
    UnsignedModUnique(a + k as real * TWO_PI, TWO_PI, k, a);
  }

  /** angleDifference(a, b): both angles are wrapped into [0, 2 pi), their
      difference is then brought into [-pi, pi) by one turn at most. */
  function AngleDifference(a: real, b: real): (r: real)
    ensures -PI <= r < PI
  {
    var a' := ZeroTo2Pi(a);
    var b' := ZeroTo2Pi(b);
    var r := a' - b';
    if r >= PI then r - TWO_PI
    else if r < -PI then r + TWO_PI
    else r
  }

  /** angleDifference(a, b) differs from a - b by a whole number of turns. */
  lemma AngleDifferenceCongruent(a: real, b: real) returns (k: int)
    ensures a - b == AngleDifference(a, b) + k as real * TWO_PI
  {
    var ka := (a / TWO_PI).Floor;
    var kb := (b / TWO_PI).Floor;
    UnsignedModDecomposition(a, TWO_PI);
    UnsignedModDecomposition(b, TWO_PI);
    var r := ZeroTo2Pi(a) - ZeroTo2Pi(b);
    assert a - b == r + (ka - kb) as real * TWO_PI;
    if r >= PI {
      k := ka - kb + 1;
    } else if r < -PI {
      k := ka - kb - 1;
    } else {
      k := ka - kb;
    }
  }

  /** angleDifference(a, b) is the one value in [-pi, pi) congruent to a - b
      modulo 2 pi. */
  lemma AngleDifferenceUnique(a: real, b: real, k: int, r: real)
    requires -PI <= r < PI
    requires a - b == r + k as real * TWO_PI
    ensures AngleDifference(a, b) == r
  {
    var j := AngleDifferenceCongruent(a, b);
    var d := AngleDifference(a, b);
    assert r - d == (j - k) as real * TWO_PI;
    assert j == k by {
      if j - k >= 1 {
        ScaledTurnsAtLeast(j - k);
      } else if j - k <= -1 {
        ScaledTurnsAtLeast(k - j);
      }
    }
  }

  lemma ScaledTurnsAtLeast(n: int)
    requires n >= 1
    ensures n as real * TWO_PI >= TWO_PI
  {
    assert n as real * TWO_PI == TWO_PI + (n - 1) as real * TWO_PI;
  }

  lemma AngleDifferenceSame(a: real)
    ensures AngleDifference(a, a) == 0.0
  {
  }

  /** Adding whole turns to either angle does not change the difference. */
  lemma AngleDifferencePeriodic(a: real, b: real, i: int, j: int)
    ensures AngleDifference(a + i as real * TWO_PI, b + j as real * TWO_PI) == AngleDifference(a, b)
  {
    ZeroTo2PiPeriodic(a, i);
    ZeroTo2PiPeriodic(b, j);
  }

  /** The code's (and its comment's) result for (pi, 0) is -pi. */
  lemma AngleDifferencePiZero()
    ensures AngleDifference(PI, 0.0) == -PI
  {
    UnsignedModUnique(PI, TWO_PI, 0, PI);
    UnsignedModUnique(0.0, TWO_PI, 0, 0.0);
  }

  /** intervalDifference(a, b, min, max) = unsignedMod(a - b - min, max - min) + min.
      The template form intervalDifference<T, min, max>(a, b) has the same body
      with min and max fixed at compile time; it is this function. */
  function IntervalDifference(a: real, b: real, min: real, max: real): (r: real)
    requires max != min
    ensures max > min ==> min <= r < max
  {
    UnsignedMod(a - b - min, max - min) + min
  }

  /** intervalDifference is the one value in [min, max) congruent to a - b
      modulo max - min. */
  lemma IntervalDifferenceUnique(a: real, b: real, min: real, max: real, k: int, r: real)
    requires max > min
    requires min <= r < max
    requires a - b == r + k as real * (max - min)
    ensures IntervalDifference(a, b, min, max) == r
  {
    assert a - b - min == k as real * (max - min) + (r - min);
    UnsignedModUnique(a - b - min, max - min, k, r - min);
  }

  lemma IntervalDifferenceCongruent(a: real, b: real, min: real, max: real) returns (k: int)
    requires max > min
    ensures a - b == IntervalDifference(a, b, min, max) + k as real * (max - min)
  {
    var w := max - min;
    k := ((a - b - min) / w).Floor;
    UnsignedModDecomposition(a - b - min, w);
    assert a - b == IntervalDifference(a, b, min, max) + k as real * w;
  }

  /** Over [-pi, pi) the interval difference is the angle difference. */
  lemma IntervalDifferenceIsAngleDifference(a: real, b: real)
    ensures IntervalDifference(a, b, -PI, PI) == AngleDifference(a, b)
  {
    var k := AngleDifferenceCongruent(a, b);
    assert PI - -PI == TWO_PI;
    IntervalDifferenceUnique(a, b, -PI, PI, k, AngleDifference(a, b));
  }

  /** The expectations of the interval-difference test at (pi, 0) and (2 pi, 0). */
  lemma IntervalDifferenceTestPoints()
    ensures IntervalDifference(PI, 0.0, -PI, PI) == -PI
    ensures IntervalDifference(TWO_PI, 0.0, -PI, PI) == 0.0
    ensures IntervalDifference(0.0, 0.0, -PI, PI) == 0.0
  {
    IntervalDifferenceUnique(PI, 0.0, -PI, PI, 1, -PI);
    IntervalDifferenceUnique(TWO_PI, 0.0, -PI, PI, 1, 0.0);
    IntervalDifferenceUnique(0.0, 0.0, -PI, PI, 0, 0.0);
  }
}
