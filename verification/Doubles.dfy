// Binary64 arithmetic as far as utils::Double::toUint64 needs it: a double is a real number, and the
// product of two doubles is the exact product rounded to nearest, ties to even
// (IEEE 754-2008, sections 4.3.1 and 5.4.1). Scaling by powers of two is written as repeated doubling
// and halving, which keeps every proof in linear arithmetic.
module Doubles {

  const TWO52: real := 4503599627370496.0
  const TWO53: real := 9007199254740992.0
  const TWO64: real := 18446744073709551616.0

  function Abs(x: real): (r: real) {
    if x < 0.0 then -x else x
  }

  /** x * 2^e. */
  function Doubled(x: real, e: nat): (r: real)
    decreases e
  {
    if e == 0 then x else Doubled(2.0 * x, e - 1)
  }

  /** x / 2^e. */
  function Halved(x: real, e: nat): (r: real)
    ensures 0.0 <= x ==> 0.0 <= r
    decreases e
  {
    if e == 0 then x else Halved(x, e - 1) / 2.0
  }

  /** The nearest integer, ties to even. */
  function RoundHalfEven(q: real): (n: int)
    ensures -0.5 <= q - n as real <= 0.5
    ensures q - n as real == 0.5 || q - n as real == -0.5 ==> n % 2 == 0
  {
    var f := q.Floor;
    var d := q - f as real;
    if d < 0.5 || (d == 0.5 && f % 2 == 0) then f else f + 1
  }

  /** Rounds q to 53 significant bits; below 2^53 that is rounding to an integer. */
  function RoundUnits(q: real): (r: real)
    requires 0.0 <= q
    ensures 0.0 <= r
    decreases q.Floor
  {
    if q < TWO53 then RoundHalfEven(q) as real else 2.0 * RoundUnits(q / 2.0)
  }

  /** The number of halvings from 1 to the spacing of the subnormal numbers: 1074 in binary64. Nothing
      here depends on the exact number, so the constant stands for any exponent range at least that of
      a format in which tick counts are far from subnormal. */
  type ExponentRange = e: nat | 116 <= e witness 1074
  const MIN_EXPONENT: ExponentRange

  /** The double nearest to x; overflow to infinity is excluded by every caller's range condition. */
  function RoundNearest(x: real): (r: real)
    requires 0.0 <= x
    ensures 0.0 <= r
  {
    RoundAt(x, MIN_EXPONENT)
  }

  /** Rounds x to 53 significant bits, but to no unit finer than 2^-e. */
  function RoundAt(x: real, e: nat): (r: real)
    requires 0.0 <= x
    ensures 0.0 <= r
  {
    DoubledOrder(0.0, x, e);
    DoubledZero(e);
    Halved(RoundUnits(Doubled(x, e)), e)
  }

  /** A non-negative double: fewer than 2^53 units, a unit being 2^-1074 doubled p times. */
  ghost predicate IsDouble(d: real) {
    exists m: nat, p: nat :: IsFloat(d, m, p, MIN_EXPONENT)
  }

  ghost predicate IsFloat(d: real, m: nat, p: nat, e: nat) {
    m < 9007199254740992 && Doubled(d, e) == Doubled(m as real, p)
  }

  /** A double whose last significand bit is 0. An even count of units stays even when it is written with the
      smallest possible p, which is how binary64 stores it. */
  ghost predicate IsEvenDouble(d: real) {
    exists m: nat, p: nat :: m % 2 == 0 && IsFloat(d, m, p, MIN_EXPONENT)
  }

  // ---------------------------------------------------------------------------
  // Doubling and halving
  // ---------------------------------------------------------------------------

  lemma {:induction false} DoubledZero(e: nat)
    ensures Doubled(0.0, e) == 0.0
  {
    if e > 0 {
      DoubledZero(e - 1);
    }
  }

  lemma {:induction false} DoubledOrder(x: real, y: real, e: nat)
    ensures x < y <==> Doubled(x, e) < Doubled(y, e)
    decreases e
  {
    if e > 0 {
      DoubledOrder(2.0 * x, 2.0 * y, e - 1);
    }
  }

  lemma {:induction false} DoubledTwice(x: real, e: nat)
    ensures Doubled(2.0 * x, e) == 2.0 * Doubled(x, e)
    decreases e
  {
    if e > 0 {
      DoubledTwice(2.0 * x, e - 1);
    }
  }

  lemma {:induction false} HalvedDoubled(x: real, e: nat)
    ensures Halved(Doubled(x, e), e) == x
    ensures Doubled(Halved(x, e), e) == x
    decreases e
  {
    if e > 0 {
      HalvedDoubled(2.0 * x, e - 1);
      HalvedDoubled(x, e - 1);
    }
  }

  lemma {:induction false} DoubledDistance(x: real, y: real, e: nat)
    ensures Abs(Doubled(x, e) - Doubled(y, e)) == Doubled(Abs(x - y), e)
    decreases e
  {
    if e > 0 {
      DoubledDistance(2.0 * x, 2.0 * y, e - 1);
    }
  }

  lemma {:induction false} DoubledWhole(k: nat, e: nat) returns (n: nat)
    ensures Doubled(k as real, e) == n as real
    decreases e
  {
    if e == 0 {
      n := k;
    } else {
      n := DoubledWhole(2 * k, e - 1);
    }
  }

  lemma {:induction false} DoubledGrows(x: real, d: nat, e: nat)
    requires d <= e && 0.0 <= x
    ensures Doubled(x, d) <= Doubled(x, e)
    decreases e
  {
    if d > 0 {
      DoubledGrows(2.0 * x, d - 1, e - 1);
    } else if e > 0 {
      DoubledGrows(2.0 * x, 0, e - 1);
    }
  }

  // ---------------------------------------------------------------------------
  // Rounding whole units
  // ---------------------------------------------------------------------------

  lemma RoundHalfEvenClosest(q: real, m: int)
    ensures Abs(RoundHalfEven(q) as real - q) <= Abs(m as real - q)
  {
    var n := RoundHalfEven(q);
    if m < n {
      assert m as real <= n as real - 1.0;
    } else if n < m {
      assert n as real + 1.0 <= m as real;
    }
  }

  lemma RoundHalfEvenMonotone(p: real, q: real)
    requires p <= q
    ensures RoundHalfEven(p) <= RoundHalfEven(q)
  {
  }

  lemma {:induction false} UnitsRelativeError(q: real)
    requires TWO52 <= q
    ensures Abs(RoundUnits(q) - q) * TWO53 <= q
    decreases q.Floor
  {
    if TWO53 <= q {
      UnitsRelativeError(q / 2.0);
    }
  }

  lemma {:induction false} UnitsAtLeast(q: real)
    requires TWO52 <= q
    ensures TWO52 <= RoundUnits(q)
    decreases q.Floor
  {
    if TWO53 <= q {
      UnitsAtLeast(q / 2.0);
    }
  }

  lemma {:induction false} UnitsMonotone(p: real, q: real)
    requires 0.0 <= p <= q
    ensures RoundUnits(p) <= RoundUnits(q)
    decreases q.Floor
  {
    if q < TWO53 {
      RoundHalfEvenMonotone(p, q);
    } else {
      if p < TWO53 {
        RoundHalfEvenMonotone(p, TWO53);
        UnitsAtLeast(q / 2.0);
      } else {
        UnitsMonotone(p / 2.0, q / 2.0);
      }
    }
  }

  lemma {:induction false} UnitsExact(m: nat, p: nat)
    requires m < 9007199254740992
    ensures 0.0 <= Doubled(m as real, p) == RoundUnits(Doubled(m as real, p))
  {
    var n := DoubledWhole(m, p);
    if TWO53 <= n as real {
      DoubledTwice(m as real, p - 1);
      UnitsExact(m, p - 1);
    }
  }

  lemma {:induction false} UnitsClosest(q: real, m: nat, p: nat)
    requires 0.0 <= q && m < 9007199254740992
    ensures Abs(RoundUnits(q) - q) <= Abs(Doubled(m as real, p) - q)
    decreases q.Floor
  {
    var n := DoubledWhole(m, p);
    if q < TWO53 {
      RoundHalfEvenClosest(q, n);
    } else if p > 0 {
      DoubledTwice(m as real, p - 1);
      UnitsClosest(q / 2.0, m, p - 1);
    } else {
      UnitsClosest(q / 2.0, 4503599627370496, 0);
    }
  }

  lemma {:induction false} UnitsFloat(q: real) returns (m: nat, p: nat)
    requires 0.0 <= q
    ensures m < 9007199254740992 && RoundUnits(q) == Doubled(m as real, p)
    decreases q.Floor
  {
    if q < TWO53 {
      m, p := RoundHalfEven(q), 0;
      if m == 9007199254740992 {
        m, p := 4503599627370496, 1;
        assert Doubled(m as real, 1) == Doubled(TWO53, 0);
      }
    } else {
      m, p := UnitsFloat(q / 2.0);
      DoubledTwice(m as real, p);
      p := p + 1;
    }
  }

  /** From 2^52 units on, doubling the argument doubles the result. */
  lemma {:induction false} UnitsScale(q: real, e: nat)
    requires TWO52 <= q
    ensures 0.0 <= Doubled(q, e) && RoundUnits(Doubled(q, e)) == Doubled(RoundUnits(q), e)
    decreases e
  {
    if e > 0 {
      UnitsScale(2.0 * q, e - 1);
    }
  }

  // ---------------------------------------------------------------------------
  // Rounding reals
  // ---------------------------------------------------------------------------

  /** The result in units. */
  lemma InUnits(x: real, e: nat)
    requires 0.0 <= x
    ensures 0.0 <= Doubled(x, e) && Doubled(RoundAt(x, e), e) == RoundUnits(Doubled(x, e))
  {
    DoubledOrder(x, 0.0, e);
    DoubledZero(e);
    HalvedDoubled(RoundUnits(Doubled(x, e)), e);
  }

  lemma MonotoneAt(x: real, y: real, e: nat)
    requires 0.0 <= x <= y
    ensures RoundAt(x, e) <= RoundAt(y, e)
  {
    InUnits(x, e);
    InUnits(y, e);
    DoubledOrder(y, x, e);
    UnitsMonotone(Doubled(x, e), Doubled(y, e));
    DoubledOrder(RoundAt(y, e), RoundAt(x, e), e);
  }

  /** Rounding preserves order. */
  lemma Monotone(x: real, y: real)
    requires 0.0 <= x <= y
    ensures RoundNearest(x) <= RoundNearest(y)
  {
    MonotoneAt(x, y, MIN_EXPONENT);
  }

  lemma {:induction false} ScaledError(a: real, x: real, e: nat)
    requires 0.0 <= a && Doubled(a, e) * TWO53 <= Doubled(x, e)
    ensures a * TWO53 <= x
    decreases e
  {
    if e > 0 {
      ScaledError(2.0 * a, 2.0 * x, e - 1);
    }
  }

  lemma RelativeErrorAt(x: real, e: nat)
    requires 1.0 <= x * TWO64 && 116 <= e
    ensures Abs(RoundAt(x, e) - x) * TWO53 <= x
  {
    InUnits(x, e);
    assert Doubled(x, 116) == x * TWO64 * TWO52 by {
      Doubled116(x);
    }
    DoubledGrows(x, 116, e);
    UnitsRelativeError(Doubled(x, e));
    DoubledDistance(RoundAt(x, e), x, e);
    ScaledError(Abs(RoundAt(x, e) - x), x, e);
  }

  lemma {:induction false} DoubledSum(x: real, d: nat, e: nat)
    ensures Doubled(Doubled(x, d), e) == Doubled(x, d + e)
    decreases d
  {
    if d > 0 {
      DoubledSum(2.0 * x, d - 1, e);
    }
  }

  lemma Doubled4(x: real)
    ensures Doubled(x, 4) == 16.0 * x
  {
  }

  lemma Doubled20(x: real)
    ensures Doubled(x, 20) == x * 1048576.0
  {
    Doubled4(x);
    Doubled4(Doubled(x, 4));
    Doubled4(Doubled(x, 8));
    Doubled4(Doubled(x, 12));
    Doubled4(Doubled(x, 16));
    DoubledSum(x, 4, 4);
    DoubledSum(x, 8, 4);
    DoubledSum(x, 12, 4);
    DoubledSum(x, 16, 4);
  }

  lemma Doubled32(x: real)
    ensures Doubled(x, 32) == x * 4294967296.0
  {
    Doubled20(x);
    Doubled4(Doubled(x, 20));
    Doubled4(Doubled(x, 24));
    Doubled4(Doubled(x, 28));
    DoubledSum(x, 20, 4);
    DoubledSum(x, 24, 4);
    DoubledSum(x, 28, 4);
  }

  lemma Doubled116(x: real)
    ensures Doubled(x, 116) == x * TWO64 * TWO52
  {
    Doubled32(x);
    Doubled32(Doubled(x, 32));
    Doubled32(Doubled(x, 64));
    Doubled20(Doubled(x, 96));
    DoubledSum(x, 32, 32);
    DoubledSum(x, 64, 32);
    DoubledSum(x, 96, 20);
  }

  /** Rounding a number that is not tiny changes it by at most one part in 2^53. */
  lemma RelativeError(x: real)
    requires 1.0 <= x * TWO64
    ensures Abs(RoundNearest(x) - x) * TWO53 <= x
  {
    RelativeErrorAt(x, MIN_EXPONENT);
  }

  lemma NearestAt(x: real, d: real, m: nat, p: nat, e: nat) returns (n: nat, q: nat)
    requires 0.0 <= x && IsFloat(d, m, p, e)
    ensures IsFloat(RoundAt(x, e), n, q, e)
    ensures Abs(RoundAt(x, e) - x) <= Abs(d - x)
  {
    InUnits(x, e);
    n, q := UnitsFloat(Doubled(x, e));
    UnitsClosest(Doubled(x, e), m, p);
    DoubledDistance(RoundAt(x, e), x, e);
    DoubledDistance(d, x, e);
    DoubledOrder(Abs(d - x), Abs(RoundAt(x, e) - x), e);
  }

  /** The definition of rounding to nearest: the result is a double and no double is closer. */
  lemma NearestDouble(x: real, d: real)
    requires 0.0 <= x && IsDouble(d)
    ensures IsDouble(RoundNearest(x))
    ensures Abs(RoundNearest(x) - x) <= Abs(d - x)
  {
    var m: nat, p: nat :| IsFloat(d, m, p, MIN_EXPONENT);
    var n, q := NearestAt(x, d, m, p, MIN_EXPONENT);
  }

  lemma {:induction false} DoubledEven(m: nat, p: nat) returns (n: nat)
    requires 0 < p
    ensures Doubled(m as real, p) == n as real && n % 2 == 0
  {
    var h := DoubledWhole(m, p - 1);
    DoubledTwice(m as real, p - 1);
    n := 2 * h;
  }

  /** Of two integers as far from q, the one that rounding prefers is even and the other is odd. */
  lemma TieParity(q: real, n: int)
    requires Abs(n as real - q) == Abs(RoundHalfEven(q) as real - q) && n != RoundHalfEven(q)
    ensures RoundHalfEven(q) % 2 == 0 && n % 2 == 1
  {
    var r := RoundHalfEven(q);
    assert r as real - q == 0.5 || r as real - q == -0.5 by {
      if r < n {
        assert r as real + 1.0 <= n as real;
      } else {
        assert n as real + 1.0 <= r as real;
      }
    }
    assert n == r + 1 || n == r - 1;
  }

  lemma BelowIsFarther(q: real, m: nat)
    requires TWO53 <= q && m < 9007199254740992
    ensures Abs(RoundUnits(q) - q) < Abs(Doubled(m as real, 0) - q)
  {
    UnitsClosest(q, 4503599627370496, 1);
    assert Doubled(TWO52, 1) == Doubled(TWO53, 0);
  }

  /** A count of units as close as the rounded one has an odd significand, and the rounded one an even one. */
  lemma {:induction false} UnitsTie(q: real, m: nat, p: nat) returns (n: nat, k: nat)
    requires 0.0 <= q && m < 9007199254740992 && Doubled(m as real, p) != RoundUnits(q)
    requires Abs(Doubled(m as real, p) - q) == Abs(RoundUnits(q) - q)
    ensures m % 2 == 1
    ensures n % 2 == 0 && n < 9007199254740992 && RoundUnits(q) == Doubled(n as real, k)
    decreases q.Floor
  {
    n, k := 0, 0;
    if q < TWO53 {
      var whole := DoubledWhole(m, p);
      TieParity(q, whole);
      if p > 0 {
        var even := DoubledEven(m, p);
      }
      n, k := RoundHalfEven(q), 0;
      if n == 9007199254740992 {
        n, k := 4503599627370496, 1;
        assert Doubled(n as real, 1) == Doubled(TWO53, 0);
      }
    } else if p > 0 {
      DoubledTwice(m as real, p - 1);
      n, k := UnitsTie(q / 2.0, m, p - 1);
      DoubledTwice(n as real, k);
      k := k + 1;
    } else {
      BelowIsFarther(q, m);
    }
  }

  lemma TieAt(x: real, d: real, m: nat, p: nat, e: nat) returns (n: nat, k: nat)
    requires 0.0 <= x && IsFloat(d, m, p, e) && d != RoundAt(x, e)
    requires Abs(d - x) == Abs(RoundAt(x, e) - x)
    ensures m % 2 == 1
    ensures n % 2 == 0 && IsFloat(RoundAt(x, e), n, k, e)
  {
    InUnits(x, e);
    DoubledDistance(RoundAt(x, e), x, e);
    DoubledDistance(d, x, e);
    DoubledOrder(d, RoundAt(x, e), e);
    DoubledOrder(RoundAt(x, e), d, e);
    n, k := UnitsTie(Doubled(x, e), m, p);
  }

  /** Ties go to even: another double at the same distance is odd, and the result is even. */
  lemma TiesToEven(x: real, d: real)
    requires 0.0 <= x && IsDouble(d) && d != RoundNearest(x)
    requires Abs(d - x) == Abs(RoundNearest(x) - x)
    ensures IsEvenDouble(RoundNearest(x)) && !IsEvenDouble(d)
  {
    var m: nat, p: nat :| IsFloat(d, m, p, MIN_EXPONENT);
    var n, k := TieAt(x, d, m, p, MIN_EXPONENT);
    if m': nat, p': nat :| m' % 2 == 0 && IsFloat(d, m', p', MIN_EXPONENT) {
      var n', k' := TieAt(x, d, m', p', MIN_EXPONENT);
    }
  }

  /** Rounding to nearest, ties to even, as IEEE 754-2008 defines it in section 4.3.1: a double, no double
      closer, and an even one if another is as close. */
  ghost predicate Nearest(x: real, r: real) {
    && IsDouble(r)
    && (forall d: real :: IsDouble(d) ==> Abs(r - x) <= Abs(d - x))
    && (forall d: real :: IsDouble(d) && d != r && Abs(d - x) == Abs(r - x) ==> IsEvenDouble(r))
  }

  /** The definition has one solution, and it is the rounded value. */
  lemma NearestIff(x: real, r: real)
    requires 0.0 <= x
    ensures Nearest(x, r) <==> r == RoundNearest(x)
  {
    var y := RoundNearest(x);
    assert IsDouble(y) by {
      ZeroIsDouble();
      NearestDouble(x, 0.0);
    }
    if Nearest(x, r) && r != y {
      NearestDouble(x, r);
      TiesToEven(x, r);
    }
    forall d: real | IsDouble(d)
      ensures Abs(y - x) <= Abs(d - x)
      ensures d != y && Abs(d - x) == Abs(y - x) ==> IsEvenDouble(y)
    {
      NearestDouble(x, d);
      if d != y && Abs(d - x) == Abs(y - x) {
        TiesToEven(x, d);
      }
    }
  }

  lemma ZeroIsDouble()
    ensures IsDouble(0.0)
  {
    DoubledZero(MIN_EXPONENT);
    assert IsFloat(0.0, 0, 0, MIN_EXPONENT);
  }

  lemma IntegerExactAt(k: nat, e: nat)
    requires k < 9007199254740992
    ensures RoundAt(k as real, e) == k as real
  {
    InUnits(k as real, e);
    UnitsExact(k, e);
    HalvedDoubled(k as real, e);
  }

  /** Rounding keeps an integer below 2^53. */
  lemma IntegerExact(k: nat)
    requires k < 9007199254740992
    ensures RoundNearest(k as real) == k as real
  {
    IntegerExactAt(k, MIN_EXPONENT);
  }

  // ---------------------------------------------------------------------------
  // Exactly when rounding reaches an integer from below
  // ---------------------------------------------------------------------------

  /** The distance from k down to the largest double below it. */
  function SpacingBelow(k: nat): (g: real)
    requires 0 < k
    ensures 0.0 < g <= 1.0
    decreases 9007199254740992 - k
  {
    if 4503599627370496 < k then 1.0 else SpacingBelow(2 * k) / 2.0
  }

  lemma TieToEven(n: int)
    requires n % 2 == 0
    ensures RoundHalfEven(n as real - 0.5) == n
  {
    assert (n as real - 0.5).Floor == n - 1;
  }

  lemma TieReaches(x: real, k: nat, e: nat)
    requires 4503599627370496 < k <= 9007199254740992 && k % 2 == 0 && k as real - 0.5 <= x
    ensures 0.0 <= Doubled(x, e) && Doubled(k as real, e) <= RoundUnits(Doubled(x, e))
  {
    var y := k as real - 0.5;
    InUnits(x, e);
    UnitsScale(y, e);
    TieToEven(k);
    DoubledOrder(x, y, e);
    UnitsMonotone(Doubled(y, e), Doubled(x, e));
  }

  lemma LessFallsShort(x: real, k: nat, e: nat)
    requires 4503599627370496 < k <= 9007199254740992 && 0.0 <= x < k as real - 0.5
    ensures 0.0 <= Doubled(x, e) && RoundUnits(Doubled(x, e)) < Doubled(k as real, e)
  {
    var y := if x < TWO52 then TWO52 else x;
    InUnits(x, e);
    UnitsScale(y, e);
    DoubledOrder(y, x, e);
    UnitsMonotone(Doubled(x, e), Doubled(y, e));
    DoubledOrder(RoundUnits(y), k as real, e);
  }

  /** Half a spacing below k is a tie that rounds up to k; anything less rounds to less. */
  lemma {:induction false} ReachesUnits(x: real, k: nat, e: nat)
    requires 0.0 <= x && 0 < k <= 9007199254740992
    requires k % 2 == 0
    requires TWO52 < Doubled(k as real, e)
    ensures 0.0 <= Doubled(x, e)
    ensures Doubled(k as real, e) <= RoundUnits(Doubled(x, e)) <==> k as real - SpacingBelow(k) / 2.0 <= x
    decreases e
  {
    if k <= 4503599627370496 {
      assert (2 * k) as real == 2.0 * k as real;
      ReachesUnits(2.0 * x, 2 * k, e - 1);
      assert SpacingBelow(k) == SpacingBelow(2 * k) / 2.0;
    } else {
      InUnits(x, e);
      assert SpacingBelow(k) == 1.0;
      if k as real - 0.5 <= x {
        TieReaches(x, k, e);
      } else {
        LessFallsShort(x, k, e);
      }
    }
  }

  lemma ReachesAt(x: real, k: nat, e: nat)
    requires 0.0 <= x && 0 < k <= 4503599627370496 && 116 <= e
    ensures k as real <= RoundAt(x, e) <==> k as real - SpacingBelow(k) / 2.0 <= x
  {
    Doubled116((2 * k) as real);
    DoubledGrows((2 * k) as real, 116, e);
    InUnits(2.0 * x, e - 1);
    DoubledGrows((2 * k) as real, 115, e - 1);
    Doubled115(k);
    ReachesUnits(2.0 * x, 2 * k, e - 1);
    InUnits(x, e);
    DoubledOrder(RoundAt(x, e), k as real, e);
  }

  lemma Doubled115(k: nat)
    requires 0 < k
    ensures TWO52 < Doubled((2 * k) as real, 115)
  {
    Doubled116(k as real);
  }

  /** RoundNearest(x) >= k exactly when x is at most half a spacing below k. */
  lemma Reaches(x: real, k: nat)
    requires 0.0 <= x && 0 < k <= 4503599627370496
    ensures k as real <= RoundNearest(x) <==> k as real - SpacingBelow(k) / 2.0 <= x
  {
    ReachesAt(x, k, MIN_EXPONENT);
  }

  // ---------------------------------------------------------------------------
  // Computing a rounding: between 2^-2 and 2^-1 the spacing is 2^-54
  // ---------------------------------------------------------------------------

  lemma Doubled54(x: real)
    ensures Doubled(x, 54) == x * 18014398509481984.0
  {
    Doubled20(x);
    Doubled32(Doubled(x, 20));
    DoubledSum(x, 20, 32);
    DoubledSum(x, 52, 2);
    var y := Doubled(x, 52);
    assert Doubled(y, 2) == 2.0 * (2.0 * y);
  }

  lemma RoundsFractionAt(x: real, s: nat, e: nat)
    requires TWO52 <= Doubled(x, s) && s <= e && 0.0 <= x
    ensures Doubled(RoundAt(x, e), s) == RoundUnits(Doubled(x, s))
  {
    var y, r := Doubled(x, s), Doubled(RoundAt(x, e), s);
    InUnits(x, e);
    DoubledSum(x, s, e - s);
    DoubledSum(RoundAt(x, e), s, e - s);
    UnitsScale(y, e - s);
    DoubledOrder(r, RoundUnits(y), e - s);
    DoubledOrder(RoundUnits(y), r, e - s);
  }

  /** A number with at least 2^52 units of 2^-s is rounded to a whole number of such units. */
  lemma RoundsFraction(x: real, s: nat)
    requires 0.0 <= x && TWO52 <= Doubled(x, s) && s <= 116
    ensures Doubled(RoundNearest(x), s) == RoundUnits(Doubled(x, s))
  {
    RoundsFractionAt(x, s, MIN_EXPONENT);
  }

  lemma RoundsTo(x: real, n: int)
    requires 0.25 <= x < 0.5 && n == RoundHalfEven(x * 18014398509481984.0)
    ensures RoundNearest(x) * 18014398509481984.0 == n as real
  {
    Doubled54(x);
    Doubled54(RoundNearest(x));
    RoundsFraction(x, 54);
  }

  // ---------------------------------------------------------------------------
  // No double lies strictly between 2^64 - 2048 and 2^64
  // ---------------------------------------------------------------------------

  lemma RoundsScaledAt(y: real, s: nat, e: nat)
    requires TWO52 <= y
    ensures 0.0 <= Doubled(y, s) && RoundAt(Doubled(y, s), e) == Doubled(RoundUnits(y), s)
  {
    DoubledSum(y, s, e);
    UnitsScale(y, s);
    UnitsScale(y, s + e);
    DoubledSum(RoundUnits(y), s, e);
    InUnits(Doubled(y, s), e);
    HalvedDoubled(Doubled(RoundUnits(y), s), e);
    HalvedDoubled(RoundAt(Doubled(y, s), e), e);
  }

  /** From 2^52 units of 2^s on, rounding is rounding of the units. */
  lemma RoundsScaled(y: real, s: nat)
    requires TWO52 <= y
    ensures 0.0 <= Doubled(y, s) && RoundNearest(Doubled(y, s)) == Doubled(RoundUnits(y), s)
  {
    RoundsScaledAt(y, s, MIN_EXPONENT);
  }

  /** A double below 2^64 is at most 2^64 - 2048. */
  lemma LargestBelowTwo64(x: real)
    requires 0.0 <= x && RoundNearest(x) < TWO64
    ensures RoundNearest(x) <= 18446744073709549568.0
  {
    var y := x / 2048.0;
    assert Doubled(y, 11) == x;
    if y < TWO52 {
      assert Doubled(TWO52, 11) == 2048.0 * TWO52;
      Monotone(x, 2048.0 * TWO52);
      RoundsScaled(TWO52, 11);
    } else {
      RoundsScaled(y, 11);
      if TWO53 <= y {
        UnitsAtLeast(y / 2.0);
      }
      assert RoundUnits(y) == RoundHalfEven(y) as real;
    }
  }
}
