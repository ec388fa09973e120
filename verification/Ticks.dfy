// utils::Double::toUint64 and binance::Config::price_to_ticks: from a wire price to a tick count.
module Ticks {
  import opened Doubles

  /** The values for which the final cast of toUint64 is defined in C++. */
  predicate InRange(value: real, ticksPerUnit: nat) {
    0.0 <= value && 0.0 <= value * ticksPerUnit as real && RoundNearest(value * ticksPerUnit as real) < TWO64
  }

  /** Double::toUint64: multiply in binary64, then truncate. The bound keeps it off the row sentinel. */
  function ToUint64(value: real, ticksPerUnit: nat): (ticks: nat)
    requires InRange(value, ticksPerUnit)
    ensures ticks <= 18446744073709549568
  {
    LargestBelowTwo64(value * ticksPerUnit as real);
    RoundNearest(value * ticksPerUnit as real).Floor
  }

  /** The range reaches as far as doubles below 2^64 go, and no farther. */
  lemma RangeReaches(v: real, t: nat)
    requires 0.0 <= v && 0.0 <= v * t as real
    ensures v * t as real <= 18446744073709549568.0 ==> InRange(v, t)
    ensures 18446744073709551616.0 <= v * t as real ==> !InRange(v, t)
  {
    var p := v * t as real;
    LargestIsDouble();
    if p <= 18446744073709549568.0 {
      Monotone(p, 18446744073709549568.0);
    }
    if TWO64 <= p {
      Monotone(TWO64, p);
    }
  }

  lemma LargestIsDouble()
    ensures RoundNearest(18446744073709549568.0) == 18446744073709549568.0
    ensures RoundNearest(TWO64) == TWO64
  {
    assert Doubled(9007199254740991.0, 11) == 18446744073709549568.0;
    RoundsScaled(9007199254740991.0, 11);
    assert RoundUnits(9007199254740991.0) == 9007199254740991.0;
    assert Doubled(TWO52, 12) == TWO64;
    RoundsScaled(TWO52, 12);
    assert RoundUnits(TWO52) == TWO52;
  }

  function Zero(): (z: real)
    ensures forall t: nat :: InRange(z, t)
  {
    IntegerExact(0);
    0.0
  }

  /** Prices and sizes of BTCUSDT on the wire. */
  type WirePx = v: real | InRange(v, 100) witness Zero()
  type WireSz = v: real | InRange(v, 100_000) witness Zero()

  /** Book order never contradicts wire order. */
  lemma TicksMonotone(v: real, w: real, t: nat)
    requires InRange(v, t) && InRange(w, t) && v <= w
    ensures ToUint64(v, t) <= ToUint64(w, t)
  {
    assert v * t as real <= w * t as real;
    Monotone(v * t as real, w * t as real);
  }

  /** What an exchange sends for k ticks: the double nearest to k/t. */
  function OnGrid(k: nat, t: nat): (v: real)
    requires 0 < t
  {
    RoundNearest(k as real / t as real)
  }

  /** p is at most half a double spacing below k. */
  predicate NearEnough(k: nat, p: real)
    requires 0 < k
  {
    k as real - SpacingBelow(k) / 2.0 <= p
  }

  /** The product of the wire value and t is within one part in 2^53 of k. */
  lemma ProductNearTicks(k: nat, t: nat)
    requires 0 < k && 0 < t <= 9007199254740992
    ensures Abs(OnGrid(k, t) * t as real - k as real) * TWO53 <= k as real
  {
    var x := k as real / t as real;
    NotTiny(x, t as real, k as real);
    RelativeError(x);
    ScaleError(OnGrid(k, t), x, t as real, k as real);
  }

  lemma NotTiny(x: real, t: real, k: real)
    requires 0.0 < t <= TWO53 && 1.0 <= k && x == k / t
    ensures x * t == k
    ensures 0.0 < x && 1.0 <= x * TWO64
  {
    assert 0.0 < x;
    assert 0.0 <= x * (TWO64 - t);
  }

  lemma ScaleError(v: real, x: real, t: real, k: real)
    requires 0.0 < t && x * t == k
    requires Abs(v - x) * TWO53 <= x
    ensures Abs(v * t - k) * TWO53 <= k
  {
    var d := v - x;
    assert v * t - k == d * t;
    assert -x <= d * TWO53 <= x;
    assert 0.0 <= (x - d * TWO53) * t;
    assert 0.0 <= (x + d * TWO53) * t;
    assert (x - d * TWO53) * t == k - d * t * TWO53;
    assert (x + d * TWO53) * t == k + d * t * TWO53;
  }

  lemma NearProduct(k: nat, p: real)
    requires 0 < k < 4503599627370496 && Abs(p - k as real) * TWO53 <= k as real
    ensures 0.5 <= p
    ensures k as real - 1.0 < RoundNearest(p) < k as real + 1.0
    ensures k as real <= RoundNearest(p) <==> NearEnough(k, p)
  {
    RelativeError(p);
    Reaches(p, k);
    TruncatesNear(k as real, p, RoundNearest(p));
  }

  lemma TruncatesNear(k: real, p: real, r: real)
    requires 1.0 <= k <= TWO52 - 1.0
    requires Abs(p - k) * TWO53 <= k && Abs(r - p) * TWO53 <= p
    ensures k - 1.0 < r < k + 1.0
  {
  }

  lemma FloorNear(k: int, r: real)
    requires k as real - 1.0 < r < k as real + 1.0
    ensures r.Floor == k || r.Floor == k - 1
    ensures r.Floor == k <==> k as real <= r
  {
  }

  lemma ConvertsNear(v: real, k: nat, t: nat)
    requires 0.0 <= v && 0 < k < 4503599627370496
    requires Abs(v * t as real - k as real) * TWO53 <= k as real
    ensures InRange(v, t)
    ensures ToUint64(v, t) == k || ToUint64(v, t) == k - 1
    ensures ToUint64(v, t) == k <==> NearEnough(k, v * t as real)
  {
    NearProduct(k, v * t as real);
    FloorNear(k, RoundNearest(v * t as real));
  }

  /** A wire price of k ticks converts to k or k - 1. */
  lemma OneTickBound(k: nat, t: nat)
    requires k < 4503599627370496 && 0 < t <= 9007199254740992
    ensures InRange(OnGrid(k, t), t)
    ensures ToUint64(OnGrid(k, t), t) == k || ToUint64(OnGrid(k, t), t) == k - 1
  {
    if k == 0 {
      IntegerExact(0);
    } else {
      ProductNearTicks(k, t);
      ConvertsNear(OnGrid(k, t), k, t);
    }
  }

  /** It converts to k exactly when the exact product is at most half a double spacing below k. */
  lemma ExactTicks(k: nat, t: nat)
    requires 0 < k < 4503599627370496 && 0 < t <= 9007199254740992
    ensures InRange(OnGrid(k, t), t)
    ensures ToUint64(OnGrid(k, t), t) == k <==> NearEnough(k, OnGrid(k, t) * t as real)
  {
    ProductNearTicks(k, t);
    ConvertsNear(OnGrid(k, t), k, t);
  }

  /** Prices two or more ticks apart stay apart, in the right order. */
  lemma TwoTicksApart(j: nat, k: nat, t: nat)
    requires j + 2 <= k < 4503599627370496 && 0 < t <= 9007199254740992
    ensures InRange(OnGrid(j, t), t) && InRange(OnGrid(k, t), t)
    ensures ToUint64(OnGrid(j, t), t) < ToUint64(OnGrid(k, t), t)
  {
    OneTickBound(j, t);
    OneTickBound(k, t);
  }

  /** The higher of two prices falls onto the lower one: they are one tick apart, the lower is converted right
      and the higher is not. */
  predicate Merge(j: nat, k: nat, t: nat)
    requires 0 < t && j < k
  {
    && k == j + 1
    && (j == 0 || NearEnough(j, OnGrid(j, t) * t as real))
    && !NearEnough(k, OnGrid(k, t) * t as real)
  }

  /** Exactly when two prices convert to the same number of ticks. */
  lemma MergeIff(j: nat, k: nat, t: nat)
    requires j < k < 4503599627370496 && 0 < t <= 9007199254740992
    ensures InRange(OnGrid(j, t), t) && InRange(OnGrid(k, t), t)
    ensures ToUint64(OnGrid(j, t), t) == ToUint64(OnGrid(k, t), t) <==> Merge(j, k, t)
  {
    OneTickBound(j, t);
    OneTickBound(k, t);
    ExactTicks(k, t);
    if j > 0 {
      ExactTicks(j, t);
    }
  }

  /** Adjacent prices can merge: 0.29 loses its last tick and lands on 0.28. */
  lemma TwentyNineCents()
    ensures InRange(OnGrid(28, 100), 100) && InRange(OnGrid(29, 100), 100)
    ensures OnGrid(28, 100) < OnGrid(29, 100)
    ensures ToUint64(OnGrid(28, 100), 100) == 28 && ToUint64(OnGrid(29, 100), 100) == 28
  {
    var v, w := OnGrid(28, 100), OnGrid(29, 100);
    assert v * 18014398509481984.0 == 5044031582654956.0 by {
      RoundsTo(0.28, 5044031582654956);
      assert 28 as real / 100 as real == 0.28;
    }
    assert w * 18014398509481984.0 == 5224175567749775.0 by {
      RoundsTo(0.29, 5224175567749775);
      assert 29 as real / 100 as real == 0.29;
    }
    ExactTicks(28, 100);
    ExactTicks(29, 100);
    OneTickBound(29, 100);
    SpacingBelow29();
  }

  lemma SpacingStep(k: nat)
    requires 0 < k && 8 * k <= 4503599627370496
    ensures SpacingBelow(k) == SpacingBelow(16 * k) / 16.0
  {
    assert SpacingBelow(k) == SpacingBelow(2 * k) / 2.0;
    assert SpacingBelow(2 * k) == SpacingBelow(4 * k) / 2.0;
    assert SpacingBelow(4 * k) == SpacingBelow(8 * k) / 2.0;
  }

  lemma SpacingBelow29()
    ensures SpacingBelow(29) == 1.0 / 281474976710656.0
  {
    SpacingStep(29);
    SpacingStep(464);
    SpacingStep(7424);
    SpacingStep(118784);
    SpacingStep(1900544);
    SpacingStep(30408704);
    SpacingStep(486539264);
    SpacingStep(7784628224);
    SpacingStep(124554051584);
    SpacingStep(1992864825344);
    SpacingStep(31885837205504);
    SpacingStep(510173395288064);
  }
}
