// std::to_chars for a non-negative double: the exact value rounded to a number of decimal digits, half to even.
module ToChars {
  import opened Doubles
  import opened NumberText

  // ---------------------------------------------------------------------------
  // Digits
  // ---------------------------------------------------------------------------

  function DigitChar(d: nat): (c: char)
    requires d < 10
    ensures IsDigit(c) && DigitValue(c) == d
  {
    '0' + d as char
  }

  /** The decimal digits of n. */
  function IntText(n: nat): (s: string)
    ensures s != [] && Digits(s) && IntValue(s) == n
  {
    if n < 10 then
      var s := [DigitChar(n)];
      assert s[..0] == [] && IntValue(s[..0]) == 0;
      s
    else
      var s := IntText(n / 10) + [DigitChar(n % 10)];
      assert s[..|s| - 1] == IntText(n / 10);
      s
  }

  /** A numeral without a leading zero is the text of its value. */
  lemma {:induction false} TextOfValue(s: string)
    requires s != [] && Digits(s) && s[0] != '0'
    ensures 0 < IntValue(s) && IntText(IntValue(s)) == s
    decreases |s|
  {
    var k := |s| - 1;
    assert s == s[..k] + [s[k]];
    if k > 0 {
      TextOfValue(s[..k]);
      assert DigitChar(DigitValue(s[k])) == s[k];
    } else {
      assert s[..0] == [] && DigitChar(DigitValue(s[0])) == s[0];
    }
  }

  /** The last d decimal digits of n. */
  function PadDigits(n: nat, d: nat): (s: string)
    ensures |s| == d && Digits(s)
  {
    if d == 0 then [] else PadDigits(n / 10, d - 1) + [DigitChar(n % 10)]
  }

  function Pow10(m: nat): (p: nat)
    ensures 0 < p
  {
    if m == 0 then 1 else 10 * Pow10(m - 1)
  }

  lemma {:induction false} DigitCount(n: nat, m: nat)
    requires 0 < m
    ensures |IntText(n)| <= m <==> n < Pow10(m)
    decreases m
  {
    if m == 1 {
      assert Pow10(1) == 10 * Pow10(0);
    } else if n >= 10 {
      DigitCount(n / 10, m - 1);
      assert n / 10 < Pow10(m - 1) <==> n < 10 * Pow10(m - 1);
    } else {
      assert Pow10(m) == 10 * Pow10(m - 1);
    }
  }

  lemma {:induction false} IntBound(d: string)
    requires Digits(d)
    ensures IntValue(d) < Pow10(|d|)
    decreases |d|
  {
    if d != [] {
      IntBound(d[..|d| - 1]);
    }
  }

  lemma {:induction false} PowersGrow(i: nat, j: nat)
    requires i <= j
    ensures Pow10(i) <= Pow10(j)
    decreases j
  {
    if i < j {
      PowersGrow(i, j - 1);
    }
  }

  lemma PowersOfTen()
    ensures Pow10(8) == 100_000_000 && Pow10(9) == 1_000_000_000 && Pow10(10) == 10_000_000_000
    ensures Pow10(12) == 1_000_000_000_000 && Pow10(13) == 10_000_000_000_000
    ensures Pow10(14) == 100_000_000_000_000 && Pow10(15) == 1_000_000_000_000_000
  {
  }

  // ---------------------------------------------------------------------------
  // The two formats
  // ---------------------------------------------------------------------------

  const TEN14: real := 100_000_000_000_000.0
  const TEN15: real := 1_000_000_000_000_000.0

  /** A number written with fifteen digits before the point and moved back by so many decimals. */
  datatype Shifted = Shifted(q: real, decimals: int)

  function ShiftUp(v: real): (s: Shifted)
    requires 0.0001 <= v < TEN15
    ensures TEN14 <= s.q < TEN15 && 0 <= s.decimals
    decreases 10_000_000_000_000_000_000 - (v * 10_000.0).Floor
  {
    if TEN14 <= v then Shifted(v, 0)
    else
      var s := ShiftUp(10.0 * v);
      Shifted(s.q, s.decimals + 1)
  }

  function ShiftDown(v: real): (s: Shifted)
    requires TEN14 <= v
    ensures TEN14 <= s.q < TEN15 && s.decimals <= 0
    decreases v.Floor
  {
    if v < TEN15 then Shifted(v, 0)
    else
      var s := ShiftDown(v / 10.0);
      Shifted(s.q, s.decimals - 1)
  }

  /** Fifteen significant digits, the last of them at so many decimals. */
  datatype Significant = Significant(digits: nat, decimals: int) {
    /** The power of ten of the first digit. */
    function Exponent(): (x: int) {
      14 - decimals
    }
  }

  function Round15(v: real): (s: Significant)
    requires 0.0001 <= v
  {
    var s := if v < TEN15 then ShiftUp(v) else ShiftDown(v);
    var n := RoundHalfEven(s.q);
    if n == 1_000_000_000_000_000 then Significant(100_000_000_000_000, s.decimals - 1)
    else Significant(n, s.decimals)
  }

  /** n without its last d digits. */
  function DropDigits(n: nat, d: nat): (r: nat) {
    if d == 0 then n else DropDigits(n / 10, d - 1)
  }

  function WithPoint(f: string): (s: string) {
    if f == [] then [] else "." + f
  }

  /** n / 10^d without trailing zeros after the point. */
  function FixedText(n: nat, d: nat): (s: string) {
    IntText(DropDigits(n, d)) + WithPoint(StripZeros(PadDigits(n, d)))
  }

  /** n * 10^(x - 14), for an n of fifteen digits, in scientific form. */
  function ScientificText(n: nat, x: nat): (s: string) {
    [IntText(n)[0]] + WithPoint(StripZeros(IntText(n)[1..])) + "e+" + IntText(x)
  }

  /** Format general, precision 15. Below 0.0001 it would be scientific, too. */
  function General(v: real): (s: string)
    requires v == 0.0 || 0.0001 <= v
  {
    if v == 0.0 then "0"
    else
      var s := Round15(v);
      if 0 <= s.decimals then FixedText(s.digits, s.decimals) else ScientificText(s.digits, s.Exponent())
  }

  /** Format fixed, precision 15. */
  function Fixed(v: real): (s: string)
    requires 0.0 <= v
  {
    var n := RoundHalfEven(v * TEN15);
    IntText(DropDigits(n, 15)) + ("." + PadDigits(n, 15))
  }

  // ---------------------------------------------------------------------------
  // Fifteen digits are enough
  // ---------------------------------------------------------------------------

  /** k with j zeros appended. */
  function Zeros(k: nat, j: nat): (n: nat)
    decreases j
  {
    if j == 0 then k else Zeros(10 * k, j - 1)
  }

  lemma {:induction false} ZerosOutside(k: nat, j: nat)
    ensures Zeros(10 * k, j) == 10 * Zeros(k, j)
    decreases j
  {
    if j > 0 {
      ZerosOutside(10 * k, j - 1);
    }
  }

  /** Zeros at the end of a number with decimals make no difference to its text. */
  lemma {:induction false} ZerosVanish(k: nat, d: nat, j: nat, n: nat, e: nat, text: string)
    requires e == d + j && n == Zeros(k, j) && text == FixedText(k, d)
    ensures FixedText(n, e) == text
    decreases j
  {
    if j > 0 {
      ZeroVanishes(10 * k, k, d + 1, d);
      ZerosVanish(10 * k, d + 1, j - 1, n, e, text);
    }
  }

  lemma ZeroVanishes(m: nat, n: nat, e: nat, d: nat)
    requires m == 10 * n && e == d + 1
    ensures FixedText(m, e) == FixedText(n, d)
  {
    assert DropDigits(m, e) == DropDigits(n, d);
    assert PadDigits(m, e) == PadDigits(n, d) + [DigitChar(0)];
    StripOneZero(PadDigits(n, d));
  }

  lemma StripOneZero(f: string)
    ensures StripZeros(f + ['0']) == StripZeros(f)
  {
    assert (f + ['0'])[..|f|] == f;
  }

  /** v is within one part in 2^53 of u. */
  predicate Close(v: real, u: real) {
    Abs(v - u) * TWO53 <= u
  }

  lemma {:induction false} ShiftUpClose(v: real, k: nat)
    requires 0.0001 <= v < TEN15 && Close(v, k as real / 100.0)
    ensures Close(ShiftUp(v).q, Zeros(k, ShiftUp(v).decimals) as real / 100.0)
    decreases 10_000_000_000_000_000_000 - (v * 10_000.0).Floor
  {
    if v < TEN14 {
      CloseTimesTen(v, k);
      ShiftUpClose(10.0 * v, 10 * k);
    }
  }

  lemma CloseTimesTen(v: real, k: nat)
    requires Close(v, k as real / 100.0)
    ensures Close(10.0 * v, (10 * k) as real / 100.0)
  {
  }

  lemma RoundsClose(q: real, n: nat)
    requires 0.0 <= q < TEN15 && Close(q, n as real)
    ensures RoundHalfEven(q) == n
  {
    assert n as real < 1_000_000_000_000_001.0;
    assert -0.5 < q - n as real < 0.5;
  }

  lemma {:induction false} HundredZeros(k: nat, j: nat)
    ensures Zeros(k, j + 2) == 100 * Zeros(k, j)
  {
    ZerosOutside(10 * k, j);
    ZerosOutside(k, j);
  }

  /** Below 10^13 the fifteen digits reach at least to the second decimal. */
  lemma TwoDecimalsLeft(v: real, k: nat)
    requires k < 1_000_000_000_000_000 && 0.0001 <= v && Close(v, k as real / 100.0)
    ensures v < TEN14 / 10.0 && 2 <= ShiftUp(v).decimals
  {
    assert v < 10_000_000_000_000.0;
    assert ShiftUp(v).decimals == 1 + ShiftUp(10.0 * v).decimals;
    assert ShiftUp(10.0 * v).decimals == 1 + ShiftUp(10.0 * (10.0 * v)).decimals;
  }

  lemma Round15Ticks(v: real, k: nat, j: int)
    requires 0 < k < 1_000_000_000_000_000 && 0.0001 <= v && Close(v, k as real / 100.0)
    requires v < TEN15 && j == ShiftUp(v).decimals - 2
    ensures 0 <= j
    ensures Round15(v) == if Zeros(k, j) == 1_000_000_000_000_000 then Significant(100_000_000_000_000, j + 1)
                          else Significant(Zeros(k, j), j + 2)
  {
    TwoDecimalsLeft(v, k);
    ShiftUpClose(v, k);
    HundredZeros(k, j);
    RoundsClose(ShiftUp(v).q, Zeros(k, j));
  }

  lemma GeneralOfRound15(v: real, s: Significant)
    requires 0.0001 <= v && Round15(v) == s && 0 <= s.decimals
    ensures General(v) == FixedText(s.digits, s.decimals)
  {
  }

  lemma GeneralScientific(v: real, s: Significant)
    requires 0.0001 <= v && Round15(v) == s && s.decimals < 0
    ensures General(v) == ScientificText(s.digits, s.Exponent())
  {
  }

  lemma RoundedText(k: nat, j: nat, s: Significant, text: string)
    requires k < 1_000_000_000_000_000 && text == FixedText(k, 2)
    requires s == if Zeros(k, j) == 1_000_000_000_000_000 then Significant(100_000_000_000_000, j + 1)
                  else Significant(Zeros(k, j), j + 2)
    ensures FixedText(s.digits, s.decimals) == text
  {
    ZerosVanish(k, 2, j, Zeros(k, j), j + 2, text);
    if Zeros(k, j) == 1_000_000_000_000_000 {
      ZeroVanishes(Zeros(k, j), s.digits, j + 2, s.decimals);
    }
  }

  /** A value within one part in 2^53 of k/100 is written as k/100 is, if k has at most fifteen digits. */
  lemma GeneralIsDecimal(v: real, k: nat)
    requires 0 < k < 1_000_000_000_000_000 && 0.0001 <= v && Close(v, k as real / 100.0)
    ensures General(v) == FixedText(k, 2)
  {
    TwoDecimalsLeft(v, k);
    var j := ShiftUp(v).decimals - 2;
    Round15Ticks(v, k, j);
    RoundedText(k, j, Round15(v), FixedText(k, 2));
    GeneralOfRound15(v, Round15(v));
  }

  // ---------------------------------------------------------------------------
  // What the texts say
  // ---------------------------------------------------------------------------

  /** Leaving out zeros at the end of the decimals does not change the number of units. */
  lemma {:induction false} TrailingZeros(s: string, z: string, j: nat, i: nat)
    requires Digits(s) && Digits(z) && (forall k :: 0 <= k < |z| ==> z[k] == '0') && i == j + |z|
    ensures Zeros(IntValue(s + z), j) == Zeros(IntValue(s), i)
    decreases |z|
  {
    if z == [] {
      assert s + z == s;
    } else {
      var y := z[..|z| - 1];
      assert (s + z)[..|s + z| - 1] == s + y && (s + z)[|s + z| - 1] == '0';
      assert IntValue(s + z) == 10 * IntValue(s + y);
      TrailingZeros(s, y, j + 1, i);
    }
  }

  lemma ValueOfMore(s: string, d: nat)
    requires Digits(s) && d < 10
    ensures IntValue(s + [DigitChar(d)]) == 10 * IntValue(s) + d
  {
    assert (s + [DigitChar(d)])[..|s|] == s;
  }

  lemma {:induction false} DigitsInTwoParts(n: nat, c: nat)
    ensures IntValue(IntText(DropDigits(n, c)) + PadDigits(n, c)) == n
    decreases c
  {
    var a := IntText(DropDigits(n, c));
    if c == 0 {
      assert a + [] == a;
    } else {
      var p := PadDigits(n / 10, c - 1);
      DigitsInTwoParts(n / 10, c - 1);
      ValueOfMore(a + p, n % 10);
      Assoc(a, p, [DigitChar(n % 10)]);
    }
  }


  lemma {:induction false} LeadingDigit(n: nat)
    ensures 0 < n ==> IntText(n)[0] != '0'
  {
    if 10 <= n {
      LeadingDigit(n / 10);
    }
  }

  /** The shortest way to write digits a and decimals f for a number of d decimals. */
  predicate Writes(a: string, f: string, n: nat, d: nat) {
    && Digits(a) && Digits(f) && |f| <= d
    && Zeros(IntValue(a + f), d - |f|) == n
    && (f != [] ==> f[|f| - 1] != '0')
  }

  lemma StrippedWrites(a: string, p: string, f: string, n: nat, d: nat)
    requires Digits(a) && Digits(p) && |p| == d && IntValue(a + p) == n && f == StripZeros(p)
    ensures Writes(a, f, n, d)
  {
    StripPrefix(p);
    StripZerosEnds(p);
    var z := p[|f|..];
    assert p == f + z;
    Assoc(a, f, z);
    TrailingZeros(a + f, z, 0, |z|);
  }

  lemma FixedTextWrites(n: nat, d: nat) returns (a: string, f: string)
    ensures FixedText(n, d) == a + WithPoint(f) && Writes(a, f, n, d)
    ensures a == "0" || (a != [] && a[0] != '0')
  {
    a, f := IntText(DropDigits(n, d)), StripZeros(PadDigits(n, d));
    DigitsInTwoParts(n, d);
    StrippedWrites(a, PadDigits(n, d), f, n, d);
    LeadingDigit(DropDigits(n, d));
    if DropDigits(n, d) == 0 {
      assert IntText(0) == "0";
    }
  }

  lemma ScientificTextWrites(n: nat, x: nat) returns (c: char, f: string, exponent: string)
    requires 100_000_000_000_000 <= n < 1_000_000_000_000_000
    ensures ScientificText(n, x) == [c] + WithPoint(f) + "e+" + exponent
    ensures Writes([c], f, n, 14) && c != '0' && Digits(exponent) && IntValue(exponent) == x
  {
    var digits := IntText(n);
    c, f, exponent := digits[0], StripZeros(digits[1..]), IntText(x);
    PowersOfTen();
    DigitCount(n, 14);
    DigitCount(n, 15);
    assert [c] + digits[1..] == digits;
    StrippedWrites([c], digits[1..], f, n, 14);
    LeadingDigit(n);
  }

  /** v * 10^d. */
  function Moved(v: real, d: int): (q: real)
    decreases if d < 0 then -d else d
  {
    if d == 0 then v else if 0 < d then Moved(10.0 * v, d - 1) else Moved(v / 10.0, d + 1)
  }

  lemma {:induction false} ShiftUpExact(v: real)
    requires 0.0001 <= v < TEN15
    ensures Moved(v, ShiftUp(v).decimals) == ShiftUp(v).q
    decreases 10_000_000_000_000_000_000 - (v * 10_000.0).Floor
  {
    if v < TEN14 {
      ShiftUpExact(10.0 * v);
    }
  }

  lemma {:induction false} ShiftDownExact(v: real)
    requires TEN14 <= v
    ensures Moved(v, ShiftDown(v).decimals) == ShiftDown(v).q
    decreases v.Floor
  {
    if TEN15 <= v {
      ShiftDownExact(v / 10.0);
    }
  }

  lemma {:induction false} MovedBack(v: real, d: int)
    ensures Moved(v, d - 1) == Moved(v, d) / 10.0
    decreases if d < 0 then -d else d
  {
    if 0 < d {
      MovedBack(10.0 * v, d - 1);
      if d == 1 {
        assert Moved(v, 0) == v;
      }
    } else if d < 0 {
      MovedBack(v / 10.0, d + 1);
    } else {
      assert Moved(v, -1) == Moved(v / 10.0, 0);
    }
  }

  /** The fifteen significant digits are the nearest ones, the even ones in a tie. */
  lemma Round15Nearest(v: real)
    requires 0.0001 <= v
    ensures var s := Round15(v);
            var q := Moved(v, s.decimals);
            && 100_000_000_000_000 <= s.digits < 1_000_000_000_000_000
            && -0.5 <= q - s.digits as real <= 0.5
            && (q - s.digits as real == 0.5 || q - s.digits as real == -0.5 ==> s.digits % 2 == 0)
  {
    if v < TEN15 {
      ShiftUpExact(v);
      MovedBack(v, ShiftUp(v).decimals);
    } else {
      ShiftDownExact(v);
      MovedBack(v, ShiftDown(v).decimals);
    }
  }

  /** The general format in full: the nearest fifteen significant digits, without trailing zeros, in plain form if
      the first digit stands at most fourteen places before the point, and otherwise in scientific form. */
  lemma GeneralIs(v: real) returns (a: string, f: string, exponent: string)
    requires 0.0001 <= v
    ensures var s := Round15(v);
            if 0 <= s.decimals then General(v) == a + WithPoint(f) && Writes(a, f, s.digits, s.decimals)
            else
              && General(v) == a + WithPoint(f) + "e+" + exponent
              && |a| == 1 && Writes(a, f, s.digits, 14)
              && Digits(exponent) && IntValue(exponent) == 14 - s.decimals
  {
    var s := Round15(v);
    exponent := [];
    if 0 <= s.decimals {
      GeneralOfRound15(v, s);
      a, f := FixedTextWrites(s.digits, s.decimals);
    } else {
      Round15Nearest(v);
      GeneralScientific(v, s);
      var c;
      c, f, exponent := ScientificTextWrites(s.digits, s.Exponent());
      a := [c];
    }
  }

  /** The fixed format in full: the nearest number of fifteen decimals, all of them written. */
  lemma FixedIs(v: real) returns (a: string, f: string, n: nat)
    requires 0.0 <= v
    ensures Fixed(v) == a + ("." + f) && Digits(a) && Digits(f) && |f| == 15 && IntValue(a + f) == n
    ensures a == "0" || (a != [] && a[0] != '0')
    ensures n == RoundHalfEven(v * TEN15)
  {
    n := RoundHalfEven(v * TEN15);
    a, f := IntText(DropDigits(n, 15)), PadDigits(n, 15);
    DigitsInTwoParts(n, 15);
    LeadingDigit(DropDigits(n, 15));
    if DropDigits(n, 15) == 0 {
      assert IntText(0) == "0";
    }
  }
}
