// The size cells of OrderBookBox::to_table: trim(ticks / 100000) padded to 10 columns. Values are counted in
// units of 10^-15, the last decimal that trim asks std::to_chars for.
module SizeCells {
  import opened Display
  import opened Doubles
  import opened NumberText
  import opened ToChars
  import opened Wrappers

  /** static_cast<double>(k) / 100000. */
  function SizeDouble(k: nat): (v: real)
    ensures 0.0 <= v
  {
    RoundNearest(RoundNearest(k as real) / 100_000.0)
  }

  /** The double in units of 10^-15, as std::to_chars rounds it. */
  function Units(k: nat): (n: nat) {
    RoundHalfEven(SizeDouble(k) * TEN15)
  }

  /** What stands in the cell. */
  function SizeCell(k: nat): (s: string) {
    Pad(Trimmed(Fixed(SizeDouble(k))), 10)
  }

  // ---------------------------------------------------------------------------
  // Reading a cell
  // ---------------------------------------------------------------------------

  /** Reads a cell as a number of units. */
  function ReadUnits(cell: string): (r: Option<nat>) {
    UnitsOf(cell[..Find(cell, ' ')])
  }

  function UnitsOf(t: string): (r: Option<nat>) {
    var dot := Find(t, '.');
    var frac := if dot == |t| then [] else t[dot + 1..];
    if !Digits(t[..dot]) || !Digits(frac) || |frac| > 15 then None
    else Some(Zeros(IntValue(t[..dot] + frac), 15 - |frac|))
  }

  lemma UnitsOfParts(a: string, f: string)
    requires Digits(a) && Digits(f) && |f| <= 15
    ensures UnitsOf(a) == Some(Zeros(IntValue(a), 15))
    ensures UnitsOf(a + ("." + f)) == Some(Zeros(IntValue(a + f), 15 - |f|))
  {
    FindPoint(a, f);
    Around(a, f);
    assert a[..|a|] == a && a + [] == a;
  }

  /** The columns that hold text. */
  function Visible(t: string): (s: string) {
    if |t| <= 10 then t else t[..10]
  }

  lemma VisibleIsRead(t: string)
    requires NoSpaces(t)
    ensures ReadUnits(Pad(t, 10)) == UnitsOf(Visible(t))
  {
    FindIs(Pad(t, 10), ' ', |Visible(t)|);
    assert Pad(t, 10)[..|Visible(t)|] == Visible(t);
  }

  // ---------------------------------------------------------------------------
  // The text
  // ---------------------------------------------------------------------------

  lemma TrimmedFixed(v: real, n: nat)
    requires 0.0 <= v && n == RoundHalfEven(v * TEN15)
    ensures Trimmed(Fixed(v)) == IntText(DropDigits(n, 15)) + WithPoint(StripZeros(PadDigits(n, 15)))
  {
    var d := Decimal(false, IntText(DropDigits(n, 15)), true, PadDigits(n, 15));
    assert "" + d.whole == d.whole;
    assert Fixed(v) == d.Text();
    TrimIsDecimal(d);
    assert d.Trim().Text() == d.whole + WithPoint(StripZeros(d.frac));
  }

  lemma DigitsHaveNoSpaces(a: string, f: string)
    requires Digits(a) && Digits(f)
    ensures NoSpaces(a + WithPoint(f))
  {
  }

  /** At most c decimals. */
  function Front(f: string, c: nat): (g: string) {
    if |f| <= c then f else f[..c]
  }

  /** The room for decimals beside an integer part. */
  function Room(a: string): (c: nat) {
    if |a| <= 9 then 9 - |a| else 0
  }

  lemma VisibleDecimal(a: string, f: string)
    requires |a| <= 10
    ensures Visible(a + WithPoint(f)) == a + ("." + Front(f, Room(a)))
            || (Visible(a + WithPoint(f)) == a && Front(f, Room(a)) == [])
  {
    var t, c := a + WithPoint(f), Room(a);
    if f == [] {
      assert t == a;
    } else if |a| == 10 {
      assert t[..10] == a;
    } else if |f| <= c {
      assert Visible(t) == t;
    } else {
      assert t[..10] == a + ("." + f[..c]);
    }
  }

  lemma VisibleUnits(a: string, f: string, g: string, i: nat)
    requires Digits(a) && Digits(f) && |a| <= 10 && g == Front(f, Room(a)) && i + |g| == 15
    ensures UnitsOf(Visible(a + WithPoint(f))) == Some(Zeros(IntValue(a + g), i))
  {
    VisibleDecimal(a, f);
    UnitsOfParts(a, g);
    assert g == [] ==> a + g == a;
  }

  lemma {:induction false} PadPrefix(n: nat, c: nat, j: nat)
    ensures PadDigits(n, c + j)[..c] == PadDigits(DropDigits(n, j), c)
    ensures DropDigits(n, c + j) == DropDigits(DropDigits(n, j), c)
    decreases j
  {
    if j == 0 {
      assert PadDigits(n, c)[..c] == PadDigits(n, c);
    } else {
      PadPrefix(n / 10, c, j - 1);
      assert PadDigits(n, c + j) == PadDigits(n / 10, c + j - 1) + [DigitChar(n % 10)];
    }
  }

  /** What c decimals of n units show: n without its last j = 15 - c digits. */
  lemma CutUnits(n: nat, a: string, p: string, c: nat, j: nat)
    requires c + j == 15 && a == IntText(DropDigits(n, 15)) && p == PadDigits(n, 15)
    ensures IntValue(a + p[..c]) == DropDigits(n, j)
  {
    PadPrefix(n, c, j);
    DigitsInTwoParts(DropDigits(n, j), c);
  }

  lemma FrontThenZeros(p: string, g: string, z: string, c: nat)
    requires c <= |p| && g == Front(StripZeros(p), c) && |g| <= c && z == p[|g|..c]
    ensures p[..c] == g + z && forall i :: 0 <= i < |z| ==> z[i] == '0'
  {
    StripPrefix(p);
  }

  lemma ShownUnits(n: nat, a: string, p: string, g: string, c: nat, j: nat, i: nat)
    requires c + j == 15 && a == IntText(DropDigits(n, 15)) && p == PadDigits(n, 15)
    requires g == Front(StripZeros(p), c) && |g| <= c && Digits(g) && i + |g| == 15
    ensures Zeros(IntValue(a + g), i) == RoundedDown(n, j)
  {
    var z := p[|g|..c];
    FrontThenZeros(p, g, z, c);
    CutUnits(n, a, p, c, j);
    Assoc(a, g, z);
    TrailingZeros(a + g, z, j, i);
  }

  lemma StrippedDigits(p: string, c: nat)
    requires Digits(p)
    ensures Digits(StripZeros(p)) && Digits(Front(StripZeros(p), c)) && |Front(StripZeros(p), c)| <= c
  {
    StripPrefix(p);
  }

  lemma SizeCellText(k: nat, n: nat, a: string, f: string)
    requires n == Units(k) && a == IntText(DropDigits(n, 15)) && f == StripZeros(PadDigits(n, 15))
    ensures SizeCell(k) == Pad(a + WithPoint(f), 10)
  {
    TrimmedFixed(SizeDouble(k), n);
  }

  /** A cell with an integer part of up to ten digits reads as the number without what is cut off. */
  lemma CellReads(k: nat, n: nat, a: string, j: nat)
    requires n == Units(k) && a == IntText(DropDigits(n, 15)) && |a| <= 10 && j + Room(a) == 15
    ensures ReadUnits(SizeCell(k)) == Some(RoundedDown(n, j))
  {
    var p := PadDigits(n, 15);
    var f, g := StripZeros(p), Front(StripZeros(p), Room(a));
    var i := 15 - |g|;
    SizeCellText(k, n, a, f);
    StrippedDigits(p, Room(a));
    ShownUnits(n, a, p, g, Room(a), j, i);
    DigitsHaveNoSpaces(a, f);
    VisibleIsRead(a + WithPoint(f));
    VisibleUnits(a, f, g, i);
  }

  // ---------------------------------------------------------------------------
  // Rounding down
  // ---------------------------------------------------------------------------

  /** n ends in j zeros. */
  predicate EndsInZeros(n: nat, j: nat) {
    RoundedDown(n, j) == n
  }

  /** n without its last j digits, zeros in their place. */
  function RoundedDown(n: nat, j: nat): (m: nat) {
    Zeros(DropDigits(n, j), j)
  }

  lemma RoundedStep(n: nat, j: nat)
    requires 0 < j
    ensures RoundedDown(n, j) == 10 * RoundedDown(n / 10, j - 1)
  {
    ZerosOutside(DropDigits(n, j), j - 1);
  }

  lemma {:induction false} FloorIff(n: nat, m: nat, j: nat)
    ensures RoundedDown(n, j) == m <==> EndsInZeros(m, j) && m <= n < m + Pow10(j)
    decreases j
  {
    if j > 0 {
      FloorIff(n / 10, m / 10, j - 1);
      RoundedStep(n, j);
      RoundedStep(m, j);
    }
  }

  lemma {:induction false} ZerosAtEnd(k: nat, a: nat, j: nat)
    ensures EndsInZeros(Zeros(k, a), j) <==> j <= a || EndsInZeros(k, j - a)
    decreases j
  {
    if 0 < j && 0 < a {
      ZerosOutside(k, a - 1);
      var m := Zeros(k, a - 1);
      ZerosOutside(DropDigits(m, j - 1), j - 1);
      ZerosAtEnd(k, a - 1, j - 1);
    }
  }

  lemma {:induction false} ZerosBound(n: nat, i: nat, j: nat)
    requires n < Pow10(i)
    ensures Zeros(n, j) < Pow10(i + j)
    decreases j
  {
    if j > 0 {
      ZerosBound(10 * n, i + 1, j - 1);
    }
  }

  // ---------------------------------------------------------------------------
  // Which sizes read back
  // ---------------------------------------------------------------------------

  lemma CloseSize(k: nat)
    requires 0 < k < 1_000_000_000_000_000
    ensures Close(SizeDouble(k), k as real / 100_000.0)
  {
    IntegerExact(k);
    RelativeError(k as real / 100_000.0);
  }

  lemma UnitsNear(k: nat, n: int)
    requires k < 1_000_000_000_000_000 && n == Units(k)
    ensures -2_000_000_000 < n - 10_000_000_000 * k < 2_000_000_000
    ensures k < 1_000_000_000 ==> -2_000 < n - 10_000_000_000 * k < 2_000
  {
    if k == 0 {
      IntegerExact(0);
    } else {
      CloseSize(k);
    }
  }

  lemma WholeUnits(k: nat, q: nat)
    requires k < 1_000_000_000_000_000 && k == 100_000 * q
    ensures Units(k) == 1_000_000_000_000_000 * q
  {
    IntegerExact(k);
    IntegerExact(q);
    assert k as real / 100_000.0 == q as real;
    assert q as real * TEN15 == (1_000_000_000_000_000 * q) as real;
  }

  lemma FiveTens(n: nat)
    ensures n / 10 / 10 / 10 / 10 / 10 == n / 100_000
  {
  }

  lemma DropFive(n: nat, j: nat)
    ensures DropDigits(n, j + 5) == DropDigits(n / 100_000, j)
  {
    FiveTens(n);
    assert DropDigits(n, j + 5) == DropDigits(n / 10, j + 4) == DropDigits(n / 10 / 10, j + 3);
    assert DropDigits(n / 10 / 10, j + 3) == DropDigits(n / 10 / 10 / 10, j + 2);
    assert DropDigits(n / 10 / 10 / 10, j + 2) == DropDigits(n / 10 / 10 / 10 / 10, j + 1);
  }

  lemma DropFifteen(n: nat, q: nat)
    requires 1_000_000_000_000_000 * q <= n < 1_000_000_000_000_000 * q + 1_000_000_000_000_000
    ensures DropDigits(n, 15) == q
  {
    DropFive(n, 10);
    DropFive(n / 100_000, 5);
    DropFive(n / 100_000 / 100_000, 0);
  }

  lemma WholePart(k: nat, n: nat)
    requires k < 1_000_000_000_000_000 && n == Units(k)
    ensures DropDigits(n, 15) == k / 100_000
  {
    var q := k / 100_000;
    if k == 100_000 * q {
      WholeUnits(k, q);
    } else {
      UnitsNear(k, n);
    }
    DropFifteen(n, q);
  }

  lemma OneZero(k: nat, j: nat)
    requires 0 < j
    ensures EndsInZeros(k, j) <==> k % 10 == 0 && EndsInZeros(k / 10, j - 1)
  {
    RoundedStep(k, j);
  }

  lemma EndsInOne(k: nat)
    ensures EndsInZeros(k, 1) <==> k % 10 == 0
  {
    OneZero(k, 1);
  }

  lemma EndsInTwo(k: nat)
    ensures EndsInZeros(k, 2) <==> k % 100 == 0
  {
    OneZero(k, 2);
    EndsInOne(k / 10);
  }

  lemma EndsInThree(k: nat)
    ensures EndsInZeros(k, 3) <==> k % 1000 == 0
  {
    OneZero(k, 3);
    EndsInTwo(k / 10);
  }

  lemma EndsInFour(k: nat)
    ensures EndsInZeros(k, 4) <==> k % 10_000 == 0
  {
    OneZero(k, 4);
    EndsInThree(k / 10);
  }

  lemma EndsInFive(k: nat)
    ensures EndsInZeros(k, 5) <==> k % 100_000 == 0
  {
    OneZero(k, 5);
    EndsInFour(k / 10);
  }

  /** How many of the five decimals of a size of k ticks the ten columns cut off. */
  function CutDigits(k: nat): (i: nat) {
    if k < 1_000_000_000 then 0
    else if k < 10_000_000_000 then 1
    else if k < 100_000_000_000 then 2
    else if k < 1_000_000_000_000 then 3
    else if k < 10_000_000_000_000 then 4
    else 5
  }

  /** The number of ticks that the last decimal of the cell stands for. */
  function CellTick(k: nat): (u: nat)
    ensures 0 < u
  {
    match CutDigits(k)
    case 0 => 1
    case 1 => 10
    case 2 => 100
    case 3 => 1000
    case 4 => 10_000
    case _ => 100_000
  }

  lemma CutsOnlyZeros(k: nat)
    ensures EndsInZeros(k, CutDigits(k)) <==> k % CellTick(k) == 0
  {
    EndsInOne(k);
    EndsInTwo(k);
    EndsInThree(k);
    EndsInFour(k);
    EndsInFive(k);
  }

  lemma RoomForSize(k: nat, a: string)
    requires k < 1_000_000_000_000_000 && a == IntText(k / 100_000)
    ensures |a| <= 10
    ensures k < 1_000_000_000 ==> 5 <= Room(a)
    ensures 1_000_000_000 <= k ==> Room(a) + CutDigits(k) == 5
  {
    var q := k / 100_000;
    PowersOfTen();
    DigitCount(q, 4);
    DigitCount(q, 5);
    DigitCount(q, 6);
    DigitCount(q, 7);
    DigitCount(q, 8);
    DigitCount(q, 9);
    DigitCount(q, 10);
  }

  /** The double is not below the size, as far as fifteen decimals tell, and no digit but zeros is cut off. */
  predicate SizeReadable(k: nat) {
    k < 1_000_000_000_000_000 && k % CellTick(k) == 0 && 10_000_000_000 * k <= Units(k)
  }

  lemma AppendTen(k: nat)
    ensures Zeros(k, 10) == 10_000_000_000 * k
  {
    assert Zeros(k, 10) == Zeros(100_000 * k, 5) == Zeros(10_000_000_000 * k, 0);
  }

  lemma NotTooHigh(k: nat, n: nat, j: nat)
    requires k < 1_000_000_000_000_000 && n == Units(k) && 7 <= j && (1_000_000_000 <= k ==> 10 <= j)
    ensures n < 10_000_000_000 * k + Pow10(j)
  {
    UnitsNear(k, n);
    PowersGrow(7, j);
    assert Pow10(7) == 10_000_000;
    PowersOfTen();
    if 10 <= j {
      PowersGrow(10, j);
    }
  }

  lemma CellCutsZeros(k: nat, m: nat, a: string, j: nat)
    requires k < 1_000_000_000_000_000 && m == 10_000_000_000 * k && a == IntText(k / 100_000)
    requires j + Room(a) == 15
    ensures 7 <= j && (1_000_000_000 <= k ==> 10 <= j)
    ensures EndsInZeros(m, j) <==> k % CellTick(k) == 0
  {
    RoomForSize(k, a);
    AppendTen(k);
    ZerosAtEnd(k, 10, j);
    CutsOnlyZeros(k);
    if 1_000_000_000 <= k {
      assert j - 10 == CutDigits(k);
    }
  }

  lemma SizeReadsIff(k: nat, n: nat, m: nat, a: string, j: nat)
    requires k < 1_000_000_000_000_000 && n == Units(k) && m == 10_000_000_000 * k
    requires a == IntText(DropDigits(n, 15)) && j + Room(a) == 15
    ensures ReadUnits(SizeCell(k)) == Some(m) <==> SizeReadable(k)
  {
    WholePart(k, n);
    RoomForSize(k, a);
    CellCutsZeros(k, m, a, j);
    NotTooHigh(k, n, j);
    CellReads(k, n, a, j);
    FloorIff(n, m, j);
  }

  lemma ReadsBelow(t: string)
    requires |t| <= 10
    ensures UnitsOf(t).Some? ==> UnitsOf(t).value < 10_000_000_000_000_000_000_000_000
  {
    if UnitsOf(t).Some? {
      var dot := Find(t, '.');
      var frac := if dot == |t| then [] else t[dot + 1..];
      IntBound(t[..dot] + frac);
      ZerosBound(IntValue(t[..dot] + frac), |t[..dot] + frac|, 15 - |frac|);
      PowersGrow(|t[..dot] + frac| + (15 - |frac|), 25);
      Pow25();
    }
  }

  lemma Pow25()
    ensures Pow10(25) == 10_000_000_000_000_000_000_000_000
  {
    PowersOfTen();
    assert Pow10(20) == 100_000 * Pow10(15);
    assert Pow10(25) == 100_000 * Pow10(20);
  }

  /** A size reads back from its cell exactly if it is below 10^15 ticks, only zeros are cut off, and the double
      was not rounded below it by more than half of the last decimal. */
  lemma SizeReadsBackIff(k: nat)
    ensures ReadUnits(SizeCell(k)) == Some(10_000_000_000 * k) <==> SizeReadable(k)
  {
    if k < 1_000_000_000_000_000 {
      var n := Units(k);
      var a := IntText(DropDigits(n, 15));
      WholePart(k, n);
      RoomForSize(k, a);
      SizeReadsIff(k, n, 10_000_000_000 * k, a, 15 - Room(a));
    } else {
      var cell := SizeCell(k);
      ReadsBelow(cell[..Find(cell, ' ')]);
    }
  }

  /** 17.4 is one of the sizes whose double is too low: its cell shows 17.3999999. */
  lemma SeventeenPointFour(k: nat)
    requires k == 1_740_000
    ensures Units(k) == 17_399_999_999_999_999 && !SizeReadable(k)
    ensures ReadUnits(SizeCell(k)) == Some(17_399_999_900_000_000)
  {
    IntegerExact(k);
    var x, s := 17.4, 281474976710656.0;
    Doubled48(x);
    RoundsFraction(x, 48);
    Doubled48(SizeDouble(k));
    assert RoundHalfEven(x * s) == 4897664594765414;
    assert SizeDouble(k) * s == 4897664594765414.0;
    var n := Units(k);
    assert n == 17_399_999_999_999_999;
    WholePart(k, n);
    assert IntText(17) == "17";
    CellReads(k, n, IntText(DropDigits(n, 15)), 8);
    DropFive(n, 3);
    RoundedEight(n);
  }

  lemma RoundedEight(n: nat)
    requires n == 17_399_999_999_999_999
    ensures RoundedDown(n, 8) == 17_399_999_900_000_000
  {
    DropFive(n, 3);
    var m := n / 100_000;
    assert DropDigits(m, 3) == m / 10 / 10 / 10 == 173_999_999;
    assert Zeros(173_999_999, 8) == Zeros(17_399_999_900_000, 3) == Zeros(17_399_999_900_000_000, 0);
  }

  lemma Doubled48(x: real)
    ensures Doubled(x, 48) == x * 281474976710656.0
  {
    Doubled32(x);
    Doubled4(Doubled(x, 32));
    Doubled4(Doubled(x, 36));
    Doubled4(Doubled(x, 40));
    Doubled4(Doubled(x, 44));
    DoubledSum(x, 32, 4);
    DoubledSum(x, 36, 4);
    DoubledSum(x, 40, 4);
    DoubledSum(x, 44, 4);
  }

  /** Any size cell holds the decimal of the double with up to fifteen decimals, without trailing zeros, and spaces,
      or as much of it as there is room for. */
  lemma SizeCellIs(k: nat, n: nat, a: string, f: string)
    requires n == Units(k) && a == IntText(DropDigits(n, 15)) && f == StripZeros(PadDigits(n, 15))
    ensures Fills(SizeCell(k), a + WithPoint(f), 10) && Writes(a, f, n, 15)
  {
    SizeCellText(k, n, a, f);
    PadFills(a + WithPoint(f), 10);
    DigitsInTwoParts(n, 15);
    StrippedWrites(a, PadDigits(n, 15), f, n, 15);
  }

  // ---------------------------------------------------------------------------
  // The cell of a missing size
  // ---------------------------------------------------------------------------

  lemma Doubled5(x: real)
    ensures Doubled(x, 5) == 32.0 * x
  {
  }

  /** UINT64_MAX becomes 2^64, and 2^64 / 100000 is rounded to a multiple of 1/32. */
  lemma MissingSizeUnits(k: nat)
    requires k == 0xFFFF_FFFF_FFFF_FFFF
    ensures Units(k) == 184_467_440_737_095_531_250_000_000_000
  {
    SentinelAsDouble(k);
    var x := TWO64 / 100_000.0;
    Doubled5(x);
    RoundsFraction(x, 5);
    Doubled5(SizeDouble(k));
    assert RoundUnits(32.0 * x) == 5902958103587057.0;
    assert SizeDouble(k) == 184467440737095.53125;
  }

  lemma {:induction false} TextPrefix(n: nat, j: nat)
    requires 0 < DropDigits(n, j)
    ensures IntText(DropDigits(n, j)) <= IntText(n)
    decreases j
  {
    if j > 0 {
      if n < 10 {
        DropZero(j - 1);
      } else {
        TextPrefix(n / 10, j - 1);
      }
    }
  }

  lemma {:induction false} DropZero(j: nat)
    ensures DropDigits(0, j) == 0
  {
    if j > 0 {
      DropZero(j - 1);
    }
  }

  lemma MissingIsDigits(s: string)
    requires s == "1844674407"
    ensures Digits(s) && s[0] != '0'
  {
  }

  lemma MissingSizeDigits(s: string)
    requires s == "1844674407"
    ensures IntText(1_844_674_407) == s
  {
    MissingIsDigits(s);
    FiveMore(s, 0, 0);
    FiveMore(s, 5, 18446);
    assert s[..10] == s;
    TextOfValue(s);
  }

  lemma MissingSizeWhole(n: nat)
    requires n == 184_467_440_737_095_531_250_000_000_000
    ensures DropDigits(n, 15) == 184_467_440_737_095 && DropDigits(184_467_440_737_095, 5) == 1_844_674_407
  {
    DropFifteen(n, 184_467_440_737_095);
    DropFive(184_467_440_737_095, 0);
  }

  /** The size of a missing level is printed as a number like any other. */
  lemma MissingSizeCell(k: nat)
    requires k == 0xFFFF_FFFF_FFFF_FFFF
    ensures SizeCell(k) == "1844674407"
  {
    var n := Units(k);
    var a, f := IntText(DropDigits(n, 15)), StripZeros(PadDigits(n, 15));
    MissingSizeUnits(k);
    MissingSizeWhole(n);
    TextPrefix(184_467_440_737_095, 5);
    MissingSizeDigits("1844674407");
    SizeCellText(k, n, a, f);
    CutToPrefix("1844674407", a, WithPoint(f));
  }

  lemma CutToPrefix(p: string, a: string, rest: string)
    requires |p| == 10 && p <= a
    ensures Pad(a + rest, 10) == p
  {
  }
}
