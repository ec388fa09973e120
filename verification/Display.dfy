// The price cells of OrderBookBox::to_table: pretty of the double ticks / 100, padded to 13 columns.
module Display {
  import opened Doubles
  import opened NumberText
  import opened ToChars
  import opened Wrappers

  /** Helpers::Pad for strings. */
  function Pad(s: string, width: nat): (r: string)
    ensures |r| == width
  {
    if |s| >= width then s[..width] else s + seq(width - |s|, _ => ' ')
  }

  /** The cell is the text followed by spaces only, or as much of the text as there is room for. */
  ghost predicate Fills(cell: string, text: string, width: nat) {
    && |cell| == width
    && (|text| <= width ==> text <= cell && forall i :: |text| <= i < width ==> cell[i] == ' ')
    && (width <= |text| ==> cell == text[..width])
  }

  lemma PadFills(s: string, width: nat)
    ensures Fills(Pad(s, width), s, width)
  {
  }

  /** Hundredths after the point, without trailing zeros. */
  function FracText(cents: nat): (f: string)
    requires cents < 100
    ensures Digits(f)
  {
    if cents == 0 then []
    else if cents % 10 == 0 then [DigitChar(cents / 10)]
    else [DigitChar(cents / 10), DigitChar(cents % 10)]
  }

  function CellOf(units: nat, cents: nat): (d: Decimal)
    requires cents < 100
    ensures d.Valid()
  {
    Decimal(false, IntText(units), cents != 0, FracText(cents))
  }

  /** k/100 as a plain decimal without trailing zeros. */
  function Cell(k: nat): (d: Decimal)
    ensures d.Valid()
  {
    CellOf(k / 100, k % 100)
  }

  /** static_cast<double>(k) / 100. */
  function PriceDouble(k: nat): (v: real)
    ensures v == 0.0 || 0.0001 <= v
  {
    PriceNotTiny(k);
    RoundNearest(RoundNearest(k as real) / 100.0)
  }

  lemma PriceNotTiny(k: nat)
    ensures var v := RoundNearest(RoundNearest(k as real) / 100.0); v == 0.0 || 0.0001 <= v
  {
    IntegerExact(0);
    if k > 0 {
      IntegerExact(1);
      Monotone(1.0, k as real);
      var x := RoundNearest(k as real) / 100.0;
      assert 0.01 <= x;
      RelativeError(x);
    }
  }

  /** What stands in the cell. */
  function PriceCell(k: nat): (s: string) {
    Pad(Pretty(General(PriceDouble(k))), 13)
  }

  lemma CloseToTicks(k: nat)
    requires 0 < k < 1_000_000_000_000_000
    ensures Close(PriceDouble(k), k as real / 100.0) && 0.0001 <= PriceDouble(k)
  {
    IntegerExact(k);
    RelativeError(k as real / 100.0);
  }

  lemma PadTwo(k: nat)
    ensures PadDigits(k, 2) == [DigitChar(k / 10 % 10), DigitChar(k % 10)]
  {
    assert PadDigits(k / 10, 1) == PadDigits(k / 10 / 10, 0) + [DigitChar(k / 10 % 10)];
  }

  lemma StripTwo(x: char, y: char)
    ensures StripZeros([x, y]) == if y != '0' then [x, y] else if x != '0' then [x] else []
  {
    assert [x, y][..1] == [x] && [x][..0] == [];
    assert StripZeros([x]) == if x == '0' then StripZeros([]) else [x];
  }

  lemma FracOfHundredths(k: nat)
    ensures StripZeros(PadDigits(k, 2)) == FracText(k % 100)
  {
    PadTwo(k);
    StripTwo(DigitChar(k / 10 % 10), DigitChar(k % 10));
    Hundredths(k);
  }

  lemma Hundredths(k: nat)
    ensures k % 100 % 10 == k % 10 && k % 100 / 10 == k / 10 % 10 && k / 10 / 10 == k / 100
    ensures k % 100 == 10 * (k / 10 % 10) + k % 10
  {
  }

  lemma HundredthsText(k: nat)
    ensures FixedText(k, 2) == Cell(k).Text()
  {
    FracOfHundredths(k);
    Hundredths(k);
    assert DropDigits(k, 2) == DropDigits(k / 10 / 10, 0);
    assert "" + IntText(k / 100) == IntText(k / 100);
  }

  lemma ZeroText()
    ensures PriceDouble(0) == 0.0 && Cell(0).Text() == "0"
  {
    IntegerExact(0);
    assert IntText(0) == "0";
  }

  /** Below 10^15 ticks the double is written as the exact decimal: fifteen significant digits are enough. */
  lemma TextIsDecimal(k: nat)
    requires k < 1_000_000_000_000_000
    ensures General(PriceDouble(k)) == Cell(k).Text()
  {
    if k == 0 {
      ZeroText();
    } else {
      CloseToTicks(k);
      GeneralIsDecimal(PriceDouble(k), k);
      HundredthsText(k);
    }
  }

  /** What stands in the cell if the price is written as a plain decimal. */
  function PlainCell(k: nat): (s: string) {
    Pad(Pretty(Cell(k).Text()), 13)
  }

  lemma ShownPlainly(k: nat)
    requires k < 1_000_000_000_000_000
    ensures PriceCell(k) == PlainCell(k)
  {
    TextIsDecimal(k);
  }

  lemma StripCents(k: nat)
    ensures StripZeros(Cell(k).frac) == Cell(k).frac
  {
    var f := Cell(k).frac;
    if f != [] {
      assert DigitValue(f[|f| - 1]) != 0;
    }
  }

  lemma PrettyParts(k: nat)
    ensures Pretty(Cell(k).Text()) == Group(Cell(k).whole) + Cell(k).Fraction()
  {
    var d := Cell(k);
    TrimIsDecimal(d);
    StripCents(k);
    CommasInParts(d);
    assert "" + Group(d.whole) == Group(d.whole);
  }

  // ---------------------------------------------------------------------------
  // Width
  // ---------------------------------------------------------------------------

  lemma FractionWidth(k: nat)
    ensures |Cell(k).Fraction()| == if k % 100 == 0 then 0 else if k % 10 == 0 then 2 else 3
  {
    Hundredths(k);
  }

  lemma PrettyWidth(k: nat)
    ensures var n := |IntText(k / 100)|;
            |Pretty(Cell(k).Text())|
            == n + (n - 1) / 3 + (if k % 100 == 0 then 0 else if k % 10 == 0 then 2 else 3)
  {
    PrettyParts(k);
    FractionWidth(k);
    GroupShape(Cell(k).whole);
  }

  /** The text fits the 13 columns exactly for prices below 10^8, below 10^9 if they are whole tenths,
      and below 10^10 if they are whole units. */
  lemma FitsIff(k: nat)
    ensures |Pretty(Cell(k).Text())| <= 13
            <==> || k < 10_000_000_000
                 || (k % 10 == 0 && k < 100_000_000_000)
                 || (k % 100 == 0 && k < 1_000_000_000_000)
  {
    var n := k / 100;
    PrettyWidth(k);
    DigitCount(n, 8);
    DigitCount(n, 9);
    DigitCount(n, 10);
    PowersOfTen();
    FitsByDigits(|IntText(n)|);
  }

  lemma FitsByDigits(n: nat)
    requires 0 < n
    ensures n + (n - 1) / 3 <= 13 <==> n <= 10
    ensures n + (n - 1) / 3 + 2 <= 13 <==> n <= 9
    ensures n + (n - 1) / 3 + 3 <= 13 <==> n <= 8
  {
  }

  // ---------------------------------------------------------------------------
  // Reading a cell
  // ---------------------------------------------------------------------------

  /** Reads a cell as a number of hundredths: padding and commas are skipped. */
  function Parse(cell: string): (r: Option<nat>) {
    ParsePlain(WithoutCommas(cell[..Find(cell, ' ')]))
  }

  function ParsePlain(t: string): (r: Option<nat>) {
    var dot := Find(t, '.');
    var frac := if dot == |t| then [] else t[dot + 1..];
    if !Digits(t[..dot]) || !Digits(frac) || |frac| > 2 then None
    else Some(100 * IntValue(t[..dot]) + Cents(frac))
  }

  function Cents(frac: string): (c: nat)
    requires Digits(frac) && |frac| <= 2
  {
    if frac == [] then 0
    else if |frac| == 1 then 10 * DigitValue(frac[0])
    else 10 * DigitValue(frac[0]) + DigitValue(frac[1])
  }

  predicate NoSpaces(s: string) {
    forall i :: 0 <= i < |s| ==> s[i] != ' '
  }

  lemma {:induction false} GroupNoSpaces(d: string)
    requires NoSpaces(d)
    ensures NoSpaces(Group(d))
    decreases |d|
  {
    if |d| > 3 {
      GroupNoSpaces(d[..|d| - 3]);
    }
  }

  /** Padding a text that fits and has no spaces can be undone. */
  lemma UnpadPad(s: string, width: nat)
    requires NoSpaces(s) && |s| <= width
    ensures Pad(s, width)[..Find(Pad(s, width), ' ')] == s
  {
    FindIs(Pad(s, width), ' ', |s|);
  }

  lemma PrettyNoSpaces(k: nat)
    ensures NoSpaces(Pretty(Cell(k).Text()))
  {
    PrettyParts(k);
    GroupNoSpaces(Cell(k).whole);
    NoSpacesConcat(Group(Cell(k).whole), Cell(k).Fraction());
  }

  lemma NoSpacesConcat(a: string, b: string)
    requires NoSpaces(a) && NoSpaces(b)
    ensures NoSpaces(a + b)
  {
  }

  lemma PrettyUngrouped(k: nat)
    ensures WithoutCommas(Pretty(Cell(k).Text())) == Cell(k).whole + Cell(k).Fraction()
  {
    var d := Cell(k);
    PrettyParts(k);
    CommasInParts(d);
    WithoutCommasConcat(Group(d.whole), d.Fraction());
    UngroupGroup(d.whole);
    NoCommasToRemove(d.Fraction());
  }

  lemma ParseParts(d: Decimal)
    requires d.Valid() && |d.frac| <= 2
    ensures ParsePlain(d.whole + d.Fraction()) == Some(100 * IntValue(d.whole) + Cents(d.frac))
  {
    FindPoint(d.whole, d.frac);
    Around(d.whole, d.frac);
    assert d.whole + "" == d.whole;
    assert d.whole[..|d.whole|] == d.whole;
  }

  lemma CentsOfCell(k: nat)
    ensures 100 * IntValue(Cell(k).whole) + Cents(Cell(k).frac) == k
  {
    assert k % 100 == 10 * (k % 100 / 10) + k % 100 % 10;
  }

  lemma ReadPadded(p: string, t: string)
    requires NoSpaces(p) && |p| <= 13 && WithoutCommas(p) == t
    ensures Parse(Pad(p, 13)) == ParsePlain(t)
  {
    UnpadPad(p, 13);
  }

  /** The cell's text, and the text without its commas. */
  lemma CellTexts(k: nat) returns (p: string, t: string)
    ensures p == Pretty(Cell(k).Text()) && NoSpaces(p)
    ensures t == WithoutCommas(p) == Cell(k).whole + Cell(k).Fraction()
  {
    PrettyNoSpaces(k);
    PrettyUngrouped(k);
    p := Pretty(Cell(k).Text());
    t := WithoutCommas(p);
  }

  lemma PlainReadsBack(k: nat, t: string)
    requires t == Cell(k).whole + Cell(k).Fraction()
    ensures ParsePlain(t) == Some(k)
  {
    ParseParts(Cell(k));
    CentsOfCell(k);
  }

  /** A decimal that fits reads back as the tick count. */
  lemma CellRoundTrip(k: nat)
    requires |Pretty(Cell(k).Text())| <= 13
    ensures Parse(PlainCell(k)) == Some(k)
  {
    var p, t := CellTexts(k);
    PlainReadsBack(k, t);
    ReadPadded(p, t);
  }

  // ---------------------------------------------------------------------------
  // A cell that is cut off
  // ---------------------------------------------------------------------------

  lemma LosesLast(a: string, b: string, c: char)
    requires c != ','
    ensures WithoutCommas(a) <= WithoutCommas(a + (b + [c]))
    ensures |WithoutCommas(a)| < |WithoutCommas(a + (b + [c]))|
  {
    WithoutCommasConcat(a, b + [c]);
    WithoutCommasConcat(b, [c]);
    NoCommasToRemove([c]);
  }

  lemma SplitLast(p: string, n: nat)
    requires n < |p|
    ensures p == p[..n] + (p[n..|p| - 1] + [p[|p| - 1]])
  {
  }

  /** Cutting characters off the end of a text that does not end in a comma loses a character other than a comma. */
  lemma CutLoses(p: string, n: nat)
    requires n < |p| && p[|p| - 1] != ','
    ensures WithoutCommas(p[..n]) <= WithoutCommas(p) && |WithoutCommas(p[..n])| < |WithoutCommas(p)|
  {
    SplitLast(p, n);
    LosesLast(p[..n], p[n..|p| - 1], p[|p| - 1]);
  }

  lemma EndsInDigit(k: nat)
    ensures var p := Pretty(Cell(k).Text()); p != [] && p[|p| - 1] != ','
  {
    var d := Cell(k);
    var g := Group(d.whole);
    PrettyParts(k);
    CommasInParts(d);
    GroupShape(d.whole);
    assert g[|g| - 1] != ',';
    LastOf(g, d.Fraction());
  }

  lemma LastOf(a: string, b: string)
    requires a != []
    ensures (a + b)[|a + b| - 1] == if b == [] then a[|a| - 1] else b[|b| - 1]
  {
  }

  /** Fewer digits than the number has stand for a smaller number. */
  lemma FewerDigitsLess(u: string, n: nat)
    requires Digits(u) && |u| < |IntText(n)| && 10 <= n
    ensures IntValue(u) < n
  {
    var m := |IntText(n)| - 1;
    DigitCount(n, 1);
    assert Pow10(1) == 10 * Pow10(0);
    DigitCount(n, m);
    IntBound(u);
    PowersGrow(|u|, m);
  }

  lemma ParseDigits(u: string)
    requires Digits(u)
    ensures ParsePlain(u) == Some(100 * IntValue(u))
  {
    FindIs(u, '.', |u|);
    assert u[..|u|] == u;
  }

  lemma FewerCents(cents: nat, j: nat)
    requires cents < 100 && j < |FracText(cents)|
    ensures Cents(FracText(cents)[..j]) < Cents(FracText(cents))
  {
  }

  /** What is left of the cell's text when its end is missing reads as less than the price. */
  lemma CutReadsLess(k: nat, u: string)
    requires 1000 <= k
    requires u <= Cell(k).whole + Cell(k).Fraction() && |u| < |Cell(k).whole + Cell(k).Fraction()|
    ensures ParsePlain(u).Some? && ParsePlain(u).value < k
  {
    var d := Cell(k);
    CentsOfCell(k);
    if |u| < |d.whole| {
      assert u == d.whole[..|u|];
      FewerDigitsLess(u, k / 100);
      ParseDigits(u);
    } else {
      var j := |u| - |d.whole|;
      var rest := Decimal(false, d.whole, j > 0, if j > 0 then d.frac[..j - 1] else []);
      assert u == d.whole + rest.Fraction() by {
        PrefixOf(d.whole, d.Fraction(), u);
        FractionStart(d, j);
      }
      ParseParts(rest);
      FewerCents(k % 100, |rest.frac|);
    }
  }

  lemma PrefixOf(a: string, b: string, u: string)
    requires u <= a + b && |a| <= |u|
    ensures u == a + b[..|u| - |a|]
  {
  }

  lemma FractionStart(d: Decimal, j: nat)
    requires d.Valid() && j < |d.Fraction()|
    ensures d.Fraction()[..j] == if j > 0 then "." + d.frac[..j - 1] else ""
    ensures d.point && (j > 0 ==> j - 1 < |d.frac|)
  {
  }

  /** A decimal that does not fit reads as less than the price. */
  lemma CutCellReadsLess(k: nat)
    requires |Pretty(Cell(k).Text())| > 13
    ensures Parse(PlainCell(k)).Some? && Parse(PlainCell(k)).value < k
  {
    var p, t := CellTexts(k);
    FitsIff(k);
    EndsInDigit(k);
    CutLoses(p, 13);
    CutReadsLess(k, WithoutCommas(p[..13]));
    FindIs(p[..13], ' ', 13);
    assert p[..13][..13] == p[..13];
  }

  lemma {:induction false} WithoutCommasShorter(s: string)
    ensures |WithoutCommas(s)| <= |s|
    decreases |s|
  {
    if s != [] {
      WithoutCommasShorter(s[1..]);
    }
  }

  lemma IntBoundAt(d: string, m: nat)
    requires Digits(d) && |d| <= m
    ensures IntValue(d) < Pow10(m)
  {
    IntBound(d);
    PowersGrow(|d|, m);
  }

  /** Thirteen columns have no room for 10^15 ticks. */
  lemma CellsReadBelow(t: string)
    requires |t| <= 13
    ensures ParsePlain(t).Some? ==> ParsePlain(t).value < 1_000_000_000_000_000
  {
    PowersOfTen();
    var dot := Find(t, '.');
    if ParsePlain(t).Some? {
      IntBoundAt(t[..dot], 13);
      if dot < |t| {
        IntBoundAt(t[..dot], 12);
      }
    }
  }

  predicate Readable(k: nat) {
    || k < 10_000_000_000
    || (k % 10 == 0 && k < 100_000_000_000)
    || (k % 100 == 0 && k < 1_000_000_000_000)
  }

  lemma PlainReadsBackIff(k: nat)
    ensures Parse(PlainCell(k)) == Some(k) <==> Readable(k)
    ensures Parse(PlainCell(k)).Some? && Parse(PlainCell(k)).value <= k
  {
    FitsIff(k);
    if |Pretty(Cell(k).Text())| <= 13 {
      CellRoundTrip(k);
    } else {
      CutCellReadsLess(k);
    }
  }

  lemma AnyCellReadsBelow(s: string)
    ensures Parse(Pad(s, 13)).Some? ==> Parse(Pad(s, 13)).value < 1_000_000_000_000_000
  {
    var cell := Pad(s, 13);
    WithoutCommasShorter(cell[..Find(cell, ' ')]);
    CellsReadBelow(WithoutCommas(cell[..Find(cell, ' ')]));
  }

  /** A price reads back from its cell exactly below 10^10 ticks, below 10^11 if it is a whole number of tenths,
      and below 10^12 if it is a whole number of units. Any other reads as a smaller price or, at 10^15 ticks and
      beyond, possibly as none. */
  lemma CellReadsBackIff(k: nat)
    ensures Parse(PriceCell(k)) == Some(k) <==> Readable(k)
    ensures Parse(PriceCell(k)).Some? ==> Parse(PriceCell(k)).value <= k
    ensures k < 1_000_000_000_000_000 ==> Parse(PriceCell(k)).Some?
  {
    if k < 1_000_000_000_000_000 {
      PlainReadsBackIff(k);
      ShownPlainly(k);
    } else {
      AnyCellReadsBelow(Pretty(General(PriceDouble(k))));
    }
  }

  /** Below 10^15 ticks a price cell holds the decimal of the price with its commas, and spaces. For a readable price
      all of the decimal is there. */
  lemma PriceCellIs(k: nat)
    requires k < 1_000_000_000_000_000
    ensures var text := Group(Cell(k).whole) + Cell(k).Fraction();
            Fills(PriceCell(k), text, 13) && (Readable(k) <==> |text| <= 13)
  {
    ShownPlainly(k);
    PrettyParts(k);
    FitsIff(k);
    PadFills(Pretty(Cell(k).Text()), 13);
  }

  /** Every price below 10^8 reads back from its cell, and no two of them look alike. */
  lemma PricesShowDistinctly(j: nat, k: nat)
    requires j < 10_000_000_000 && k < 10_000_000_000
    ensures Parse(PriceCell(k)) == Some(k)
    ensures PriceCell(j) == PriceCell(k) <==> j == k
  {
    CellReadsBackIff(j);
    CellReadsBackIff(k);
  }

  /** From 10^8 on, the last digit of a price with two decimals is cut off: prices that differ only there
      need 14 columns and look alike. The least of them are 10^10 + 1 and 10^10 + 2 ticks. */
  lemma LastDigitCutOff(j: nat, k: nat)
    requires 10_000_000_000 <= k < 100_000_000_000
    requires j / 10 == k / 10 && j % 10 != 0 && k % 10 != 0
    ensures |Pretty(Cell(j).Text())| == |Pretty(Cell(k).Text())| == 14
    ensures PriceCell(j) == PriceCell(k)
  {
    Hundredths(j);
    Hundredths(k);
    CutTo13(j, k / 100, k % 100 / 10, j % 10);
    CutTo13(k, k / 100, k % 100 / 10, k % 10);
    ShownPlainly(j);
    ShownPlainly(k);
  }

  lemma CutTo13(k: nat, q: nat, tenths: nat, a: nat)
    requires 100_000_000 <= q < 1_000_000_000 && tenths < 10 && 0 < a < 10
    requires k / 100 == q && k % 100 == 10 * tenths + a
    ensures |Pretty(Cell(k).Text())| == 14
    ensures PlainCell(k) == Front(q, tenths)
  {
    var p, g := CutCell(k, q, tenths, a);
    FrontOf(g, DigitChar(tenths), DigitChar(a));
    assert PlainCell(k) == Pad(p, 13);
  }

  /** The first 13 columns: whole part, point and tenths. */
  function Front(q: nat, tenths: nat): (s: string)
    requires tenths < 10
  {
    Group(IntText(q)) + "." + [DigitChar(tenths)]
  }

  lemma TwoDecimals(k: nat, q: nat, tenths: nat, a: nat)
    requires tenths < 10 && 0 < a < 10 && k / 100 == q && k % 100 == 10 * tenths + a
    ensures Cell(k).whole == IntText(q)
    ensures Cell(k).Fraction() == "." + [DigitChar(tenths), DigitChar(a)]
  {
    TwoDigits(tenths, a);
  }

  lemma CutCell(k: nat, q: nat, tenths: nat, a: nat) returns (p: string, g: string)
    requires 100_000_000 <= q < 1_000_000_000
    requires tenths < 10 && 0 < a < 10 && k / 100 == q && k % 100 == 10 * tenths + a
    ensures g == Group(IntText(q)) && |g| == 11
    ensures p == Pretty(Cell(k).Text()) == g + ("." + [DigitChar(tenths), DigitChar(a)])
  {
    p, g := Pretty(Cell(k).Text()), Group(IntText(q));
    NineDigits(q);
    PrettyParts(k);
    TwoDecimals(k, q, tenths, a);
  }

  lemma TwoDigits(tenths: nat, a: nat)
    requires tenths < 10 && 0 < a < 10
    ensures FracText(10 * tenths + a) == [DigitChar(tenths), DigitChar(a)]
  {
  }

  lemma NineDigits(q: nat)
    requires 100_000_000 <= q < 1_000_000_000
    ensures |Group(IntText(q))| == 11
  {
    PowersOfTen();
    DigitCount(q, 8);
    DigitCount(q, 9);
    GroupShape(IntText(q));
  }

  lemma FrontOf(g: string, x: char, y: char)
    requires |g| == 11
    ensures |g + ("." + [x, y])| == 14
    ensures Pad(g + ("." + [x, y]), 13) == g + "." + [x]
  {
  }

  // ---------------------------------------------------------------------------
  // Scientific notation
  // ---------------------------------------------------------------------------

  lemma SentinelAsDouble(k: nat)
    requires k == 0xFFFF_FFFF_FFFF_FFFF
    ensures RoundNearest(k as real) == TWO64
  {
    var x := 18446744073709551615.0;
    var y := x / 2048.0;
    assert Doubled(y, 11) == x;
    RoundsScaled(y, 11);
    assert RoundUnits(y) == TWO53;
    assert Doubled(TWO53, 11) == TWO64;
  }

  /** UINT64_MAX becomes 2^64, and a hundredth of that is rounded to a multiple of 32. */
  lemma SentinelDouble(k: nat)
    requires k == 0xFFFF_FFFF_FFFF_FFFF
    ensures PriceDouble(k) == 184467440737095520.0
  {
    SentinelAsDouble(k);
    var z := TWO64 / 100.0 / 32.0;
    assert Doubled(z, 5) == TWO64 / 100.0;
    RoundsScaled(z, 5);
    assert RoundUnits(z) == 5764607523034235.0;
    assert Doubled(5764607523034235.0, 5) == 184467440737095520.0;
  }

  lemma SentinelDigits(v: real)
    requires v == 184467440737095520.0
    ensures Round15(v) == Significant(184467440737096, -3)
  {
    assert ShiftDown(v / 1000.0) == Shifted(184467440737095.52, 0);
    assert ShiftDown(v / 100.0) == Shifted(184467440737095.52, -1);
    assert ShiftDown(v / 10.0) == Shifted(184467440737095.52, -2);
    assert ShiftDown(v) == Shifted(184467440737095.52, -3);
  }

  lemma ValueMore(s: string, j: nat, v: nat)
    requires Digits(s) && j < |s| && IntValue(s[..j]) == v
    ensures IntValue(s[..j + 1]) == 10 * v + DigitValue(s[j])
  {
    assert s[..j + 1][..j] == s[..j];
  }

  lemma FiveMore(s: string, j: nat, v: nat)
    requires Digits(s) && j + 5 <= |s| && IntValue(s[..j]) == v
    ensures IntValue(s[..j + 5])
            == 10 * (10 * (10 * (10 * (10 * v + DigitValue(s[j])) + DigitValue(s[j + 1])) + DigitValue(s[j + 2]))
                     + DigitValue(s[j + 3])) + DigitValue(s[j + 4])
  {
    ValueMore(s, j, v);
    ValueMore(s, j + 1, IntValue(s[..j + 1]));
    ValueMore(s, j + 2, IntValue(s[..j + 2]));
    ValueMore(s, j + 3, IntValue(s[..j + 3]));
    ValueMore(s, j + 4, IntValue(s[..j + 4]));
  }

  lemma SentinelIsDigits(s: string)
    requires s == "184467440737096"
    ensures Digits(s) && s != [] && s[0] != '0'
  {
  }

  lemma SentinelValue(s: string)
    requires s == "184467440737096" && Digits(s)
    ensures IntValue(s) == 184467440737096
  {
    FiveMore(s, 0, 0);
    FiveMore(s, 5, 18446);
    FiveMore(s, 10, 1844674407);
    assert s[..15] == s;
  }

  lemma SentinelInt(n: nat, s: string)
    requires n == 184467440737096 && s == "184467440737096"
    ensures IntText(n) == s
  {
    SentinelIsDigits(s);
    SentinelValue(s);
    TextOfValue(s);
  }

  lemma ScientificOf(n: nat, x: nat, digits: string, f: string)
    requires IntText(n) == digits && digits[1..] == f && f != [] && f[|f| - 1] != '0'
    ensures ScientificText(n, x) == [digits[0]] + ("." + f) + "e+" + IntText(x)
  {
  }

  lemma SentinelJoined(f: string, exponent: string)
    requires f == "84467440737096" && exponent == "17"
    ensures ['1'] + ("." + f) + "e+" + exponent == "1.84467440737096e+17"
  {
  }

  lemma SentinelTail(digits: string, f: string)
    requires digits == "184467440737096" && f == "84467440737096"
    ensures digits[1..] == f && digits[0] == '1'
  {
  }

  lemma SentinelScientific(n: nat, x: nat, digits: string, f: string)
    requires n == 184467440737096 && x == 17 && digits == "184467440737096" && f == "84467440737096"
    ensures ScientificText(n, x) == "1.84467440737096e+17"
  {
    SentinelInt(n, digits);
    SentinelTail(digits, f);
    ScientificOf(n, x, digits, f);
    assert IntText(x) == "17";
    SentinelJoined(f, IntText(x));
  }

  lemma SentinelGeneral(v: real)
    requires v == 184467440737095520.0
    ensures General(v) == "1.84467440737096e+17"
  {
    SentinelDigits(v);
    var s := Round15(v);
    GeneralScientific(v, s);
    SentinelScientific(s.digits, s.Exponent(), "184467440737096", "84467440737096");
  }

  lemma SentinelText(k: nat)
    requires k == 0xFFFF_FFFF_FFFF_FFFF
    ensures General(PriceDouble(k)) == "1.84467440737096e+17"
  {
    SentinelDouble(k);
    SentinelGeneral(PriceDouble(k));
  }

  lemma SentinelPretty()
    ensures Pretty("1.84467440737096e+17") == "1.84467440737096e+17"
  {
    var s := "1.84467440737096e+17";
    FindIs(s, '.', 1);
    assert StripZeros(s[2..]) == s[2..];
    assert s[..2] + s[2..] == s;
    assert Group("1") == "1";
    assert s[..0] + Group(s[0..1]) + s[1..] == s;
  }

  lemma CutSentinel(s: string, cell: string)
    requires s == "1.84467440737096e+17" && cell == "1.84467440737"
    ensures Pad(s, 13) == cell
  {
  }

  lemma SentinelUnread(cell: string)
    requires cell == "1.84467440737"
    ensures Parse(cell) == None
  {
    FindIs(cell, ' ', 13);
    NoCommasToRemove(cell);
    FindIs(cell, '.', 1);
    assert cell[..13] == cell;
  }

  /** The sentinel is shown as a number, but as one that no price is shown as. */
  lemma SentinelCell(k: nat)
    requires k == 0xFFFF_FFFF_FFFF_FFFF
    ensures PriceCell(k) == "1.84467440737" && Parse(PriceCell(k)) == None
  {
    SentinelText(k);
    SentinelPretty();
    CutSentinel("1.84467440737096e+17", "1.84467440737");
    SentinelUnread("1.84467440737");
  }
}
