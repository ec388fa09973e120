// utils::Double::pretty and trim after std::to_chars, and ui::Helpers::Pad: editing a decimal text.
module NumberText {

  /** std::string::find; the length stands for npos. */
  function Find(s: string, c: char): (k: nat)
    ensures k <= |s|
    ensures forall j :: 0 <= j < k ==> s[j] != c
    ensures k < |s| ==> s[k] == c
  {
    FindFrom(s, c, 0)
  }

  function FindFrom(s: string, c: char, i: nat): (k: nat)
    requires i <= |s|
    ensures i <= k <= |s|
    ensures forall j :: i <= j < k ==> s[j] != c
    ensures k < |s| ==> s[k] == c
    decreases |s| - i
  {
    if i == |s| || s[i] == c then i else FindFrom(s, c, i + 1)
  }

  // Sequence facts kept apart from the functions they are used with.

  lemma Regroup(a: string, g: string, c: string, t: string, b: string)
    ensures a + (g + c + t) + b == a + g + (c + t + b)
  {
  }

  lemma Cut(s: string, i: nat, j: nat)
    requires i <= j <= |s|
    ensures s == s[..i] + s[i..j] + s[j..]
  {
  }

  lemma At3(a: string, g: string, b: string, k: nat)
    requires k < |a + g + b|
    ensures (a + g + b)[k] == if k < |a| then a[k] else if k < |a| + |g| then g[k - |a|] else b[k - |a| - |g|]
  {
  }

  lemma FindIs(s: string, c: char, k: nat)
    requires k <= |s| && (k < |s| ==> s[k] == c)
    requires forall j :: 0 <= j < k ==> s[j] != c
    ensures Find(s, c) == k
  {
  }

  // ---------------------------------------------------------------------------
  // Trailing zeros
  // ---------------------------------------------------------------------------

  function StripZeros(f: string): (r: string)
    decreases |f|
  {
    if f != [] && f[|f| - 1] == '0' then StripZeros(f[..|f| - 1]) else f
  }

  /** The text without trailing zeros after the point, and without a point that nothing follows. */
  function Trimmed(s: string): (r: string) {
    var dot := Find(s, '.');
    if dot == |s| then s
    else
      var f := StripZeros(s[dot + 1..]);
      if f == [] then s[..dot] else s[..dot + 1] + f
  }

  /** The in-place removal shared by pretty and trim. */
  method TrimInPlace(text: string) returns (s: string)
    ensures s == Trimmed(text)
  {
    s := text;
    var dot := Find(s, '.');
    if dot != |s| {
      var end := |s| - 1;
      assert s[dot + 1..end + 1] == s[dot + 1..];
      while end > dot && s[end] == '0'
        invariant dot <= end < |s|
        invariant StripZeros(s[dot + 1..]) == StripZeros(s[dot + 1..end + 1])
      {
        StripStep(s, dot, end);
        end := end - 1;
      }
      TrimEnds(s, dot, end);
      if end == dot {
        end := end - 1;
      }
      s := s[..end + 1];
    }
  }

  lemma TrimEnds(s: string, dot: nat, end: nat)
    requires dot == Find(s, '.') && dot <= end < |s|
    requires end == dot || s[end] != '0'
    requires StripZeros(s[dot + 1..]) == StripZeros(s[dot + 1..end + 1])
    ensures Trimmed(s) == if end == dot then s[..dot] else s[..end + 1]
  {
    var f := s[dot + 1..end + 1];
    assert end > dot ==> f[|f| - 1] == s[end];
    assert StripZeros(f) == f;
    assert s[..end + 1] == s[..dot + 1] + f;
  }

  lemma StripStep(s: string, dot: nat, end: nat)
    requires dot < end < |s| && s[end] == '0'
    ensures StripZeros(s[dot + 1..end + 1]) == StripZeros(s[dot + 1..end])
  {
    assert s[dot + 1..end + 1][..end - dot - 1] == s[dot + 1..end];
  }

  lemma {:induction false} StripZerosEnds(f: string)
    ensures StripZeros(f) <= f
    ensures StripZeros(f) != [] ==> StripZeros(f)[|StripZeros(f)| - 1] != '0'
    ensures StripZeros(StripZeros(f)) == StripZeros(f)
    decreases |f|
  {
    if f != [] && f[|f| - 1] == '0' {
      StripZerosEnds(f[..|f| - 1]);
    }
  }

  lemma {:induction false} StripPrefix(f: string)
    ensures StripZeros(f) <= f
    ensures forall i :: |StripZeros(f)| <= i < |f| ==> f[i] == '0'
    decreases |f|
  {
    if f != [] && f[|f| - 1] == '0' {
      StripPrefix(f[..|f| - 1]);
    }
  }

  lemma CutIsZeros(s: string, dot: nat, f: string, n: nat)
    requires dot < |s| && f == s[dot + 1..] && n == |StripZeros(f)|
    ensures forall i :: dot + 1 + n <= i < |s| ==> s[i] == '0'
    ensures dot + 1 + n <= |s| && s[..dot + 1] + StripZeros(f) == s[..dot + 1 + n]
  {
    StripPrefix(f);
    forall i | dot + 1 + n <= i < |s|
      ensures s[i] == '0'
    {
      assert f[i - dot - 1] == s[i];
    }
  }

  /** What trimming does to any text: without a point, nothing; otherwise zeros behind the point, and the point if
      nothing else is left behind it, are cut off the end, as far as they go. */
  lemma TrimmedIs(s: string)
    ensures var t, dot := Trimmed(s), Find(s, '.');
            if dot == |s| then t == s
            else
              && dot <= |t| && t <= s && (forall i :: |t| <= i < |s| ==> i == dot || s[i] == '0')
              && |t| != dot + 1 && (dot < |t| ==> t[|t| - 1] != '0')
  {
    var dot := Find(s, '.');
    if dot < |s| {
      var f := s[dot + 1..];
      var n := |StripZeros(f)|;
      CutIsZeros(s, dot, f, n);
      StripZerosEnds(f);
      if n > 0 {
        LastOfTrimmed(s, dot, f, StripZeros(f));
      }
    }
  }

  lemma LastOfTrimmed(s: string, dot: nat, f: string, z: string)
    requires dot < |s| && z != []
    ensures (s[..dot + 1] + z)[|s[..dot + 1] + z| - 1] == z[|z| - 1]
  {
  }

  predicate IsDigit(c: char) {
    '0' <= c <= '9'
  }

  predicate Digits(s: string) {
    forall i :: 0 <= i < |s| ==> IsDigit(s[i])
  }

  function DigitValue(c: char): (d: nat)
    requires IsDigit(c)
    ensures d < 10
  {
    (c - '0') as nat
  }

  /** The value of the digits after a point. */
  function FracValue(f: string): (v: real)
    requires Digits(f)
    ensures 0.0 <= v < 1.0
    decreases |f|
  {
    if f == [] then 0.0 else (DigitValue(f[0]) as real + FracValue(f[1..])) / 10.0
  }

  function IntValue(d: string): (v: nat)
    requires Digits(d)
    decreases |d|
  {
    if d == [] then 0 else 10 * IntValue(d[..|d| - 1]) + DigitValue(d[|d| - 1])
  }

  /** A plain decimal: sign, integer digits, and possibly a point with digits after it. */
  datatype Decimal = Decimal(negative: bool, whole: string, point: bool, frac: string) {
    predicate Valid() {
      whole != [] && Digits(whole) && Digits(frac) && (!point ==> frac == [])
    }

    function Sign(): (s: string) {
      if negative then "-" else ""
    }

    function Fraction(): (s: string) {
      if point then "." + frac else ""
    }

    function Text(): (s: string) {
      Sign() + whole + Fraction()
    }

    function Value(): (v: real)
      requires Valid()
    {
      var v := IntValue(whole) as real + FracValue(frac);
      if negative then -v else v
    }

    function Trim(): (d: Decimal) {
      Decimal(negative, whole, StripZeros(frac) != [], StripZeros(frac))
    }
  }

  predicate NoPoint(s: string) {
    forall i :: 0 <= i < |s| ==> s[i] != '.'
  }

  lemma FindPoint(a: string, f: string)
    requires NoPoint(a)
    ensures Find(a + ("." + f), '.') == |a|
    ensures Find(a, '.') == |a|
  {
    FindIs(a + ("." + f), '.', |a|);
    FindIs(a, '.', |a|);
  }

  lemma Around(a: string, f: string)
    ensures (a + ("." + f))[..|a|] == a
    ensures (a + ("." + f))[..|a| + 1] == a + "."
    ensures (a + ("." + f))[|a|..] == "." + f
    ensures (a + ("." + f))[|a| + 1..] == f
  {
  }

  lemma TrimmedPoint(a: string, f: string)
    requires NoPoint(a)
    ensures Trimmed(a) == a
    ensures Trimmed(a + ("." + f)) == if StripZeros(f) == [] then a else a + ("." + StripZeros(f))
  {
    var s, z := a + ("." + f), StripZeros(f);
    FindPoint(a, f);
    Around(a, f);
    assert Trimmed(s) == if z == [] then s[..|a|] else s[..|a| + 1] + z;
    Assoc(a, ".", z);
  }

  lemma Assoc(a: string, b: string, c: string)
    ensures a + b + c == a + (b + c)
  {
  }

  lemma AroundPoint(s: string)
    requires Find(s, '.') < |s|
    ensures s == s[..Find(s, '.')] + ("." + s[Find(s, '.') + 1..])
  {
  }

  /** Trimming twice is trimming once, on any text. */
  lemma TrimIdempotent(s: string)
    ensures Trimmed(Trimmed(s)) == Trimmed(s)
  {
    var dot := Find(s, '.');
    if dot < |s| {
      var a, f := s[..dot], s[dot + 1..];
      AroundPoint(s);
      StripZerosEnds(f);
      TrimmedPoint(a, f);
      TrimmedPoint(a, StripZeros(f));
    }
  }

  lemma HeadHasNoPoint(d: Decimal)
    requires d.Valid()
    ensures NoPoint(d.Sign() + d.whole)
  {
  }

  lemma TrimValid(d: Decimal)
    requires d.Valid()
    ensures d.Trim().Valid()
    ensures d.Trim().frac != [] ==> d.Trim().frac[|d.Trim().frac| - 1] != '0'
  {
    StripZerosEnds(d.frac);
  }

  /** Trimming a plain decimal leaves a plain decimal without a dangling point or a final zero. */
  lemma TrimIsDecimal(d: Decimal)
    requires d.Valid()
    ensures Trimmed(d.Text()) == d.Trim().Text()
    ensures d.Trim().Valid()
    ensures d.Trim().frac != [] ==> d.Trim().frac[|d.Trim().frac| - 1] != '0'
  {
    TrimValid(d);
    HeadHasNoPoint(d);
    TrimmedPoint(d.Sign() + d.whole, d.frac);
    EmptyFraction(d);
    EmptyFraction(d.Trim());
  }

  lemma EmptyFraction(d: Decimal)
    ensures !d.point ==> d.Text() == d.Sign() + d.whole
    ensures d.point ==> d.Text() == d.Sign() + d.whole + ("." + d.frac)
  {
    assert d.Sign() + d.whole + "" == d.Sign() + d.whole;
  }

  lemma {:induction false} StripCons(c: char, f: string)
    ensures StripZeros([c] + f) == if StripZeros(f) == [] && c == '0' then [] else [c] + StripZeros(f)
    decreases |f|
  {
    if f != [] {
      var k := |f| - 1;
      assert ([c] + f)[..k + 1] == [c] + f[..k];
      assert f[k] == ([c] + f)[k + 1];
      StripCons(c, f[..k]);
    } else {
      assert [c] + f == [c] && [c][..0] == [];
    }
  }

  lemma {:induction false} StripKeepsValue(f: string)
    requires Digits(f)
    ensures Digits(StripZeros(f)) && FracValue(StripZeros(f)) == FracValue(f)
    decreases |f|
  {
    if f != [] {
      StripKeepsValue(f[1..]);
      assert f == [f[0]] + f[1..];
      StripCons(f[0], f[1..]);
      var r := StripZeros(f);
      if r != [] {
        assert r[1..] == StripZeros(f[1..]);
      }
    }
  }

  lemma {:induction false} ZeroStripsAway(f: string)
    requires Digits(f) && FracValue(f) == 0.0
    ensures StripZeros(f) == []
    decreases |f|
  {
    if f != [] {
      ZeroStripsAway(f[1..]);
      assert f == [f[0]] + f[1..];
      StripCons(f[0], f[1..]);
    }
  }

  /** Equal values leave equal digits once trailing zeros are gone. */
  lemma {:induction false} EqualValuesStripAlike(f: string, g: string)
    requires Digits(f) && Digits(g) && FracValue(f) == FracValue(g)
    ensures StripZeros(f) == StripZeros(g)
    decreases |f|
  {
    if f == [] {
      ZeroStripsAway(g);
    } else if g == [] {
      ZeroStripsAway(f);
    } else {
      assert f == [f[0]] + f[1..] && g == [g[0]] + g[1..];
      assert f[0] == g[0];
      EqualValuesStripAlike(f[1..], g[1..]);
      StripCons(f[0], f[1..]);
      StripCons(g[0], g[1..]);
    }
  }

  /** Trimming keeps the value. */
  lemma TrimKeepsValue(d: Decimal)
    requires d.Valid()
    ensures d.Trim().Valid() && d.Trim().Value() == d.Value()
  {
    TrimIsDecimal(d);
    StripKeepsValue(d.frac);
  }

  /** Two decimals trim to the same text exactly when sign, integer digits and value agree. */
  lemma TrimCanonical(a: Decimal, b: Decimal)
    requires a.Valid() && b.Valid()
    ensures Trimmed(a.Text()) == Trimmed(b.Text())
            <==> a.negative == b.negative && a.whole == b.whole && a.Value() == b.Value()
  {
    TrimIsDecimal(a);
    TrimIsDecimal(b);
    TrimKeepsValue(a);
    TrimKeepsValue(b);
    if a.negative == b.negative && a.whole == b.whole && a.Value() == b.Value() {
      EqualValuesStripAlike(a.frac, b.frac);
    }
    if Trimmed(a.Text()) == Trimmed(b.Text()) {
      SameText(a.Trim(), b.Trim());
    }
  }

  /** Sign, integer digits and fraction can be read off the text. */
  lemma TextParts(d: Decimal)
    requires d.Valid()
    ensures Find(d.Text(), '.') == |d.Sign()| + |d.whole|
    ensures SignEnd(d.Text()) == |d.Sign()|
    ensures d.Text()[..|d.Sign()|] == d.Sign()
    ensures d.Text()[|d.Sign()|..|d.Sign()| + |d.whole|] == d.whole
    ensures d.Text()[|d.Sign()| + |d.whole|..] == d.Fraction()
  {
    var a := d.Sign() + d.whole;
    HeadHasNoPoint(d);
    FindPoint(a, d.frac);
    assert a + "" == a;
    Slices(d.Sign(), d.whole, d.Fraction());
    assert d.Text()[0] == a[0];
  }

  lemma Slices(a: string, b: string, c: string)
    ensures (a + b + c)[..|a|] == a
    ensures (a + b + c)[|a|..|a| + |b|] == b
    ensures (a + b + c)[|a| + |b|..] == c
  {
  }

  lemma SameText(a: Decimal, b: Decimal)
    requires a.Valid() && b.Valid() && a.Text() == b.Text()
    ensures a == b
  {
    TextParts(a);
    TextParts(b);
    assert a.Fraction() == b.Fraction();
    assert a.point ==> a.Fraction()[1..] == a.frac;
    assert b.point ==> b.Fraction()[1..] == b.frac;
  }

  // ---------------------------------------------------------------------------
  // Thousands separators
  // ---------------------------------------------------------------------------

  /** A comma before every group of three digits from the right, except in front. */
  function Group(d: string): (r: string)
    decreases |d|
  {
    if |d| <= 3 then d else Group(d[..|d| - 3]) + "," + d[|d| - 3..]
  }

  function SignEnd(s: string): (k: nat)
    ensures k <= Find(s, '.')
  {
    if s != [] && s[0] == '-' then 1 else 0
  }

  /** The integer part with separators, sign and fraction untouched. */
  function WithCommas(s: string): (r: string) {
    s[..SignEnd(s)] + Group(s[SignEnd(s)..Find(s, '.')]) + s[Find(s, '.')..]
  }

  /** The insertion loop of pretty, from right to left; the text grows to the right of i only. */
  method InsertCommas(text: string) returns (s: string)
    ensures s == WithCommas(text)
  {
    s := text;
    var intEnd: int := Find(s, '.');
    var start: int := if s != [] && s[0] == '-' then 1 else 0;
    ghost var sign, d, tail := text[..start], text[start..intEnd], text[intEnd..];
    var i := intEnd - 3;
    Cut(text, start, intEnd);
    while i > start
      invariant i == start + |d| - 3 && start == |sign|
      invariant Halfway(text, s, sign, d, tail)
      decreases i - start
    {
      InsertStep(text, s, sign, d, tail);
      s := s[..i] + "," + s[i..];
      tail := "," + d[|d| - 3..] + tail;
      d := d[..|d| - 3];
      i := i - 3;
    }
    ShortGroup(text, s, sign, d, tail);
  }

  /** Everything right of d has its commas, and d has none yet. */
  ghost predicate Halfway(text: string, s: string, sign: string, d: string, tail: string) {
    s == sign + d + tail && WithCommas(text) == sign + Group(d) + tail
  }

  lemma ShortGroup(text: string, s: string, sign: string, d: string, tail: string)
    requires |d| <= 3 && Halfway(text, s, sign, d, tail)
    ensures s == WithCommas(text)
  {
  }

  /** Inserting a comma three places before the end of d. */
  lemma InsertStep(text: string, s: string, sign: string, d: string, tail: string)
    requires 3 < |d| && Halfway(text, s, sign, d, tail)
    ensures var i := |sign| + |d| - 3;
            Halfway(text, s[..i] + "," + s[i..], sign, d[..|d| - 3], "," + d[|d| - 3..] + tail)
  {
    GroupStep(sign, d, tail);
    SplitStep(sign, d, tail);
  }

  lemma GroupStep(sign: string, d: string, tail: string)
    requires 3 < |d|
    ensures sign + Group(d) + tail == sign + Group(d[..|d| - 3]) + ("," + d[|d| - 3..] + tail)
  {
    Regroup(sign, Group(d[..|d| - 3]), ",", d[|d| - 3..], tail);
  }

  lemma SplitStep(sign: string, d: string, tail: string)
    requires 3 < |d|
    ensures var s := sign + d + tail;
            var i := |sign| + |d| - 3;
            s[..i] + "," + s[i..] == sign + d[..|d| - 3] + ("," + d[|d| - 3..] + tail)
  {
    var s := sign + d + tail;
    var i := |sign| + |d| - 3;
    assert s[..i] == sign + d[..|d| - 3];
    assert s[i..] == d[|d| - 3..] + tail;
    Regroup("", sign + d[..|d| - 3], ",", d[|d| - 3..] + tail, "");
  }

  /** pretty, given the text that to_chars produced. */
  function Pretty(s: string): (r: string) {
    WithCommas(Trimmed(s))
  }

  method PrettyText(text: string) returns (s: string)
    ensures s == Pretty(text)
  {
    s := TrimInPlace(text);
    s := InsertCommas(s);
  }

  function WithoutCommas(s: string): (r: string)
    decreases |s|
  {
    if s == [] then [] else (if s[0] == ',' then [] else [s[0]]) + WithoutCommas(s[1..])
  }

  predicate NoCommas(s: string) {
    forall i :: 0 <= i < |s| ==> s[i] != ','
  }

  lemma {:induction false} WithoutCommasConcat(a: string, b: string)
    ensures WithoutCommas(a + b) == WithoutCommas(a) + WithoutCommas(b)
    decreases |a|
  {
    if a == [] {
      assert a + b == b;
    } else {
      assert (a + b)[1..] == a[1..] + b;
      WithoutCommasConcat(a[1..], b);
    }
  }

  lemma {:induction false} NoCommasToRemove(s: string)
    requires NoCommas(s)
    ensures WithoutCommas(s) == s
    decreases |s|
  {
    if s != [] {
      NoCommasToRemove(s[1..]);
    }
  }

  lemma CommaAlone()
    ensures WithoutCommas(",") == []
  {
  }

  lemma WithoutOneComma(a: string, b: string)
    requires NoCommas(b)
    ensures WithoutCommas(a + "," + b) == WithoutCommas(a) + b
  {
    CommaAlone();
    WithoutCommasConcat(a, ",");
    WithoutCommasConcat(a + ",", b);
    NoCommasToRemove(b);
    Assoc(WithoutCommas(a), "", b);
    assert "" + b == b;
  }

  lemma {:induction false} UngroupGroup(d: string)
    requires NoCommas(d)
    ensures WithoutCommas(Group(d)) == d
    decreases |d|
  {
    if |d| <= 3 {
      NoCommasToRemove(d);
    } else {
      var a, b := d[..|d| - 3], d[|d| - 3..];
      UngroupGroup(a);
      WithoutOneComma(Group(a), b);
      assert d == a + b;
    }
  }

  /** Deleting the commas gives back any text that had none. */
  lemma CommasComeOff(s: string)
    requires NoCommas(s)
    ensures WithoutCommas(WithCommas(s)) == s
  {
    var a, d, b := s[..SignEnd(s)], s[SignEnd(s)..Find(s, '.')], s[Find(s, '.')..];
    Cut(s, SignEnd(s), Find(s, '.'));
    UngroupBetween(a, d, b);
  }

  lemma UngroupBetween(a: string, d: string, b: string)
    requires NoCommas(a) && NoCommas(d) && NoCommas(b)
    ensures WithoutCommas(a + Group(d) + b) == a + d + b
  {
    WithoutCommasConcat(a + Group(d), b);
    WithoutCommasConcat(a, Group(d));
    NoCommasToRemove(a);
    UngroupGroup(d);
    NoCommasToRemove(b);
  }

  /** Commas stand exactly at every fourth place from the right of the integer part: all groups but the
      first have three digits. */
  lemma {:induction false} GroupShape(d: string)
    requires d != [] && NoCommas(d)
    ensures |Group(d)| == |d| + (|d| - 1) / 3
    ensures forall k :: 0 <= k < |Group(d)| ==> (Group(d)[k] == ',' <==> (|Group(d)| - 1 - k) % 4 == 3)
    decreases |d|
  {
    if |d| > 3 {
      var k := |d| - 3;
      GroupShape(d[..k]);
      var g := Group(d[..k]);
      forall i | 0 <= i < |g| + 4
        ensures Group(d)[i] == ',' <==> (|g| + 3 - i) % 4 == 3
      {
        At3(g, ",", d[k..], i);
      }
    }
  }

  lemma CommasInParts(d: Decimal)
    requires d.Valid()
    ensures WithCommas(d.Text()) == d.Sign() + Group(d.whole) + d.Fraction()
    ensures NoCommas(d.Sign()) && NoCommas(d.whole) && NoCommas(d.Fraction())
  {
    TextParts(d);
    PartsHaveNoCommas(d);
    assert d.Text()[..SignEnd(d.Text())] == d.Sign();
  }

  lemma PartsHaveNoCommas(d: Decimal)
    requires d.Valid()
    ensures NoCommas(d.Sign()) && NoCommas(d.whole) && NoCommas(d.Fraction())
  {
  }

  /** Counted from the right end of the integer part, every fourth place but the front one. */
  predicate CommaDue(start: nat, digits: nat, k: nat)
    requires 0 < digits
  {
    var end := start + digits + (digits - 1) / 3;
    start < k < end && (end - 1 - k) % 4 == 3
  }

  /** Where the commas stand in any text that had none: nowhere but inside the integer part. */
  lemma CommasAnywhere(s: string, k: nat)
    requires NoCommas(s) && k < |WithCommas(s)|
    ensures WithCommas(s)[k] == ','
            <==> SignEnd(s) < Find(s, '.') && CommaDue(SignEnd(s), Find(s, '.') - SignEnd(s), k)
  {
    var a, d, b := s[..SignEnd(s)], s[SignEnd(s)..Find(s, '.')], s[Find(s, '.')..];
    if d == [] {
      NothingToGroup(a, d, b, k);
    } else {
      PlacesAlike(WithCommas(s), a, d, b, k);
    }
  }

  lemma NothingToGroup(a: string, d: string, b: string, k: nat)
    requires NoCommas(a) && d == [] && NoCommas(b) && k < |a + Group(d) + b|
    ensures (a + Group(d) + b)[k] != ','
  {
    At3(a, [], b, k);
  }

  /** The first group is not empty, so no comma follows the sign, and none lands in the fraction. */
  lemma CommaPlaces(d: Decimal, k: nat)
    requires d.Valid() && k < |WithCommas(d.Text())|
    ensures WithCommas(d.Text())[k] == ',' <==> CommaDue(|d.Sign()|, |d.whole|, k)
  {
    CommasInParts(d);
    PlacesAlike(WithCommas(d.Text()), d.Sign(), d.whole, d.Fraction(), k);
  }

  lemma PlacesAlike(s: string, a: string, d: string, b: string, k: nat)
    requires d != [] && NoCommas(a) && NoCommas(d) && NoCommas(b)
    requires s == a + Group(d) + b && k < |s|
    ensures s[k] == ',' <==> CommaDue(|a|, |d|, k)
  {
    CommasBetween(a, d, b, k);
  }

  lemma GroupAt(d: string, i: int)
    requires d != [] && NoCommas(d)
    ensures |Group(d)| == |d| + (|d| - 1) / 3
    ensures 0 <= i < |Group(d)| ==> (Group(d)[i] == ',' <==> (|Group(d)| - 1 - i) % 4 == 3)
  {
    GroupShape(d);
  }

  lemma CommaInMiddle(a: string, g: string, b: string, k: nat, comma: bool)
    requires NoCommas(a) && NoCommas(b) && k < |a + g + b|
    requires |a| <= k < |a| + |g| ==> (g[k - |a|] == ',' <==> comma)
    ensures (a + g + b)[k] == ',' <==> |a| <= k < |a| + |g| && comma
  {
    At3(a, g, b, k);
  }

  lemma CommasBetween(a: string, d: string, b: string, k: nat)
    requires d != [] && NoCommas(a) && NoCommas(d) && NoCommas(b)
    requires k < |a + Group(d) + b|
    ensures (a + Group(d) + b)[k] == ',' <==> CommaDue(|a|, |d|, k)
  {
    GroupAt(d, k - |a|);
    FrontPlace(|d|, |Group(d)|);
    CommaInMiddle(a, Group(d), b, k, (|Group(d)| - 1 - (k - |a|)) % 4 == 3);
  }

  /** The front place is never a fourth place from the right. */
  lemma FrontPlace(n: nat, g: nat)
    requires 0 < n && g == n + (n - 1) / 3
    ensures (g - 1) % 4 != 3
  {
  }
}
