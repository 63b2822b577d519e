/** What the natural order of cpp/util.cpp:73-117 means for the names, numbers and decimals that
    people sort, said in characters and place values. */
module NaturalOrderLaws {
  import opened Characters
  import opened DoublePrecision
  import opened NaturalOrder
  import opened Numerals
  import opened Rounding
  import opened Tokenizer
  import opened Wrappers

  // ---------- Place value ----------

  lemma {:induction false} DigitsConcat(x: string, y: string)
    requires AllDigits(x) && AllDigits(y)
    ensures AllDigits(x + y)
    ensures DigitsValue(x + y) == DigitsValue(x) * Pow10(|y|) + DigitsValue(y)
  {
    if y == "" {
      assert x + y == x;
    } else {
      var init, last := y[..|y| - 1], y[|y| - 1];
      DigitsConcat(x, init);
      MoreDigits(x + init, last);
      assert x + y == x + init + [last];
      TenTimes(DigitsValue(x), Pow10(|y| - 1));
    }
  }

  lemma OneDigit(c: char)
    requires IsDigit(c)
    ensures AllDigits([c]) && DigitsValue([c]) == c as int - '0' as int
  {
    assert [c][..0] == "";
  }

  /** A longer number without leading zeros is larger. */
  lemma LongerIsLarger(x: string, y: string)
    requires AllDigits(x) && AllDigits(y) && |x| < |y| && y[0] != '0'
    ensures DigitsValue(x) < DigitsValue(y)
  {
    var rest := y[1..];
    assert y == [y[0]] + rest && IsDigit(y[0]);
    assert AllDigits(rest) by {
      assert forall i :: 0 <= i < |rest| ==> rest[i] == y[i + 1];
    }
    OneDigit(y[0]);
    DigitsConcat([y[0]], rest);
    DigitsBelow(x);
    Pow10Monotone(|x|, |rest|);
    AtLeastOnce(DigitsValue([y[0]]), Pow10(|rest|));
  }

  lemma AtLeastOnce(d: nat, p: nat)
    requires d >= 1
    ensures d * p >= p
  {
  }

  /** Of two numbers with the same number of digits, the first different digit decides. */
  lemma FirstDigitDecides(head: string, a: char, x: string, b: char, y: string)
    requires AllDigits(head) && AllDigits(x) && AllDigits(y) && |x| == |y| && IsDigit(a) && IsDigit(b) && a < b
    ensures AllDigits(head + [a] + x) && AllDigits(head + [b] + y)
    ensures DigitsValue(head + [a] + x) < DigitsValue(head + [b] + y)
  {
    MoreDigits(head, a);
    MoreDigits(head, b);
    DigitsConcat(head + [a], x);
    DigitsConcat(head + [b], y);
    DigitsBelow(x);
    Larger(DigitsValue(head + [a]), DigitsValue(head + [b]), Pow10(|x|));
  }

  lemma Larger(m: nat, n: nat, p: nat)
    requires m < n
    ensures m * p + p <= n * p
  {
    assert (n - m - 1) * p >= 0;
  }

  // ---------- Numbers ----------

  lemma {:induction false} ShortIsExact(x: string)
    requires AllDigits(x) && |x| <= 15
    ensures DigitsValue(x) <= TWO_TO_53
  {
    DigitsBelow(x);
    Pow10Monotone(|x|, 15);
    assert Pow10(15) == 1_000_000_000_000_000;
  }

  /** "file9" comes before "file10": the number with fewer digits comes first. */
  lemma FewerDigitsComeFirst(name: string, x: string, y: string)
    requires Pure(name, true) && AllDigits(x) && AllDigits(y) && x != "" && y != ""
    requires |x| < |y| <= 15 && y[0] != '0'
    ensures CompareNat(name + x, name + y) == 1
  {
    ShortIsExact(x);
    ShortIsExact(y);
    LongerIsLarger(x, y);
    NumbersCompareByValue(name, x, y);
  }

  /** "file19" comes before "file21": of as many digits, the first different one decides. */
  lemma SmallerDigitComesFirst(name: string, head: string, a: char, x: string, b: char, y: string)
    requires Pure(name, true) && AllDigits(head) && AllDigits(x) && AllDigits(y) && |x| == |y|
    requires IsDigit(a) && IsDigit(b) && a < b && |head| + 1 + |x| <= 15
    ensures CompareNat(name + (head + [a] + x), name + (head + [b] + y)) == 1
  {
    FirstDigitDecides(head, a, x, b, y);
    ShortIsExact(head + [a] + x);
    ShortIsExact(head + [b] + y);
    NumbersCompareByValue(name, head + [a] + x, head + [b] + y);
  }

  /** Leading zeros do not matter. */
  lemma LeadingZeroTies(name: string, x: string)
    requires Pure(name, true) && AllDigits(x) && x != "" && |x| < 308
    ensures CompareNat(name + ("0" + x), name + x) == 0
  {
    OneDigit('0');
    DigitsConcat("0", x);
    WholeNumber(x);
    WholeNumber("0" + x);
    ShortNumeralFits(x);
    ShortNumeralFits("0" + x);
    NamesCompareByNumber(name, "0" + x, x);
    TiedSymmetric(Double(NumeralValue(x)), 0.0);
  }

  // ---------- Decimals ----------

  /** The value of the last of f digits behind the point. */
  function Unit(f: nat): real {
    1.0 / Pow10(f) as real
  }

  lemma UnitTimes(f: nat)
    ensures Unit(f) * Pow10(f) as real == 1.0 && Unit(f) > 0.0
  {
    var u := Quotient(1.0, Pow10(f) as real);
    Cancel(0.0, u, Pow10(f) as real);
  }

  lemma DecimalsInUnits(r: string)
    requires AllDigits(r)
    ensures Decimals(r) == InUnits(DigitsValue(r), |r|)
  {
    UnitTimes(|r|);
    var n, p, u := DigitsValue(r) as real, Pow10(|r|) as real, Unit(|r|);
    assert (n * u) * p == n * (u * p);
    QuotientIs(n, p, n * u);
  }

  /** A decimal is its digits, read as one number, in units of the last one. */
  lemma DecimalIsFraction(l: string, r: string)
    requires AllDigits(l) && AllDigits(r) && l != "" && r != ""
    ensures AllDigits(l + r) && IsNumeral(l + "." + r)
    ensures NumeralValue(l + "." + r) == InUnits(DigitsValue(l + r), |r|)
  {
    JoinedValue(l, r);
    DigitsConcat(l, r);
    DecimalsInUnits(r);
    SumInUnits(DigitsValue(l), DigitsValue(r), |r|);
  }

  function InUnits(n: nat, f: nat): real {
    n as real * Unit(f)
  }

  lemma SumInUnits(m: nat, n: nat, f: nat)
    ensures m as real + InUnits(n, f) == InUnits(m * Pow10(f) + n, f)
  {
    UnitTimes(f);
    SumTimes(m as real, n as real, Pow10(f) as real, Unit(f));
    IntSum(m, n, Pow10(f));
  }

  lemma IntSum(m: nat, n: nat, p: nat)
    ensures (m * p + n) as real == m as real * p as real + n as real
  {
  }

  lemma SumTimes(m: real, n: real, p: real, u: real)
    requires u * p == 1.0
    ensures m + n * u == (m * p + n) * u
  {
    assert (m * p) * u == m * (u * p);
  }

  lemma UnitOfNinePlaces(f: nat)
    requires f <= 9
    ensures 0.000000001 <= Unit(f) <= 1.0
  {
    Pow10Monotone(f, 9);
    assert Pow10(9) == 1_000_000_000;
    var p := Pow10(f) as real;
    var u := Quotient(1.0, p);
    Cancel(0.000000001, u, p);
    Cancel(u, 1.0, p);
  }

  lemma SmallFits(tok: string)
    requires IsNumeral(tok) && NumeralValue(tok) <= TWO_TO_53 as real
    ensures LexicalCast(tok) == Some(Double(NumeralValue(tok)))
  {
    RoundMonotone(TWO_TO_52, NumeralValue(tok), TWO_TO_53 as real);
    RoundFixesIntegers(TWO_TO_52, TWO_TO_53);
    DoubledGrows(9_007_199_254_740_992.0, TOP_EXPONENT);
  }

  /** What a short decimal is cast to. */
  lemma DecimalCast(l: string, r: string)
    requires AllDigits(l) && AllDigits(r) && l != "" && r != "" && |r| <= 9
    requires AllDigits(l + r) ==> DigitsValue(l + r) <= 2_251_799_813_685_248
    ensures AllDigits(l + r)
    ensures LexicalCast(l + "." + r) == Some(Double(InUnits(DigitsValue(l + r), |r|)))
  {
    DecimalIsFraction(l, r);
    SmallInUnits(DigitsValue(l + r), |r|);
    SmallFits(l + "." + r);
  }

  lemma SmallInUnits(n: nat, f: nat)
    requires n <= 2_251_799_813_685_248 && f <= 9
    ensures InUnits(n, f) <= 2_251_799_813_685_248.0
  {
    UnitOfNinePlaces(f);
    if n > 0 {
      AtMostTimes(Unit(f), 1.0, n as real);
    }
  }

  lemma DecimalsDecide(name: string, l: string, r: string, l': string, r': string)
    requires Pure(name, true) && AllDigits(l) && AllDigits(r) && l != "" && r != ""
    requires AllDigits(l') && AllDigits(r') && l' != "" && r' != ""
    ensures CompareNat(name + (l + "." + r), name + (l' + "." + r')) == CompareToken(false, l + "." + r, l' + "." + r')
  {
    DecimalIsOneToken(name, l, r);
    DecimalIsOneToken(name, l', r');
    LastNumberDecides(name, l + "." + r, l' + "." + r');
  }

  /** Decimals with equally many digits behind the point, up to nine, are ordered as the numbers that
      all their digits spell, as long as these are at most 2^51. */
  lemma DecimalsCompareByValue(name: string, l: string, r: string, l': string, r': string)
    requires Pure(name, true) && AllDigits(l) && AllDigits(r) && l != "" && r != ""
    requires AllDigits(l') && AllDigits(r') && l' != "" && r' != "" && |r| == |r'| <= 9
    requires AllDigits(l + r) ==> DigitsValue(l + r) <= 2_251_799_813_685_248
    requires AllDigits(l' + r') ==> DigitsValue(l' + r') <= 2_251_799_813_685_248
    ensures AllDigits(l + r) && AllDigits(l' + r')
    ensures CompareNat(name + (l + "." + r), name + (l' + "." + r')) ==
              if DigitsValue(l + r) < DigitsValue(l' + r') then 1
              else if DigitsValue(l + r) == DigitsValue(l' + r') then 0 else -1
  {
    DecimalCast(l, r);
    DecimalCast(l', r');
    DecimalsDecide(name, l, r, l', r');
    FractionsCompare(DigitsValue(l + r), DigitsValue(l' + r'), |r|, l + "." + r, l' + "." + r');
  }

  lemma FractionsCompare(m: nat, n: nat, f: nat, a: string, b: string)
    requires m <= 2_251_799_813_685_248 && n <= 2_251_799_813_685_248 && f <= 9 && a != "" && b != ""
    requires LexicalCast(a) == Some(Double(InUnits(m, f))) && LexicalCast(b) == Some(Double(InUnits(n, f)))
    ensures CompareToken(false, a, b) == if m < n then 1 else if m == n then 0 else -1
  {
    UnitsToldApart(m, n, f);
  }

  lemma UnitsToldApart(m: nat, n: nat, f: nat)
    requires m <= 2_251_799_813_685_248 && n <= 2_251_799_813_685_248 && f <= 9
    ensures var d1, d2 := Double(InUnits(m, f)), Double(InUnits(n, f));
            (d1 < d2 <==> m < n) && (Tied(d1, d2) <==> m == n)
  {
    var x, y := InUnits(m, f), InUnits(n, f);
    UnitOfNinePlaces(f);
    if m < n {
      FractionsToldApart(m, n, Unit(f), x, y);
    } else if n < m {
      FractionsToldApart(n, m, Unit(f), y, x);
    } else {
      TiedSymmetric(Double(x), Double(x));
    }
  }

  lemma ZeroBehind(r: string)
    requires AllDigits(r)
    ensures AllDigits(r + "0") && Decimals(r + "0") == Decimals(r)
  {
    MoreDigits(r, '0');
    SameFraction(DigitsValue(r), Pow10(|r|));
  }

  lemma SameFraction(n: nat, p: nat)
    requires p >= 1
    ensures (10 * n) as real / (10 * p) as real == n as real / p as real
  {
    var q := Quotient(n as real, p as real);
    assert q * (10 * p) as real == 10.0 * (q * p as real);
    QuotientIs((10 * n) as real, (10 * p) as real, q);
  }

  lemma SameValueTies(a: string, b: string)
    requires IsNumeral(a) && IsNumeral(b) && NumeralValue(a) == NumeralValue(b)
    requires WholeDigits(a) <= 308 && WholeDigits(b) <= 308
    ensures a != "" && b != "" && CompareToken(false, a, b) == 0
  {
    ShortNumeralFits(a);
    ShortNumeralFits(b);
    TiedSymmetric(Double(NumeralValue(a)), 0.0);
  }

  /** A zero behind the fraction does not matter: "1.5" and "1.50" tie. */
  lemma TrailingZeroTies(name: string, l: string, r: string)
    requires Pure(name, true) && AllDigits(l) && AllDigits(r) && l != "" && r != "" && |l| <= 308
    ensures CompareNat(name + (l + "." + (r + "0")), name + (l + "." + r)) == 0
  {
    ZeroBehind(r);
    JoinedValue(l, r);
    JoinedValue(l, r + "0");
    DecimalsDecide(name, l, r + "0", l, r);
    SameValueTies(l + "." + (r + "0"), l + "." + r);
  }

  /** Nor does a fraction of zero: "5" and "5.0" tie. */
  lemma ZeroFractionTies(name: string, l: string)
    requires Pure(name, true) && AllDigits(l) && l != "" && |l| <= 308
    ensures CompareNat(name + (l + "." + "0"), name + l) == 0
  {
    OneDigit('0');
    JoinedValue(l, "0");
    WholeNumber(l);
    DecimalIsOneToken(name, l, "0");
    NumberedTokens(name, l);
    LastNumberDecides(name, l + "." + "0", l);
    SameValueTies(l + "." + "0", l);
  }

  lemma CompareNatRange(s1: string, s2: string)
    ensures -1 <= CompareNat(s1, s2) <= 1
  {
    CompareTokensRange(true, MergedTokens(s1), MergedTokens(s2));
  }

  lemma {:induction false} CompareTokensRange(isText: bool, a: seq<string>, b: seq<string>)
    ensures -1 <= CompareTokens(isText, a, b) <= 1
    decreases |a|
  {
    if a != [] && b != [] {
      CompareTokensRange(!isText, a[1..], b[1..]);
    }
  }

  /** A fraction is read by its places, not as a whole number. */
  lemma QuarterBeforeHalf()
    ensures CompareNat("1.25", "1.5") == 1 && CompareNat("1.5", "1.25") == -1
  {
    assert "" + ("1" + "." + "25") == "1.25" && "" + ("1" + "." + ("5" + "0")) == "1.50";
    assert "" + ("1" + "." + "5") == "1.5";
    OneDigit('1');
    OneDigit('2');
    OneDigit('5');
    MoreDigits("1", '2');
    MoreDigits("1" + "2", '5');
    MoreDigits("1", '5');
    MoreDigits("1" + "5", '0');
    MoreDigits("2", '5');
    MoreDigits("5", '0');
    assert "1" + "25" == "1" + "2" + "5" && "1" + "50" == "1" + "5" + "0" && "25" == "2" + "5" && "50" == "5" + "0";
    DecimalsCompareByValue("", "1", "25", "1", "50");
    TrailingZeroTies("", "1", "5");
    TameDecimal("1", "25");
    TameDecimal("1", "50");
    TameDecimal("1", "5");
    CompareNatTransitive("1.25", "1.50", "1.5");
    CompareNatRange("1.25", "1.5");
    CompareNatAntisymmetric("1.25", "1.5");
  }

  lemma TameDecimal(l: string, r: string)
    requires AllDigits(l) && AllDigits(r) && l != "" && r != "" && |l| <= 308 && |r| <= 9
    ensures Tame(l + "." + r)
  {
    assert "" + (l + "." + r) == l + "." + r;
    DecimalIsOneToken("", l, r);
    JoinedValue(l, r);
    SingleNumber(l + "." + r, |l|, |r|);
    WithinIsTame(l + "." + r, |l|, |r|);
  }

  // ---------- Text ----------

  lemma {:induction false} FirstDifference(head: string, x: string, y: string)
    requires x == "" != y || (x != "" && y != "" && x[0] < y[0])
    ensures head + x != head + y && StringLess(head + x, head + y)
  {
    if head == "" {
      assert head + x == x && head + y == y;
    } else {
      FirstDifference(head[1..], x, y);
      assert (head + x)[1..] == head[1..] + x && (head + y)[1..] == head[1..] + y;
    }
  }

  /** Of two texts without digits the one with the smaller character at the first difference comes
      first, and so does a text that the other one goes on from. */
  lemma SmallerCharacterComesFirst(head: string, x: string, y: string)
    requires Pure(head + x, true) && Pure(head + y, true)
    requires x == "" != y || (x != "" && y != "" && x[0] < y[0])
    ensures CompareNat(head + x, head + y) == 1
  {
    FirstDifference(head, x, y);
    TextComparesByCharacters(head + x, head + y);
  }

  // ---------- Text and numbers ----------

  lemma FirstToken(s: string)
    ensures |MergedTokens(s)| >= if s == "" then 1 else 2
    ensures s != "" && IsDigit(s[0]) ==> MergedTokens(s)[0] == ""
    ensures s != "" && !IsDigit(s[0]) ==> MergedTokens(s)[0] != ""
  {
    var t := Tokens(s);
    assert s[0..] == s;
    TokensFromShape(s, 0, true);
    MergeShape(t, true);
    if s != "" {
      RunEndIsMaximal(s, 0, true, RunEnd(s, 0, true));
      if !IsDigit(s[0]) {
        assert RunEnd(s, 0, true) > 0;
      } else {
        assert RunEnd(s, 0, true) == 0 && s[0..0] == "";
      }
    }
  }

  /** What begins with a digit comes before what begins with text. */
  lemma NumbersComeBeforeText(s1: string, s2: string)
    requires s1 != "" && IsDigit(s1[0]) && s2 != "" && !IsDigit(s2[0])
    ensures CompareNat(s1, s2) == 1
  {
    FirstToken(s1);
    FirstToken(s2);
  }

  /** The empty string comes before every other. */
  lemma EmptyComesFirst(s: string)
    requires s != ""
    ensures CompareNat("", s) == 1
  {
    TextTokens("");
    FirstToken(s);
    assert [""][1..] == [];
  }

  /** A name comes before the same name with a number. */
  lemma NameComesBeforeNumbered(name: string, x: string)
    requires Pure(name, true) && AllDigits(x) && x != ""
    ensures CompareNat(name, name + x) == 1
  {
    TextTokens(name);
    NumberedTokens(name, x);
    var b := [name, x, ""];
    assert b[1..] == [x, ""];
    if name == "" {
      assert [""][1..] == [];
    } else {
      assert [name, ""][1..] == [""];
      assert CompareTokens(false, [""], [x, ""]) == 1;
    }
  }

  /** Behind numbers that tie, the text decides; otherwise it does not matter. */
  lemma TextBehindNumber(name: string, x: string, t: string, y: string, u: string)
    requires Pure(name, true) && AllDigits(x) && AllDigits(y) && x != "" && y != ""
    requires Pure(t, true) && Pure(u, true) && t != "" && u != ""
    requires DigitsValue(x) <= TWO_TO_53 && DigitsValue(y) <= TWO_TO_53
    ensures DigitsValue(x) < DigitsValue(y) ==> CompareNat(name + (x + t), name + (y + u)) == 1
    ensures DigitsValue(x) == DigitsValue(y) ==> CompareNat(name + (x + t), name + (y + u)) == CompareNat(t, u)
  {
    NumberThenText(name, x, t);
    NumberThenText(name, y, u);
    TextTokens(t);
    TextTokens(u);
    WholeNumberCast(x);
    WholeNumberCast(y);
    var m, n := DigitsValue(x) as real, DigitsValue(y) as real;
    TiedSymmetric(m, n);
    if m != n {
      FarIsNotTied(m, n);
    }
    var a, b := [name, x, t, ""], [name, y, u, ""];
    assert a[1..] == [x, t, ""] && b[1..] == [y, u, ""];
    assert [x, t, ""][1..] == [t, ""] && [y, u, ""][1..] == [u, ""];
    assert CompareTokens(true, a, b) == CompareTokens(false, [x, t, ""], [y, u, ""]);
  }

  lemma NumberThenText(name: string, x: string, t: string)
    requires Pure(name, true) && AllDigits(x) && x != "" && Pure(t, true) && t != ""
    ensures MergedTokens(name + (x + t)) == [name, x, t, ""]
  {
    var s, a := name + (x + t), [name, x, t, ""];
    assert a[1..] == [x, t, ""] && [x, t, ""][1..] == [t, ""] && [t, ""][1..] == [""] && [""][1..] == [];
    assert Flatten([""]) == "" && Flatten([t, ""]) == t + "" && Flatten([x, t, ""]) == x + (t + "");
    assert Flatten(a) == s && s[0..] == s;
    TokenizationIsUnique(s, 0, a, true);
    assert x[0] != '.';
    assert Merge([t, ""]) == [t, ""] && Merge([x, t, ""]) == [x] + Merge([t, ""]);
  }
}
