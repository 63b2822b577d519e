/** The natural-order comparison of cpp/util.cpp: merged tokens are compared one by one, numbers
    as doubles with a tolerance, and the first difference decides. A result of 1 means "comes
    before", -1 "comes after", 0 "no difference". */
module NaturalOrder {
  import opened Alternation
  import opened Characters
  import opened DoublePrecision
  import opened Numerals
  import opened Rounding
  import opened Tokenizer
  import opened Wrappers

  /** Character-by-character order of std::string, a proper prefix coming first. */
  predicate StringLess(a: string, b: string) {
    if b == "" then false
    else if a == "" then true
    else if a[0] == b[0] then StringLess(a[1..], b[1..])
    else a[0] < b[0]
  }

  lemma {:induction false} StringLessTrichotomy(a: string, b: string)
    ensures (if StringLess(a, b) then 1 else 0) + (if StringLess(b, a) then 1 else 0)
         == (if a == b then 0 else 1)
  {
    if a == "" || b == "" || a[0] != b[0] {
    } else {
      StringLessTrichotomy(a[1..], b[1..]);
      assert a == [a[0]] + a[1..] && b == [b[0]] + b[1..];
    }
  }

  lemma {:induction false} StringLessTransitive(a: string, b: string, c: string)
    requires StringLess(a, b) && StringLess(b, c)
    ensures StringLess(a, c)
  {
    if a != "" && a[0] == b[0] == c[0] {
      StringLessTransitive(a[1..], b[1..], c[1..]);
    }
  }

  /** The double nearest to the numeral's value is finite. */
  predicate Fits(tok: string)
    requires IsNumeral(tok)
  {
    Double(NumeralValue(tok)) < Overflow()
  }

  /** lexical_cast<double> on the strings the comparison can hand it: the nearest double. None
      stands for bad_lexical_cast, which numerals beyond the range of doubles raise. */
  function LexicalCast(tok: string): Option<real> {
    if IsNumeral(tok) && Fits(tok) then Some(Double(NumeralValue(tok))) else None
  }

  // ---------- The comparison ----------

  function CompareToken(isText: bool, a: string, b: string): int {
    if a == "" || b == "" then
      if |a| == |b| then 0 else if |a| < |b| then 1 else -1
    else if !isText && LexicalCast(a).Some? && LexicalCast(b).Some? then
      var d1, d2 := LexicalCast(a).value, LexicalCast(b).value;
      if Tied(d1, d2) then 0 else if d1 < d2 then 1 else -1
    else if a == b then 0
    else if StringLess(a, b) then 1 else -1
  }

  function CompareTokens(isText: bool, a: seq<string>, b: seq<string>): int
    decreases |a|
  {
    if a == [] || b == [] then
      if |a| == |b| then 0 else if |a| < |b| then 1 else -1
    else
      var c := CompareToken(isText, a[0], b[0]);
      if c != 0 then c else CompareTokens(!isText, a[1..], b[1..])
  }

  function CompareNat(s1: string, s2: string): int {
    CompareTokens(true, MergedTokens(s1), MergedTokens(s2))
  }

  lemma CompareTokensStep(isText: bool, a: seq<string>, b: seq<string>, i: nat)
    requires i < |a| && i < |b|
    ensures CompareTokens(isText, a[i..], b[i..]) ==
              var c := CompareToken(isText, a[i], b[i]);
              if c != 0 then c else CompareTokens(!isText, a[i + 1..], b[i + 1..])
  {
    assert a[i..][1..] == a[i + 1..] && b[i..][1..] == b[i + 1..];
  }

  /** On number tokens the cast succeeds exactly below 2^1024 - 2^970, and so for everything with
      at most 308 digits before the point. Beyond, the catch clause leads on to a comparison of
      the two texts. */
  lemma CastSucceedsExactly(s: string, i: nat)
    requires i < |MergedTokens(s)| && !IsTurn(i, true) && MergedTokens(s)[i] != ""
    ensures IsNumeral(MergedTokens(s)[i])
    ensures LexicalCast(MergedTokens(s)[i]).Some? <==> NumeralValue(MergedTokens(s)[i]) < Halfway()
    ensures WholeDigits(MergedTokens(s)[i]) <= 308 ==> LexicalCast(MergedTokens(s)[i]).Some?
  {
    var tok := MergedTokens(s)[i];
    MergedTokensShape(s);
    assert MergedAt(MergedTokens(s), i, true);
    NumeralBelow(tok);
    FitsExactly(NumeralValue(tok));
    if WholeDigits(tok) <= 308 {
      ShortNumeralFits(tok);
    }
  }

  /** A double can hold every number with at most 308 digits before the point, but not twice
      10^308. */
  lemma RangeOfDoubles() returns (whole: nat)
    ensures whole == 308 && Pow10(whole) as real < Halfway() < 2.0 * Pow10(whole) as real
  {
    whole := 308;
    RangeOf(11, TOP_EXPONENT, whole);
  }

  lemma RangeOf(n: nat, top: nat, whole: nat)
    requires n <= 11 && 93 * n == 52 + top && 28 * n == whole
    ensures Pow10(whole) as real < HalfwayAt(top) < 2.0 * Pow10(whole) as real
  {
    PowersAreClose(n);
    AtMostElevenTimes(n, Pow2(52 + top));
    Scaled52(top);
    RangeFromPowers(Pow2(top), Pow10(whole));
  }

  lemma Scaled52(top: nat)
    ensures HalfwayAt(top) == 9_007_199_254_740_991.5 * Pow2(top) as real
    ensures Pow2(52 + top) == TWO_TO_52 * Pow2(top)
  {
    DoubledIs(9_007_199_254_740_991.5, top);
    Pow2Of52();
    Pow2Add(52, top);
  }

  lemma AtMostElevenTimes(n: nat, p: nat)
    requires n <= 11
    ensures n * p <= 11 * p
  {
  }

  lemma Pow2Of52()
    ensures Pow2(52) == TWO_TO_52
  {
    assert Pow2(4) == 16 && Pow2(12) == 4_096;
    Pow2Known(12, 12, 4_096, 4_096);
    Pow2Known(24, 24, 16_777_216, 16_777_216);
    Pow2Known(48, 4, 281_474_976_710_656, 16);
  }

  lemma RangeFromPowers(p: nat, q: nat)
    requires p >= 1 && TWO_TO_52 * p <= q && 50 * q <= 61 * (TWO_TO_52 * p)
    ensures q as real < 9_007_199_254_740_991.5 * p as real < 2.0 * q as real
  {
  }

  lemma {:induction false} Pow10Monotone(m: nat, n: nat)
    requires m <= n
    ensures Pow10(m) <= Pow10(n)
    decreases n - m
  {
    if m < n {
      Pow10Monotone(m, n - 1);
    }
  }

  lemma ShortNumeralFits(tok: string)
    requires IsNumeral(tok) && WholeDigits(tok) <= 308
    ensures Fits(tok)
  {
    var whole := RangeOfDoubles();
    NumeralBelow(tok);
    Pow10Monotone(WholeDigits(tok), whole);
    FitsExactly(NumeralValue(tok));
  }

  method StrCompareNat(s1: string, s2: string) returns (r: int)
    ensures r == CompareNat(s1, s2)
  {
    var tok1 := TokenizeString(s1);
    var compTok1 := MergeFloats(tok1);
    var tok2 := TokenizeString(s2);
    var compTok2 := MergeFloats(tok2);
    var l1, l2 := |compTok1|, |compTok2|;
    var compLen := if l1 < l2 then l1 else l2;
    var mstr := false;
    var i := 0;
    assert compTok1[0..] == compTok1 && compTok2[0..] == compTok2;
    while i < compLen
      invariant 0 <= i <= compLen
      invariant mstr == !IsTurn(i, true)
      invariant CompareTokens(!mstr, compTok1[i..], compTok2[i..]) == CompareNat(s1, s2)
    {
      mstr := !mstr;
      var stok1, stok2 := compTok1[i], compTok2[i];
      CompareTokensStep(mstr, compTok1, compTok2, i);
      IsTurnFlips(i, true);
      i := i + 1;
      if |stok1| == |stok2| && |stok1| == 0 {
        continue;
      }
      if |stok1| == 0 || |stok2| == 0 {
        return if |stok1| < |stok2| then 1 else -1;
      }
      if !mstr {
        var cast1, cast2 := LexicalCast(stok1), LexicalCast(stok2);
        if cast1.Some? && cast2.Some? {
          var d1, d2 := cast1.value, cast2.value;
          if Tied(d1, d2) {
            continue;
          }
          return if d1 < d2 then 1 else -1;
        }
      }
      if stok1 == stok2 {
        continue;
      }
      return if StringLess(stok1, stok2) then 1 else -1;
    }
    if l1 == l2 {
      return 0;
    }
    return if l1 < l2 then 1 else -1;
  }

  // ---------- What the order means on the plainest names ----------

  /** A name followed by a whole number: text, number, and the empty token at the end. */
  lemma NumberedTokens(name: string, number: string)
    requires Pure(name, true) && AllDigits(number) && number != ""
    ensures MergedTokens(name + number) == [name, number, ""]
  {
    var s, t := name + number, [name, number, ""];
    assert t[1..] == [number, ""] && [number, ""][1..] == [""] && [""][1..] == [];
    assert Flatten([""]) == "" && Flatten([number, ""]) == number + "";
    assert Flatten(t) == s && s[0..] == s;
    TokenizationIsUnique(s, 0, t, true);
    assert number[0] != '.';
    assert Merge([number, ""]) == [number, ""];
  }

  /** Names that differ in a whole number of at most 2^53 at their end are ordered by its value,
      not its spelling. */
  lemma NumbersCompareByValue(name: string, x: string, y: string)
    requires Pure(name, true) && AllDigits(x) && AllDigits(y) && x != "" && y != ""
    requires DigitsValue(x) <= TWO_TO_53 && DigitsValue(y) <= TWO_TO_53
    ensures CompareNat(name + x, name + y) == ByValue(DigitsValue(x), DigitsValue(y))
  {
    NamesCompareByNumber(name, x, y);
    WholeNumberCast(x);
    WholeNumberCast(y);
    var m, n := DigitsValue(x) as real, DigitsValue(y) as real;
    TiedSymmetric(m, n);
    if m != n {
      FarIsNotTied(m, n);
    }
  }

  function ByValue(m: nat, n: nat): int {
    if m == n then 0 else if m < n then 1 else -1
  }

  lemma NamesCompareByNumber(name: string, x: string, y: string)
    requires Pure(name, true) && AllDigits(x) && AllDigits(y) && x != "" && y != ""
    ensures CompareNat(name + x, name + y) == CompareToken(false, x, y)
  {
    NumberedTokens(name, x);
    NumberedTokens(name, y);
    LastNumberDecides(name, x, y);
  }

  lemma LastNumberDecides(name: string, x: string, y: string)
    requires x != "" && y != ""
    ensures CompareTokens(true, [name, x, ""], [name, y, ""]) == CompareToken(false, x, y)
  {
    var a, b := [name, x, ""], [name, y, ""];
    assert a[1..] == [x, ""] && b[1..] == [y, ""];
    assert [x, ""][1..] == [""] && [y, ""][1..] == [""] && [""][1..] == [];
    assert CompareTokens(false, [], []) == 0;
    assert CompareTokens(true, [""], [""]) == 0;
    assert CompareTokens(false, [x, ""], [y, ""]) == CompareToken(false, x, y);
  }

  lemma WholeNumberCast(x: string)
    requires AllDigits(x) && x != "" && DigitsValue(x) <= TWO_TO_53
    ensures LexicalCast(x) == Some(DigitsValue(x) as real)
  {
    WholeNumber(x);
    RoundFixesIntegers(TWO_TO_52, DigitsValue(x));
    DoubledGrows(9_007_199_254_740_992.0, TOP_EXPONENT);
  }

  lemma {:induction false} DoubledGrows(x: real, k: nat)
    requires x > 0.0 && k > 0
    ensures Doubled(x, k) > x
  {
    if k > 1 {
      DoubledGrows(x, k - 1);
    }
  }

  /** All names that differ in whole numbers up to this one at their end are ordered by value. */
  ghost predicate ByValueUpTo(count: nat) {
    forall name: string, x: string, y: string ::
      (&& Pure(name, true) && AllDigits(x) && AllDigits(y) && x != "" && y != ""
       && DigitsValue(x) <= count && DigitsValue(y) <= count)
      ==> CompareNat(name + x, name + y) == ByValue(DigitsValue(x), DigitsValue(y))
  }

  /** 2^53 and 2^53 + 1, spelled out, do not differ. */
  lemma NextToTwoTo53() returns (x: string, y: string)
    ensures AllDigits(x) && DigitsValue(x) == TWO_TO_53 && x != ""
    ensures AllDigits(y) && DigitsValue(y) == TWO_TO_53 + 1 && y != ""
    ensures CompareNat(x, y) == 0
  {
    assert Pow10(8) == 100_000_000;
    Pow10Add(8, 8);
    x := Spelled(TWO_TO_53, 16);
    y := Spelled(TWO_TO_53 + 1, 16);
    NamesCompareByNumber("", x, y);
    assert "" + x == x && "" + y == y;
    WholeNumberCast(x);
    TooFine(y);
    TiedSymmetric(TWO_TO_53 as real, TWO_TO_53 as real);
  }

  /** So the order by value ends at 2^53. */
  lemma ByValueExactlyUpToTwoTo53(count: nat)
    ensures ByValueUpTo(count) <==> count <= TWO_TO_53
  {
    if count <= TWO_TO_53 {
      forall name: string, x: string, y: string
        | && Pure(name, true) && AllDigits(x) && AllDigits(y) && x != "" && y != ""
          && DigitsValue(x) <= count && DigitsValue(y) <= count
        ensures CompareNat(name + x, name + y) == ByValue(DigitsValue(x), DigitsValue(y))
      {
        NumbersCompareByValue(name, x, y);
      }
    } else {
      var x, y := NextToTwoTo53();
      assert "" + x == x && "" + y == y;
    }
  }

  lemma TooFine(y: string)
    requires AllDigits(y) && y != "" && DigitsValue(y) == TWO_TO_53 + 1
    ensures LexicalCast(y) == Some(TWO_TO_53 as real)
  {
    WholeNumber(y);
    assert NearestEven(4_503_599_627_370_496.5) == 4_503_599_627_370_496;
    assert RoundPositive(TWO_TO_52, 4_503_599_627_370_496.5) == 4_503_599_627_370_496.0;
    RoundTwice(TWO_TO_52, 4_503_599_627_370_496.5);
    assert (TWO_TO_53 + 1) as real == 2.0 * 4_503_599_627_370_496.5;
    DoubledGrows(9_007_199_254_740_992.0, TOP_EXPONENT);
  }

  /** Strings without digits are ordered character by character. */
  lemma TextComparesByCharacters(a: string, b: string)
    requires Pure(a, true) && Pure(b, true)
    ensures CompareNat(a, b) == if a == b then 0 else if StringLess(a, b) then 1 else -1
  {
    TextTokens(a);
    TextTokens(b);
    if a != "" && b != "" {
      assert [a, ""][1..] == [""] && [b, ""][1..] == [""] && [""][1..] == [];
      assert CompareTokens(true, [], []) == 0 && CompareTokens(false, [""], [""]) == 0;
    }
  }

  lemma TextTokens(s: string)
    requires Pure(s, true)
    ensures MergedTokens(s) == if s == "" then [""] else [s, ""]
  {
    if s != "" {
      var t := [s, ""];
      assert t[1..] == [""] && [""][1..] == [];
      assert Flatten([""]) == "" && Flatten(t) == s && s[0..] == s;
      TokenizationIsUnique(s, 0, t, true);
    }
  }

  // ---------- Reflexive and antisymmetric, for all strings ----------

  lemma CompareTokenAntisymmetric(isText: bool, a: string, b: string)
    ensures CompareToken(isText, a, b) == -CompareToken(isText, b, a)
  {
    StringLessTrichotomy(a, b);
    if LexicalCast(a).Some? && LexicalCast(b).Some? {
      TiedSymmetric(LexicalCast(a).value, LexicalCast(b).value);
      TiedSymmetric(LexicalCast(b).value, LexicalCast(a).value);
    }
  }

  lemma {:induction false} CompareTokensAntisymmetric(isText: bool, a: seq<string>, b: seq<string>)
    ensures CompareTokens(isText, a, b) == -CompareTokens(isText, b, a)
    decreases |a|
  {
    if a != [] && b != [] {
      CompareTokenAntisymmetric(isText, a[0], b[0]);
      CompareTokensAntisymmetric(!isText, a[1..], b[1..]);
    }
  }

  /** compare(a, b) == -compare(b, a); in particular compare(a, a) == 0. */
  lemma CompareNatAntisymmetric(s1: string, s2: string)
    ensures CompareNat(s1, s2) == -CompareNat(s2, s1)
    ensures CompareNat(s1, s1) == 0
  {
    CompareTokensAntisymmetric(true, MergedTokens(s1), MergedTokens(s2));
    CompareTokensAntisymmetric(true, MergedTokens(s1), MergedTokens(s1));
  }

  // ---------- The tolerance is equality up to nine fractional digits ----------

  lemma ToleranceIsEquality(a: string, b: string)
    requires IsNumeral(a) && FractionDigits(a) <= 9
    requires IsNumeral(b) && FractionDigits(b) <= 9
    ensures var d1, d2 := Double(NumeralValue(a)), Double(NumeralValue(b));
            Tied(d1, d2) <==> d1 == d2
  {
    var m := NumeralIsMultipleOfNano(a);
    var n := NumeralIsMultipleOfNano(b);
    NinePlacesTieOnlyIfEqual(m, n);
  }

  // ---------- Transitive up to nine fractional digits within the range of doubles ----------

  /** A number position's token that the comparison handles well: nothing, or a numeral with at
      most nine fractional digits that a double can hold. */
  predicate TameToken(tok: string) {
    tok == "" || (IsNumeral(tok) && FractionDigits(tok) <= 9 && Fits(tok))
  }

  predicate TameTokens(tokens: seq<string>, isText: bool) {
    forall i :: 0 <= i < |tokens| && !IsTurn(i, isText) ==> TameToken(tokens[i])
  }

  /** Every number in s has at most nine fractional digits and is within the range of doubles. */
  predicate Tame(s: string) {
    TameTokens(MergedTokens(s), true)
  }

  lemma CompareTokenTransitive(isText: bool, a: string, b: string, c: string)
    requires !isText ==> TameToken(a) && TameToken(b) && TameToken(c)
    requires CompareToken(isText, a, b) >= 0 && CompareToken(isText, b, c) >= 0
    ensures CompareToken(isText, a, c) >= 0
    ensures CompareToken(isText, a, c) == 0 <==> CompareToken(isText, a, b) == 0 == CompareToken(isText, b, c)
  {
    if a != "" && b != "" && c != "" {
      if isText {
        StringLessTrichotomy(a, b);
        StringLessTrichotomy(b, c);
        StringLessTrichotomy(a, c);
        if StringLess(a, b) && StringLess(b, c) {
          StringLessTransitive(a, b, c);
        }
      } else {
        ToleranceIsEquality(a, b);
        ToleranceIsEquality(b, c);
        ToleranceIsEquality(a, c);
      }
    }
  }

  lemma TameTail(t: seq<string>, isText: bool)
    requires t != [] && TameTokens(t, isText)
    ensures !isText ==> TameToken(t[0])
    ensures TameTokens(t[1..], !isText)
  {
    assert IsTurn(0, isText) == isText;
    forall i | 0 <= i < |t| - 1 && !IsTurn(i, !isText) ensures TameToken(t[1..][i]) {
      assert t[1..][i] == t[i + 1];
    }
  }

  lemma {:induction false} CompareTokensTransitive(isText: bool, a: seq<string>, b: seq<string>, c: seq<string>)
    requires TameTokens(a, isText) && TameTokens(b, isText) && TameTokens(c, isText)
    requires CompareTokens(isText, a, b) >= 0 && CompareTokens(isText, b, c) >= 0
    ensures CompareTokens(isText, a, c) >= 0
    ensures CompareTokens(isText, a, c) == 0 <==> CompareTokens(isText, a, b) == 0 == CompareTokens(isText, b, c)
    decreases |a|
  {
    if a != [] && b != [] && c != [] {
      TameTail(a, isText);
      TameTail(b, isText);
      TameTail(c, isText);
      CompareTokenTransitive(isText, a[0], b[0], c[0]);
      if CompareToken(isText, a[0], b[0]) == 0 == CompareToken(isText, b[0], c[0]) {
        CompareTokensTransitive(!isText, a[1..], b[1..], c[1..]);
      }
    }
  }

  lemma CompareNatTransitive(a: string, b: string, c: string)
    requires Tame(a) && Tame(b) && Tame(c)
    requires CompareNat(a, b) >= 0 && CompareNat(b, c) >= 0
    ensures CompareNat(a, c) >= 0
    ensures CompareNat(a, c) == 0 <==> CompareNat(a, b) == 0 == CompareNat(b, c)
  {
    CompareTokensTransitive(true, MergedTokens(a), MergedTokens(b), MergedTokens(c));
  }

  // ---------- And not beyond ----------

  /** Every number in s has at most so many digits before and behind the point. */
  predicate WithinDigits(s: string, whole: nat, fraction: nat) {
    forall i :: 0 <= i < |MergedTokens(s)| && !IsTurn(i, true) ==>
      WholeDigits(MergedTokens(s)[i]) <= whole && FractionDigits(MergedTokens(s)[i]) <= fraction
  }

  /** "at or before" is transitive on the strings whose numbers have at most so many digits. */
  ghost predicate TransitiveWithin(whole: nat, fraction: nat) {
    forall a: string, b: string, c: string ::
      (&& WithinDigits(a, whole, fraction) && WithinDigits(b, whole, fraction) && WithinDigits(c, whole, fraction)
       && CompareNat(a, b) >= 0 && CompareNat(b, c) >= 0)
      ==> CompareNat(a, c) >= 0
  }

  /** What WithinDigits says of the one number in a string that is nothing else. */
  lemma SingleNumber(s: string, whole: nat, fraction: nat)
    requires MergedTokens(s) == ["", s, ""]
    requires WholeDigits(s) <= whole && FractionDigits(s) <= fraction
    ensures WithinDigits(s, whole, fraction)
  {
    assert WholeDigits("") == 0 && FractionDigits("") == 0;
    forall i | 0 <= i < 3 && !IsTurn(i, true) ensures i == 1 {
      IsTurnFlips(1, true);
    }
  }

  lemma DecimalFlattens(name: string, l: string, r: string)
    ensures Flatten([name, l, ".", r, ""]) == name + (l + "." + r)
  {
    var t, t1 := [name, l, ".", r, ""], [l, ".", r, ""];
    assert t[1..] == t1 && t1[3..] == [""] && [""][1..] == [];
    FlattenThree(t1);
    assert Flatten(t1) == l + "." + r + "";
  }

  lemma DecimalIsSplit(name: string, l: string, r: string)
    requires Pure(name, true) && AllDigits(l) && AllDigits(r) && l != "" && r != ""
    ensures Tokens(name + (l + "." + r)) == [name, l, ".", r, ""]
  {
    var s, t := name + (l + "." + r), [name, l, ".", r, ""];
    DecimalFlattens(name, l, r);
    assert s[0..] == s;
    TokenizationIsUnique(s, 0, t, true);
  }

  /** A name followed by a decimal: text, number, and the empty token at the end. */
  lemma DecimalIsOneToken(name: string, l: string, r: string)
    requires Pure(name, true) && AllDigits(l) && AllDigits(r) && l != "" && r != ""
    ensures MergedTokens(name + (l + "." + r)) == [name, l + "." + r, ""]
  {
    var t, t1 := [name, l, ".", r, ""], [l, ".", r, ""];
    DecimalIsSplit(name, l, r);
    assert t[1..] == t1 && t1[3..] == [""];
    assert l[0] != '.' && l != ".";
    assert Merge(t1) == [l + "." + r] + Merge([""]);
    assert Merge(t) == [name] + Merge(t1);
  }

  /** A ten-digit decimal: its tokens, its digits and what it is cast to. */
  lemma TenDigitDecimal(n: nat) returns (s: string)
    requires n < 10
    ensures s != "" && MergedTokens(s) == ["", s, ""] && WithinDigits(s, 1, 10)
    ensures LexicalCast(s) == Some(Double(n as real / 10_000_000_000.0))
  {
    Pow10Of10();
    var fraction := Spelled(n, 10);
    s := "0." + fraction;
    assert "" + ("0" + "." + fraction) == s;
    DecimalIsOneToken("", "0", fraction);
    BelowOne(fraction);
    SingleNumber(s, 1, 10);
    ShortNumeralFits(s);
  }

  lemma Pow10Of10()
    ensures Pow10(10) == 10_000_000_000
  {
  }

  lemma BelowOne(fraction: string)
    requires AllDigits(fraction) && |fraction| == 10
    ensures var s := "0." + fraction;
            && IsNumeral(s) && WholeDigits(s) == 1 && FractionDigits(s) == 10
            && NumeralValue(s) == DigitsValue(fraction) as real / 10_000_000_000.0
  {
    Pow10Of10();
    assert "0." + fraction == "0" + "." + fraction;
    ZeroHasNoValue();
    JoinedValue("0", fraction);
  }

  lemma ZeroHasNoValue()
    ensures DigitsValue("0") == 0
  {
    assert "0"[..0] == "";
  }

  lemma SingleNumbersCompare(a: string, b: string, x: real, y: real)
    requires a != "" && MergedTokens(a) == ["", a, ""] && LexicalCast(a) == Some(x)
    requires b != "" && MergedTokens(b) == ["", b, ""] && LexicalCast(b) == Some(y)
    ensures CompareNat(a, b) == if Tied(x, y) then 0 else if x < y then 1 else -1
  {
    LastNumberDecides("", a, b);
  }

  /** With ten digits the ties chain: 5e-10 ~ 6e-10 ~ 7e-10, but 5e-10 comes before 7e-10. */
  lemma TenDigitsNotTransitive() returns (a: string, b: string, c: string)
    ensures WithinDigits(a, 1, 10) && WithinDigits(b, 1, 10) && WithinDigits(c, 1, 10)
    ensures CompareNat(a, b) == 0 == CompareNat(b, c) && CompareNat(a, c) == -1
  {
    a := TenDigitDecimal(7);
    b := TenDigitDecimal(6);
    c := TenDigitDecimal(5);
    var x, y, z := TiesChain();
    SingleNumbersCompare(a, b, x, y);
    SingleNumbersCompare(b, c, y, z);
    SingleNumbersCompare(a, c, x, z);
  }

  /** 2 * 10^308, spelled out. */
  lemma HugeNumber() returns (s: string)
    ensures |s| == 309 && AllDigits(s) && s[0] == '2' && IsNumeral(s) && !Fits(s)
  {
    var whole := RangeOfDoubles();
    var two := Spelled(2, 1);
    FirstDigit(two, 2);
    s := Shifted(two, whole);
    WholeNumber(s);
    FitsExactly(NumeralValue(s));
  }

  lemma FirstDigit(s: string, digit: nat)
    requires |s| == 1 && AllDigits(s) && DigitsValue(s) == digit
    ensures s[0] as int == '0' as int + digit
  {
    assert s[..0] == "";
  }

  lemma FirstOfTen(s: string)
    requires |s| == 2 && AllDigits(s) && DigitsValue(s) == 10
    ensures s[0] == '1'
  {
    assert s[..1][..0] == "" && IsDigit(s[1]) && IsDigit(s[..1][0]);
  }

  /** A number beyond the range of doubles is compared as text: 9 comes before 10, 10 before
      2 * 10^308 and that before 9. */
  lemma HugeNumbersNotTransitive() returns (a: string, b: string, c: string)
    ensures WithinDigits(a, 309, 0) && WithinDigits(b, 309, 0) && WithinDigits(c, 309, 0)
    ensures CompareNat(a, b) == 1 == CompareNat(b, c) && CompareNat(a, c) == -1
  {
    a := Spelled(9, 1);
    b := Spelled(10, 2);
    c := HugeNumber();
    FirstDigit(a, 9);
    FirstOfTen(b);
    NumbersCompareByValue("", a, b);
    NamesCompareByNumber("", b, c);
    NamesCompareByNumber("", a, c);
    assert "" + a == a && "" + b == b && "" + c == c;
    WholeNumberWithin(a, 309);
    WholeNumberWithin(b, 309);
    WholeNumberWithin(c, 309);
  }

  lemma WholeNumberWithin(x: string, whole: nat)
    requires AllDigits(x) && 0 < |x| <= whole
    ensures WithinDigits(x, whole, 0)
  {
    assert "" + x == x;
    NumberedTokens("", x);
    WholeNumber(x);
    SingleNumber(x, whole, 0);
  }

  lemma WithinMore(s: string, whole: nat, fraction: nat, moreWhole: nat, moreFraction: nat)
    requires WithinDigits(s, whole, fraction) && whole <= moreWhole && fraction <= moreFraction
    ensures WithinDigits(s, moreWhole, moreFraction)
  {
  }

  lemma WithinIsTame(s: string, whole: nat, fraction: nat)
    requires WithinDigits(s, whole, fraction)
    requires whole == 0 || (fraction <= 9 && whole <= 308)
    ensures Tame(s)
  {
    forall i | 0 <= i < |MergedTokens(s)| && !IsTurn(i, true) ensures TameToken(MergedTokens(s)[i]) {
      MergedTokensShape(s);
      assert MergedAt(MergedTokens(s), i, true);
      if MergedTokens(s)[i] != "" {
        ShortNumeralFits(MergedTokens(s)[i]);
      }
    }
  }

  /** Beyond nine digits behind the point or 308 before it there is a circle. */
  lemma BeyondReach(whole: nat, fraction: nat) returns (a: string, b: string, c: string)
    requires whole > 0 && (fraction > 9 || whole > 308)
    ensures WithinDigits(a, whole, fraction) && WithinDigits(b, whole, fraction) && WithinDigits(c, whole, fraction)
    ensures CompareNat(a, b) >= 0 && CompareNat(b, c) >= 0 && CompareNat(a, c) < 0
  {
    if fraction > 9 {
      a, b, c := TenDigitsNotTransitive();
      WithinMore(a, 1, 10, whole, fraction);
      WithinMore(b, 1, 10, whole, fraction);
      WithinMore(c, 1, 10, whole, fraction);
    } else {
      a, b, c := HugeNumbersNotTransitive();
      WithinMore(a, 309, 0, whole, fraction);
      WithinMore(b, 309, 0, whole, fraction);
      WithinMore(c, 309, 0, whole, fraction);
    }
  }

  /** The exact reach of the order: nine digits behind the point and 308 before it. */
  lemma TransitiveExactly(whole: nat, fraction: nat)
    ensures TransitiveWithin(whole, fraction) <==> whole == 0 || (fraction <= 9 && whole <= 308)
  {
    if whole == 0 || (fraction <= 9 && whole <= 308) {
      forall a: string, b: string, c: string
        | && WithinDigits(a, whole, fraction) && WithinDigits(b, whole, fraction) && WithinDigits(c, whole, fraction)
          && CompareNat(a, b) >= 0 && CompareNat(b, c) >= 0
        ensures CompareNat(a, c) >= 0
      {
        WithinIsTame(a, whole, fraction);
        WithinIsTame(b, whole, fraction);
        WithinIsTame(c, whole, fraction);
        CompareNatTransitive(a, b, c);
      }
    } else {
      var a, b, c := BeyondReach(whole, fraction);
    }
  }
}
