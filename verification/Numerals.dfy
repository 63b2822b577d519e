/** The exact values of the number tokens of cpp/util.cpp: digits, or digits.digits. */
module Numerals {
  import opened Characters
  import opened Rounding
  import opened Tokenizer

  function Pow10(n: nat): (p: nat)
    ensures p >= 1
  {
    if n == 0 then 1 else 10 * Pow10(n - 1)
  }

  lemma {:induction false} Pow10Add(m: nat, n: nat)
    ensures Pow10(m + n) == Pow10(m) * Pow10(n)
  {
    if m > 0 {
      Pow10Add(m - 1, n);
      assert Pow10(m + n) == 10 * (Pow10(m - 1) * Pow10(n)) == Pow10(m) * Pow10(n);
    }
  }

  function DigitsValue(s: string): nat
    requires AllDigits(s)
  {
    if s == "" then 0
    else 10 * DigitsValue(s[..|s| - 1]) + (s[|s| - 1] as int - '0' as int)
  }

  /** Number of digits before the point. */
  function WholeDigits(tok: string): nat {
    DotIndex(tok)
  }

  /** Number of digits after the point. */
  function FractionDigits(tok: string): nat {
    var k := DotIndex(tok);
    if k < |tok| then |tok| - k - 1 else 0
  }

  /** The value of the digits after the point. */
  function Decimals(digits: string): real
    requires AllDigits(digits)
  {
    DigitsValue(digits) as real / Pow10(|digits|) as real
  }

  function NumeralValue(tok: string): real
    requires IsNumeral(tok)
  {
    var k := DotIndex(tok);
    var whole := DigitsValue(tok[..k]) as real;
    if k == |tok| then whole else whole + Decimals(tok[k + 1..])
  }

  // ---------- How large a numeral is, and what it is a multiple of ----------

  lemma {:induction false} DigitsBelow(s: string)
    requires AllDigits(s)
    ensures DigitsValue(s) < Pow10(|s|)
  {
    if s != "" {
      DigitsBelow(s[..|s| - 1]);
    }
  }

  lemma ProperFraction(n: nat, p: nat)
    requires n < p
    ensures 0.0 <= n as real / p as real < 1.0
  {
    var d := Quotient(n as real, p as real);
    Cancel(d, 1.0, p as real);
    Cancel(0.0, d, p as real);
  }

  lemma DecimalsBelow(digits: string)
    requires AllDigits(digits)
    ensures 0.0 <= Decimals(digits) < 1.0
  {
    DigitsBelow(digits);
    ProperFraction(DigitsValue(digits), Pow10(|digits|));
  }

  lemma NumeralBelow(tok: string)
    requires IsNumeral(tok)
    ensures 0.0 <= NumeralValue(tok) < Pow10(WholeDigits(tok)) as real
  {
    var k := DotIndex(tok);
    DigitsBelow(tok[..k]);
    if k < |tok| {
      DecimalsBelow(tok[k + 1..]);
    }
  }

  /** A numeral with at most nine fractional digits is a whole number of billionths. */
  lemma NumeralIsMultipleOfNano(tok: string) returns (n: nat)
    requires IsNumeral(tok) && FractionDigits(tok) <= 9
    ensures NumeralValue(tok) == n as real / 1_000_000_000.0
  {
    var k, f := DotIndex(tok), FractionDigits(tok);
    var whole := DigitsValue(tok[..k]);
    if k == |tok| {
      n := whole * 1_000_000_000;
    } else {
      assert Pow10(9) == 1_000_000_000;
      var digits := tok[k + 1..];
      Pow10Add(f, 9 - f);
      var frac := DigitsValue(digits) * Pow10(9 - f);
      n := whole * 1_000_000_000 + frac;
      FractionScales(DigitsValue(digits), Pow10(f), Pow10(9 - f));
      assert NumeralValue(tok) == whole as real + Decimals(digits);
    }
  }

  lemma FractionScales(frac: nat, p: nat, q: nat)
    requires p >= 1 && p * q == 1_000_000_000
    ensures frac as real / p as real == (frac * q) as real / 1_000_000_000.0
  {
    var x := Quotient(frac as real, p as real);
    assert (p * q) as real == p as real * q as real;
    assert (frac * q) as real == frac as real * q as real;
    assert (x * p as real) * q as real == x * (p as real * q as real);
  }

  // ---------- Spelling numbers ----------

  lemma JoinedValue(l: string, r: string)
    requires AllDigits(l) && AllDigits(r) && l != "" && r != ""
    ensures IsNumeral(l + "." + r) && WholeDigits(l + "." + r) == |l| && FractionDigits(l + "." + r) == |r|
    ensures NumeralValue(l + "." + r) == DigitsValue(l) as real + Decimals(r)
  {
    var s := l + "." + r;
    JoinIsNumeral(l, r);
    DotIndexOfJoin(l, r);
    assert s[..|l|] == l && s[|l| + 1..] == r;
  }

  lemma WholeNumber(x: string)
    requires AllDigits(x) && x != ""
    ensures IsNumeral(x) && WholeDigits(x) == |x| && FractionDigits(x) == 0
    ensures NumeralValue(x) == DigitsValue(x) as real
  {
    JoinIsNumeral(x, x);
    DotIndexOfJoin(x, x);
    assert x[..|x|] == x;
  }

  lemma MoreDigits(s: string, digit: char)
    requires AllDigits(s) && IsDigit(digit)
    ensures AllDigits(s + [digit])
    ensures DigitsValue(s + [digit]) == 10 * DigitsValue(s) + (digit as int - '0' as int)
  {
    assert (s + [digit])[..|s|] == s;
  }

  /** n with this many digits. */
  lemma {:induction false} Spelled(n: nat, len: nat) returns (s: string)
    requires n < Pow10(len)
    ensures |s| == len && AllDigits(s) && DigitsValue(s) == n
    decreases len
  {
    if len == 0 {
      s := "";
    } else {
      s := Spelled(n / 10, len - 1);
      var digit := ('0' as int + n % 10) as char;
      MoreDigits(s, digit);
      s := s + [digit];
    }
  }

  lemma TenTimes(d: nat, p: nat)
    ensures 10 * (d * p) == d * (10 * p)
  {
  }

  /** s with n zeros behind it. */
  lemma {:induction false} Shifted(s: string, n: nat) returns (t: string)
    requires AllDigits(s) && s != ""
    ensures |t| == |s| + n && AllDigits(t) && t[0] == s[0]
    ensures DigitsValue(t) == DigitsValue(s) * Pow10(n)
    decreases n
  {
    if n == 0 {
      t := s;
    } else {
      t := Shifted(s, n - 1);
      MoreDigits(t, '0');
      TenTimes(DigitsValue(s), Pow10(n - 1));
      t := t + "0";
    }
  }

  // ---------- Powers of ten and of two ----------

  /** 10^28 is a little more than 2^93, so 10^(28 n) is not much more than 2^(93 n). */
  lemma {:induction false} PowersAreClose(n: nat)
    requires n <= 11
    ensures Pow2(93 * n) <= Pow10(28 * n)
    ensures 50 * Pow10(28 * n) <= 50 * Pow2(93 * n) + n * Pow2(93 * n)
  {
    if n > 0 {
      PowersAreClose(n - 1);
      Pow2Add(93, 93 * (n - 1));
      Pow10Add(28, 28 * (n - 1));
      PowersOnce();
      CloseStep(n - 1, Pow2(93 * (n - 1)), Pow10(28 * (n - 1)));
    }
  }

  lemma PowersOnce()
    ensures Pow10(28) == 10_000_000_000_000_000_000_000_000_000
    ensures Pow2(93) == 9_903_520_314_283_042_199_192_993_792
  {
    assert Pow10(7) == 10_000_000;
    Pow10Add(7, 7);
    Pow10Add(14, 14);
    Pow2Of93();
  }

  lemma Pow2Of93()
    ensures Pow2(93) == 9_903_520_314_283_042_199_192_993_792
  {
    assert Pow2(6) == 64;
    Pow2Known(6, 6, 64, 64);
    Pow2Known(12, 12, 4_096, 4_096);
    Pow2Known(24, 24, 16_777_216, 16_777_216);
    Pow2Known(48, 24, 281_474_976_710_656, 16_777_216);
    Pow2Known(72, 12, 4_722_366_482_869_645_213_696, 4_096);
    assert Pow2(9) == 512;
    Pow2Known(84, 9, 19_342_813_113_834_066_795_298_816, 512);
  }

  lemma CloseStep(n: nat, p: nat, q: nat)
    requires n <= 10 && p <= q && 50 * q <= 50 * p + n * p
    ensures var b, t := 9_903_520_314_283_042_199_192_993_792, 10_000_000_000_000_000_000_000_000_000;
            b * p <= t * q && 50 * (t * q) <= 50 * (b * p) + (n + 1) * (b * p)
  {
    var np := n * p;
    assert np <= 10 * p;
    var b := 9_903_520_314_283_042_199_192_993_792;
    assert (n + 1) * (b * p) == b * np + b * p;
  }
}
