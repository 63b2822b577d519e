/** Double-precision arithmetic as str_compare_nat uses it: casting to the nearest double, and the
    tolerance comparison of two doubles (cpp/util.cpp:103-106). */
module DoublePrecision {
  import opened Rounding

  const TWO_TO_52 := 4_503_599_627_370_496
  const TWO_TO_53 := 9_007_199_254_740_992
  const TOP_EXPONENT: nat := 971

  /** The nearest number with a 53-bit significand. */
  function Double(x: real): real {
    Round(TWO_TO_52, x)
  }

  /** 2^1024, where the finite doubles end. */
  function Overflow(): real {
    Doubled(9_007_199_254_740_992.0, TOP_EXPONENT)
  }

  /** Halfway between the largest double and 2^1024. */
  function Halfway(): real {
    HalfwayAt(TOP_EXPONENT)
  }

  function HalfwayAt(top: nat): real {
    Doubled(9_007_199_254_740_991.5, top)
  }

  // ---------- The range ----------

  lemma {:induction false} DoubledMonotone(x: real, y: real, k: nat)
    ensures Doubled(x, k) < Doubled(y, k) <==> x < y
  {
    if k > 0 {
      DoubledMonotone(x, y, k - 1);
    }
  }

  lemma {:induction false} HalvesOf(x: real, k: nat) returns (z: real)
    requires x > 0.0
    ensures z > 0.0 && Doubled(z, k) == x
    decreases k
  {
    if k == 0 {
      z := x;
    } else {
      z := HalvesOf(x / 2.0, k - 1);
    }
  }

  lemma BelowTwoTo53(z: real)
    requires z > 0.0
    ensures RoundPositive(TWO_TO_52, z) < 9_007_199_254_740_992.0 <==> z < 9_007_199_254_740_991.5
  {
    if z >= 9_007_199_254_740_992.0 {
      RoundRange(TWO_TO_52, z / 2.0);
    } else if z < 4_503_599_627_370_496.0 {
      RoundMonotonePositive(TWO_TO_52, z, 4_503_599_627_370_496.0);
      PositiveIntegerFixed(TWO_TO_52, TWO_TO_52);
    }
  }

  /** A number rounds to a finite double exactly if it is below the halfway point. */
  lemma FitsExactly(x: real)
    requires x >= 0.0
    ensures Double(x) < Overflow() <==> x < Halfway()
  {
    DoubledMonotone(0.0, 9_007_199_254_740_991.5, TOP_EXPONENT);
    DoubledMonotone(0.0, 9_007_199_254_740_992.0, TOP_EXPONENT);
    DoubledZero(TOP_EXPONENT);
    if x > 0.0 {
      var z := HalvesOf(x, TOP_EXPONENT);
      RoundDoubled(TWO_TO_52, z, TOP_EXPONENT);
      BelowTwoTo53(z);
      DoubledMonotone(z, 9_007_199_254_740_991.5, TOP_EXPONENT);
      DoubledMonotone(RoundPositive(TWO_TO_52, z), 9_007_199_254_740_992.0, TOP_EXPONENT);
    }
  }

  lemma {:induction false} DoubledZero(k: nat)
    ensures Doubled(0.0, k) == 0.0
  {
    if k > 0 {
      DoubledZero(k - 1);
    }
  }

  // ---------- The tolerance ----------

  /** The literal 1e-10. */
  function Eps(): real {
    Double(0.0000000001)
  }

  const TWO_TO_33: real := 8_589_934_592.0
  const TWO_TO_83: real := 9_671_406_556_917_033_397_649_408.0

  function Abs(x: real): real {
    if x < 0.0 then -x else x
  }

  /** abs(d1 - d2) < EPS, with the difference rounded. */
  predicate Tied(d1: real, d2: real) {
    Abs(Double(d1 - d2)) < Eps()
  }

  lemma EpsBounds()
    ensures 967_140_655_691_703.0 / TWO_TO_83 < Eps() < 1.0 / TWO_TO_33
  {
    RoundErrorPositive(TWO_TO_52, 0.0000000001);
  }

  lemma TiedSymmetric(d1: real, d2: real)
    ensures Tied(d1, d2) == Tied(d2, d1)
    ensures Tied(d1, d1)
  {
    RoundSign(TWO_TO_52, d1 - d2);
    assert d2 - d1 == -(d1 - d2);
    EpsBounds();
    assert Double(d1 - d1) == 0.0;
  }

  /** The exponents of the two powers; the proofs need not know them. */
  lemma PowersUsed() returns (k33: nat, k83: nat)
    ensures Pow2(k33) as real == TWO_TO_33
    ensures Pow2(k83) as real == TWO_TO_83
  {
    var k: nat :| k == 11;
    assert Pow2(11) == 2_048 && Pow2(6) == 64;
    Pow2Known(k, k, 2_048, 2_048);
    Pow2Known(k + k, k, 4_194_304, 2_048);
    k33 := 3 * k;
    Pow2Known(k33, k33, 8_589_934_592, 8_589_934_592);
    Pow2Known(6 * k, k, 73_786_976_294_838_206_464, 2_048);
    k83 := 7 * k + 6;
    Pow2Known(7 * k, 6, 151_115_727_451_828_646_838_272, 64);
  }

  lemma DoubledBy(x: real, k: nat, p: real)
    requires Pow2(k) as real == p
    ensures Doubled(x, k) == x * p
  {
    DoubledIs(x, k);
  }

  lemma DoubleOfDoubled(x: real, k: nat)
    requires x > 0.0
    ensures Double(x) > 0.0 && Double(Doubled(x, k)) == Doubled(Double(x), k)
  {
    RoundRange(TWO_TO_52, x);
    RoundDoubled(TWO_TO_52, x, k);
  }

  /** Rounding commutes with scaling by a power of two. */
  lemma DoubleScaledBy33(x: real)
    requires x > 0.0
    ensures Double(x * TWO_TO_33) == Double(x) * TWO_TO_33
  {
    var k, _ := PowersUsed();
    DoubleOfDoubled(x, k);
    DoubledBy(x, k, TWO_TO_33);
    DoubledBy(Double(x), k, TWO_TO_33);
  }

  lemma DoubleScaledBy83(x: real)
    requires x > 0.0
    ensures Double(x * TWO_TO_83) == Double(x) * TWO_TO_83
  {
    var _, k := PowersUsed();
    DoubleOfDoubled(x, k);
    DoubledBy(x, k, TWO_TO_83);
    DoubledBy(Double(x), k, TWO_TO_83);
  }

  lemma LeastGapIsDouble()
    ensures Double(1.0 / TWO_TO_33) == 1.0 / TWO_TO_33
  {
    DoubleScaledBy33(1.0 / TWO_TO_33);
    RoundFixesIntegers(TWO_TO_52, 1);
  }

  /** Doubles at least 2^-33 apart are told apart. */
  lemma FarIsNotTied(d1: real, d2: real)
    requires Abs(d1 - d2) >= 1.0 / TWO_TO_33
    ensures !Tied(d1, d2)
  {
    LeastGapIsDouble();
    RoundMonotone(TWO_TO_52, 1.0 / TWO_TO_33, Abs(d1 - d2));
    RoundSign(TWO_TO_52, d1 - d2);
    EpsBounds();
  }

  // ---------- Nine decimal places ----------

  /** From 2^19 on the doubles are multiples of 2^-33. */
  lemma GridFrom2To19(x: real) returns (n: int)
    requires x >= 524_288.0
    ensures Double(x) * TWO_TO_33 == n as real
  {
    DoubleScaledBy33(x);
    n := RoundIsInteger(TWO_TO_52, x * TWO_TO_33);
  }

  lemma LargeDoublesApart(x: real, y: real)
    requires x >= 1_048_576.0 && y >= 0.0
    ensures Double(x) == Double(y) || Abs(Double(x) - Double(y)) >= 1.0 / TWO_TO_33
  {
    if y >= 524_288.0 {
      var m := GridFrom2To19(x);
      var n := GridFrom2To19(y);
      var d := Double(x) - Double(y);
      assert d * TWO_TO_33 == (m - n) as real;
    } else {
      RoundMonotone(TWO_TO_52, 1_048_576.0, x);
      RoundMonotone(TWO_TO_52, y, 524_288.0);
      RoundFixesIntegers(TWO_TO_52, 1_048_576);
      RoundFixesIntegers(TWO_TO_52, 524_288);
    }
  }

  lemma SmallDoubleNear(x: real)
    requires 0.0 <= x <= 1_048_576.0
    ensures Abs(Double(x) - x) <= 1.0 / TWO_TO_33
  {
    if x > 0.0 {
      RoundErrorPositive(TWO_TO_52, x);
    }
  }

  /** For numbers with at most nine decimal places, "tied" is "the same double". */
  lemma NinePlacesTieOnlyIfEqual(m: nat, n: nat)
    ensures var d1, d2 := Double(m as real / 1_000_000_000.0), Double(n as real / 1_000_000_000.0);
            Tied(d1, d2) <==> d1 == d2
  {
    var x, y := m as real / 1_000_000_000.0, n as real / 1_000_000_000.0;
    TiedSymmetric(Double(x), Double(y));
    if Double(x) != Double(y) {
      if x >= 1_048_576.0 {
        LargeDoublesApart(x, y);
      } else if y >= 1_048_576.0 {
        LargeDoublesApart(y, x);
      } else {
        SmallDoubleNear(x);
        SmallDoubleNear(y);
        assert m != n;
        assert Abs(x - y) >= 1.0 / 1_000_000_000.0;
      }
      FarIsNotTied(Double(x), Double(y));
    }
  }

  // ---------- Short decimals ----------

  lemma DoubleError(x: real)
    requires x >= 0.0
    ensures -x / 9_007_199_254_740_992.0 <= Double(x) - x <= x / 9_007_199_254_740_992.0
  {
    if x > 0.0 {
      RoundErrorPositive(TWO_TO_52, x);
    }
  }

  lemma ErrorOfFraction(m: nat, u: real, x: real)
    requires m <= 2_251_799_813_685_248 && u > 0.0 && x == m as real * u
    ensures 0.0 <= x && -u / 4.0 <= Double(x) - x <= u / 4.0
  {
    AtMostTimes(m as real, 2_251_799_813_685_248.0, u);
    DoubleError(x);
    QuarterUnit(x, u, Double(x));
  }

  lemma QuarterUnit(x: real, u: real, d: real)
    requires 0.0 <= x <= 2_251_799_813_685_248.0 * u
    requires -x / 9_007_199_254_740_992.0 <= d - x <= x / 9_007_199_254_740_992.0
    ensures -u / 4.0 <= d - x <= u / 4.0
  {
    var q := x / 9_007_199_254_740_992.0;
    assert q * 9_007_199_254_740_992.0 == x;
    assert -x / 9_007_199_254_740_992.0 == -q;
  }

  lemma AtMostTimes(x: real, y: real, u: real)
    requires 0.0 <= x <= y && u > 0.0
    ensures 0.0 <= x * u <= y * u
  {
    Product(y - x, u);
    Product(x, u);
    assert (y - x) * u == y * u - x * u;
  }

  lemma NextFraction(m: nat, n: nat, u: real, x: real, y: real)
    requires m < n && u > 0.0 && x == m as real * u && y == n as real * u
    ensures x + u <= y
  {
    AtMostTimes((m + 1) as real, n as real, u);
    assert (m + 1) as real * u == x + u;
  }

  lemma HalfApart(x: real, y: real, u: real, d1: real, d2: real)
    requires x + u <= y && u >= 0.000000001
    requires -u / 4.0 <= d1 - x <= u / 4.0 && -u / 4.0 <= d2 - y <= u / 4.0
    ensures d2 - d1 >= 1.0 / TWO_TO_33
  {
  }

  /** Multiples of the same power of ten, down to 1e-9, that are at most 2^51 times as large: a
      smaller number has the smaller double, and the two are told apart. */
  lemma FractionsToldApart(m: nat, n: nat, u: real, x: real, y: real)
    requires m < n <= 2_251_799_813_685_248 && u >= 0.000000001
    requires x == m as real * u && y == n as real * u
    ensures Double(x) < Double(y) && !Tied(Double(x), Double(y)) && !Tied(Double(y), Double(x))
  {
    var d1, d2 := Double(x), Double(y);
    ErrorOfFraction(m, u, x);
    ErrorOfFraction(n, u, y);
    NextFraction(m, n, u, x, y);
    HalfApart(x, y, u, d1, d2);
    FarIsNotTied(d1, d2);
    TiedSymmetric(d1, d2);
  }

  // ---------- Ten decimal places ----------

  /** The double nearest to x is m * 2^-83. */
  lemma TinyDouble(x: real, m: nat)
    requires x > 0.0 && TWO_TO_52 <= m < TWO_TO_53
    requires m as real - 0.5 < x * TWO_TO_83 < m as real + 0.5
    requires TWO_TO_52 as real <= x * TWO_TO_83 < TWO_TO_53 as real
    ensures Double(x) * TWO_TO_83 == m as real
  {
    DoubleScaledBy83(x);
    assert NearestEven(x * TWO_TO_83) == m;
  }

  lemma TinyIsDouble(x: real, m: nat)
    requires 0 < m < TWO_TO_53 && x * TWO_TO_83 == m as real
    ensures Double(x) == x
  {
    DoubleScaledBy83(x);
    RoundFixesIntegers(TWO_TO_52, m);
  }

  /** 7e-10 is tied with 6e-10 and 6e-10 with 5e-10, but 7e-10 is not with 5e-10. */
  lemma TiesChain() returns (a: real, b: real, c: real)
    ensures a == Double(7.0 / 10_000_000_000.0)
    ensures b == Double(6.0 / 10_000_000_000.0)
    ensures c == Double(5.0 / 10_000_000_000.0)
    ensures Tied(a, b) && Tied(b, c) && !Tied(a, c) && a > c
  {
    a, b, c := Double(0.0000000007), Double(0.0000000006), Double(0.0000000005);
    TinyDouble(0.0000000005, 4_835_703_278_458_517);
    TinyDouble(0.0000000006, 5_802_843_934_150_220);
    TinyDouble(0.0000000007, 6_769_984_589_841_923);
    TinyIsDouble(a - b, 967_140_655_691_703);
    TinyIsDouble(b - c, 967_140_655_691_703);
    EpsBounds();
    FarIsNotTied(a, c);
  }
}
