/** Single-precision arithmetic as Response::query uses it, over an exponent range that the values
    at hand, between 2^-31 and 2^31 in magnitude, never leave. */
module SinglePrecision {
  import opened Rounding

  const TWO_TO_23 := 8_388_608
  const TWO_TO_24 := 16_777_216

  /** The nearest single-precision number. */
  function Float(x: real): real {
    Round(TWO_TO_23, x)
  }

  /** Rounding moves a number by less than 2^-24 of its magnitude. */
  lemma FloatError(x: real)
    ensures x > 0.0 ==> x - x / 16_777_216.0 < Float(x) < x + x / 16_777_216.0
    ensures x < 0.0 ==> x + x / 16_777_216.0 < Float(x) < x - x / 16_777_216.0
    ensures x == 0.0 ==> Float(x) == 0.0
  {
    if x > 0.0 {
      RoundErrorPositive(TWO_TO_23, x);
    } else if x < 0.0 {
      RoundErrorPositive(TWO_TO_23, -x);
    }
  }

  lemma FloatMonotone(x: real, y: real)
    requires x <= y
    ensures Float(x) <= Float(y)
  {
    RoundMonotone(TWO_TO_23, x, y);
  }

  /** Integers up to 2^24 are single-precision numbers. */
  lemma FloatFixesIntegers(n: int)
    requires -TWO_TO_24 <= n <= TWO_TO_24
    ensures Float(n as real) == n as real
  {
    RoundFixesIntegers(TWO_TO_23, n);
  }

  lemma IntProduct(a: int, b: int)
    ensures (a * b) as real == a as real * b as real
  {
  }

  // ---------- (int)ceil((float)n / g) ----------

  function Ceiling(x: real): int {
    -((-x).Floor)
  }

  /** (int)ceil((float)n / g) with every operation in single precision. */
  function CeilQuotient(n: int, g: int): int
    requires g != 0
  {
    FloatNonZero(g);
    Ceiling(Float(Float(n as real) / Float(g as real)))
  }

  lemma FloatNonZero(g: int)
    requires g != 0
    ensures Float(g as real) != 0.0
  {
    FloatError(g as real);
  }

  /** The exact integer ceiling of n / g. */
  function CeilDiv(n: int, g: int): int
    requires g >= 1
  {
    -((-n) / g)
  }

  lemma CeilDivBounds(n: int, g: int)
    requires g >= 1
    ensures (CeilDiv(n, g) - 1) * g < n <= CeilDiv(n, g) * g
  {
    var m := (-n) / g;
    assert m * g <= -n < m * g + g;
  }

  lemma IntScale(a: int, b: int, g: int)
    requires g >= 0 && a <= b
    ensures a * g <= b * g
  {
    assert (b - a) * g >= 0;
  }

  lemma CeilDivUnique(n: int, g: int, c: int)
    requires g >= 1
    requires (c - 1) * g < n <= c * g
    ensures CeilDiv(n, g) == c
  {
    var d := CeilDiv(n, g);
    CeilDivBounds(n, g);
    if d > c {
      IntScale(c, d - 1, g);
    } else if d < c {
      IntScale(d, c - 1, g);
    }
  }

  lemma CeilingUnique(x: real, c: int)
    requires c as real - 1.0 < x <= c as real
    ensures Ceiling(x) == c
  {
  }

  /** For counts up to 2^24 the float detour is harmless: it yields the exact ceiling. */
  lemma CeilQuotientIsExact(n: int, g: int)
    requires -TWO_TO_24 < n <= TWO_TO_24 && g >= 1
    ensures CeilQuotient(n, g) == CeilDiv(n, g)
  {
    FloatFixesIntegers(n);
    FloatNonZero(g);
    if g <= TWO_TO_24 {
      FloatFixesIntegers(g);
      SmallDivisor(n, g);
    } else {
      FloatFixesIntegers(TWO_TO_24);
      FloatMonotone(16_777_216.0, g as real);
      LargeDivisor(n, g, Float(g as real));
    }
  }

  lemma Gap(a: real, b: real, u: real, au: real, bu: real)
    requires u > 0.0 && a * u == au && b * u == bu
    ensures au <= bu ==> a <= b
    ensures au < bu ==> a < b
  {
    Cancel(a, b, u);
  }

  /** n / g lies in (c - 1, c], and far enough above c - 1 to survive an error of less than 2^-24. */
  lemma QuotientBounds(n: int, g: int, c: int, x: real)
    requires g >= 1 && (c - 1) * g < n <= c * g && x * g as real == n as real
    ensures x <= c as real
    ensures -TWO_TO_24 < n <= TWO_TO_24 ==> x - x / 16_777_216.0 >= c as real - 1.0
    ensures -TWO_TO_24 < n <= TWO_TO_24 ==> x + x / 16_777_216.0 >= c as real - 1.0
  {
    var nr, gr := n as real, g as real;
    IntProduct(c, g);
    IntProduct(c - 1, g);
    Gap(x, c as real, gr, nr, (c * g) as real);
    var error := nr / 16_777_216.0;
    Perturb(x, gr, nr);
    Gap((c - 1) as real, x - x / 16_777_216.0, gr, ((c - 1) * g) as real, nr - error);
    Gap((c - 1) as real, x + x / 16_777_216.0, gr, ((c - 1) * g) as real, nr + error);
  }

  lemma Perturb(x: real, u: real, xu: real)
    requires x * u == xu
    ensures (x - x / 16_777_216.0) * u == xu - xu / 16_777_216.0
    ensures (x + x / 16_777_216.0) * u == xu + xu / 16_777_216.0
  {
    var y := x / 16_777_216.0;
    assert 16_777_216.0 * y == x;
    assert 16_777_216.0 * (y * u) == x * u;
    assert (x - y) * u == x * u - y * u && (x + y) * u == x * u + y * u;
  }

  lemma SmallDivisor(n: int, g: int)
    requires -TWO_TO_24 < n <= TWO_TO_24 && 1 <= g <= TWO_TO_24
    ensures Ceiling(Float(n as real / g as real)) == CeilDiv(n, g)
  {
    var c := CeilDiv(n, g);
    CeilDivBounds(n, g);
    var x := Quotient(n as real, g as real);
    QuotientBounds(n, g, c, x);
    CeilDivRange(n, g);
    FloatFixesIntegers(c);
    FloatMonotone(x, c as real);
    FloatError(x);
    CeilingUnique(Float(x), c);
  }

  lemma CeilDivRange(n: int, g: int)
    requires -TWO_TO_24 < n <= TWO_TO_24 && g >= 1
    ensures -TWO_TO_24 <= CeilDiv(n, g) <= TWO_TO_24
  {
    CeilDivBounds(n, g);
    var c := CeilDiv(n, g);
    if c > TWO_TO_24 {
      IntScale(TWO_TO_24, c - 1, g);
    }
    if c < -TWO_TO_24 {
      IntScale(c, -TWO_TO_24, g);
    }
  }

  lemma LargeDivisor(n: int, g: int, d: real)
    requires -TWO_TO_24 < n <= TWO_TO_24 && g > TWO_TO_24 && d >= 16_777_216.0
    ensures Ceiling(Float(n as real / d)) == CeilDiv(n, g)
  {
    var c := if n > 0 then 1 else 0;
    CeilDivUnique(n, g, c);
    var x := Quotient(n as real, d);
    FractionBounds(n, d, x);
    FloatError(x);
    FloatFixesIntegers(1);
    FloatMonotone(x, 1.0);
    CeilingUnique(Float(x), c);
  }

  lemma FractionBounds(n: int, d: real, x: real)
    requires -TWO_TO_24 < n <= TWO_TO_24 && d >= 16_777_216.0 && x * d == n as real
    ensures -1.0 + 1.0 / 16_777_216.0 <= x <= 1.0
    ensures n > 0 ==> x > 0.0
    ensures n <= 0 ==> x <= 0.0
  {
    var bound := 1.0 - 1.0 / 16_777_216.0;
    assert bound * d == d - d / 16_777_216.0;
    Cancel(x, 1.0, d);
    Cancel(-bound, x, d);
    Cancel(0.0, x, d);
    Cancel(x, 0.0, d);
  }

  /** One count further the code is off by one: 2^24 + 1 is not a single-precision number. */
  lemma CeilQuotientFailsBeyond()
    ensures CeilQuotient(TWO_TO_24 + 1, 1) == TWO_TO_24
    ensures CeilDiv(TWO_TO_24 + 1, 1) == TWO_TO_24 + 1
  {
    var x := (TWO_TO_24 + 1) as real;
    assert x / 2.0 == 8_388_608.5;
    assert NearestEven(8_388_608.5) == 8_388_608;
    assert RoundPositive(TWO_TO_23, 8_388_608.5) == 8_388_608.0;
    assert RoundPositive(TWO_TO_23, x) == 2.0 * RoundPositive(TWO_TO_23, x / 2.0);
    FloatFixesIntegers(1);
    FloatFixesIntegers(TWO_TO_24);
  }

  /** The code's quotient is the exact ceiling for all counts up to this one. */
  ghost predicate ExactUpTo(count: nat) {
    forall n: nat, g: nat :: n <= count && g >= 1 ==> CeilQuotient(n, g) == CeilDiv(n, g)
  }

  lemma ExactUpToTwoTo24(count: nat)
    ensures ExactUpTo(count) <==> count <= TWO_TO_24
  {
    if count <= TWO_TO_24 {
      forall n: nat, g: nat | n <= count && g >= 1 ensures CeilQuotient(n, g) == CeilDiv(n, g) {
        CeilQuotientIsExact(n, g);
      }
    } else {
      CeilQuotientFailsBeyond();
    }
  }
}
