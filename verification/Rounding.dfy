/** Rounding to the nearest binary floating-point number with a given significand width, ties to
    even (section 4.3.1 of IEEE 754-2008). The numbers with p significant bits are given by their
    unit 2^(p-1): from the unit to twice the unit they are the integers, and everywhere else they
    are these, scaled by a power of two. The exponent is unbounded. */
module Rounding {

  function Pow2(n: nat): (p: nat)
    ensures p >= 1
  {
    if n == 0 then 1 else 2 * Pow2(n - 1)
  }

  lemma {:induction false} Pow2Add(m: nat, n: nat)
    ensures Pow2(m + n) == Pow2(m) * Pow2(n)
  {
    if m > 0 {
      Pow2Add(m - 1, n);
      assert 2 * (Pow2(m - 1) * Pow2(n)) == (2 * Pow2(m - 1)) * Pow2(n);
    }
  }

  lemma Pow2Known(m: nat, n: nat, a: nat, b: nat)
    requires Pow2(m) == a && Pow2(n) == b
    ensures Pow2(m + n) == a * b
  {
    Pow2Add(m, n);
  }

  // ---------- Real arithmetic ----------

  lemma Product(a: real, b: real)
    requires a >= 0.0 && b > 0.0
    ensures a * b >= 0.0 && (a > 0.0 ==> a * b > 0.0)
  {
  }

  lemma Cancel(a: real, b: real, u: real)
    requires u > 0.0
    ensures a * u <= b * u ==> a <= b
    ensures a * u < b * u ==> a < b
  {
    if a > b {
      Product(a - b, u);
    }
  }

  lemma Quotient(x: real, u: real) returns (q: real)
    requires u != 0.0
    ensures q == x / u && q * u == x
  {
    q := x / u;
  }

  lemma QuotientIs(x: real, u: real, q: real)
    requires u > 0.0 && q * u == x
    ensures x / u == q
  {
    var r := Quotient(x, u);
    Cancel(r, q, u);
    Cancel(q, r, u);
  }

  // ---------- Rounding ----------

  function NearestEven(y: real): (n: int)
    ensures y - 0.5 <= n as real <= y + 0.5
  {
    var f := y.Floor;
    var d := y - f as real;
    if d < 0.5 || (d == 0.5 && f % 2 == 0) then f else f + 1
  }

  lemma NearestEvenMonotone(x: real, y: real)
    requires x <= y
    ensures NearestEven(x) <= NearestEven(y)
  {
  }

  lemma DoublingDecreases(unit: real, x: real)
    requires 0.0 < x < unit
    ensures (unit / x).Floor >= 1
    ensures 2.0 * x < unit ==> (unit / (2.0 * x)).Floor < (unit / x).Floor
  {
    var y := Quotient(unit, x);
    Cancel(1.0, y, x);
    QuotientIs(unit, 2.0 * x, y / 2.0);
    Cancel(2.0, y, x);
  }

  function Measure(unit: nat, x: real): int
    requires x > 0.0
  {
    if x >= 2.0 * unit as real then x.Floor else if x < unit as real then (unit as real / x).Floor else 0
  }

  lemma MeasureDecreases(unit: nat, x: real)
    requires unit >= 1 && x > 0.0
    ensures Measure(unit, x) >= 0
    ensures x >= 2.0 * unit as real ==> Measure(unit, x / 2.0) < Measure(unit, x)
    ensures x < unit as real ==> Measure(unit, 2.0 * x) < Measure(unit, x)
  {
    if x < unit as real {
      DoublingDecreases(unit as real, x);
    }
  }

  function RoundPositive(unit: nat, x: real): real
    requires unit >= 1 && x > 0.0
    decreases Measure(unit, x)
  {
    MeasureDecreases(unit, x);
    if x >= 2.0 * unit as real then 2.0 * RoundPositive(unit, x / 2.0)
    else if x < unit as real then RoundPositive(unit, 2.0 * x) / 2.0
    else NearestEven(x) as real
  }

  function Round(unit: nat, x: real): real
    requires unit >= 1
  {
    if x == 0.0 then 0.0 else if x < 0.0 then -RoundPositive(unit, -x) else RoundPositive(unit, x)
  }

  // ---------- Scaling ----------

  lemma RoundTwice(unit: nat, x: real)
    requires unit >= 1 && x > 0.0
    ensures RoundPositive(unit, 2.0 * x) == 2.0 * RoundPositive(unit, x)
  {
  }

  /** x times 2^k. */
  function Doubled(x: real, k: nat): (y: real)
    ensures x > 0.0 ==> y > 0.0
  {
    if k == 0 then x else 2.0 * Doubled(x, k - 1)
  }

  lemma {:induction false} DoubledIs(x: real, k: nat)
    ensures Doubled(x, k) == x * Pow2(k) as real
  {
    if k > 0 {
      DoubledIs(x, k - 1);
      DoubleProduct(x, Pow2(k - 1));
    }
  }

  lemma DoubleProduct(x: real, p: nat)
    ensures x * (2 * p) as real == 2.0 * (x * p as real)
  {
    assert (2 * p) as real == 2.0 * p as real;
  }

  lemma {:induction false} RoundDoubled(unit: nat, x: real, k: nat)
    requires unit >= 1 && x > 0.0
    ensures RoundPositive(unit, Doubled(x, k)) == Doubled(RoundPositive(unit, x), k)
  {
    if k > 0 {
      RoundDoubled(unit, x, k - 1);
      RoundTwice(unit, Doubled(x, k - 1));
    }
  }

  /** From the unit on only integers are left. */
  lemma {:induction false} RoundIsInteger(unit: nat, x: real) returns (n: int)
    requires unit >= 1 && x >= unit as real
    ensures RoundPositive(unit, x) == n as real
    decreases x.Floor
  {
    if x >= 2.0 * unit as real {
      var m := RoundIsInteger(unit, x / 2.0);
      n := 2 * m;
    } else {
      n := NearestEven(x);
    }
  }

  // ---------- Error, monotonicity, fixed points ----------

  lemma NearestEvenError(unit: nat, x: real)
    requires unit >= 1 && unit as real <= x < 2.0 * unit as real
    ensures unit <= NearestEven(x) <= 2 * unit
    ensures var e := NearestEven(x) as real - x;
            -x < e * (2.0 * unit as real) < x
  {
    var u := unit as real;
    var e := NearestEven(x) as real - x;
    if x == u {
      assert x.Floor == unit;
    } else {
      Product(0.5 - e, 2.0 * u);
      Product(0.5 + e, 2.0 * u);
    }
  }

  lemma {:induction false} RoundRange(unit: nat, x: real)
    requires unit >= 1 && x > 0.0
    ensures RoundPositive(unit, x) > 0.0
    ensures x >= unit as real ==> RoundPositive(unit, x) >= unit as real
    ensures x <= 2.0 * unit as real ==> RoundPositive(unit, x) <= 2.0 * unit as real
    decreases Measure(unit, x)
  {
    MeasureDecreases(unit, x);
    if x >= 2.0 * unit as real {
      RoundRange(unit, x / 2.0);
    } else if x < unit as real {
      RoundRange(unit, 2.0 * x);
    } else {
      NearestEvenError(unit, x);
    }
  }

  /** r is off x by less than one part in w. */
  predicate CloseTo(x: real, r: real, w: real) {
    -x < (r - x) * w < x
  }

  lemma CloseDoubles(x: real, r: real, w: real)
    ensures CloseTo(2.0 * x, 2.0 * r, w) <==> CloseTo(x, r, w)
  {
    assert (2.0 * r - 2.0 * x) * w == 2.0 * ((r - x) * w);
  }

  lemma {:induction false} RoundErrorPositive(unit: nat, x: real)
    requires unit >= 1 && x > 0.0
    ensures CloseTo(x, RoundPositive(unit, x), 2.0 * unit as real)
    decreases Measure(unit, x)
  {
    MeasureDecreases(unit, x);
    if x >= 2.0 * unit as real {
      RoundErrorPositive(unit, x / 2.0);
      CloseDoubles(x / 2.0, RoundPositive(unit, x / 2.0), 2.0 * unit as real);
    } else if x < unit as real {
      RoundErrorPositive(unit, 2.0 * x);
      CloseDoubles(x, RoundPositive(unit, x), 2.0 * unit as real);
    } else {
      NearestEvenError(unit, x);
    }
  }

  lemma {:induction false} RoundMonotonePositive(unit: nat, x: real, y: real)
    requires unit >= 1 && 0.0 < x <= y
    ensures RoundPositive(unit, x) <= RoundPositive(unit, y)
    decreases if y >= unit as real then Measure(unit, y) else Measure(unit, x)
  {
    MeasureDecreases(unit, x);
    MeasureDecreases(unit, y);
    var u := unit as real;
    if y >= 2.0 * u {
      if x >= 2.0 * u {
        RoundMonotonePositive(unit, x / 2.0, y / 2.0);
      } else {
        RoundRange(unit, x);
        RoundRange(unit, y / 2.0);
      }
    } else if y < u {
      RoundMonotonePositive(unit, 2.0 * x, 2.0 * y);
    } else if x < u {
      RoundRange(unit, 2.0 * x);
      RoundRange(unit, y);
    } else {
      NearestEvenMonotone(x, y);
    }
  }

  lemma RoundSign(unit: nat, x: real)
    requires unit >= 1
    ensures x >= 0.0 ==> Round(unit, x) >= 0.0
    ensures x <= 0.0 ==> Round(unit, x) <= 0.0
    ensures Round(unit, -x) == -Round(unit, x)
    ensures x != 0.0 ==> Round(unit, x) != 0.0
  {
    if x != 0.0 {
      var y := if x < 0.0 then -x else x;
      RoundRange(unit, y);
    }
  }

  lemma RoundMonotone(unit: nat, x: real, y: real)
    requires unit >= 1 && x <= y
    ensures Round(unit, x) <= Round(unit, y)
  {
    if 0.0 < x {
      RoundMonotonePositive(unit, x, y);
    } else if y < 0.0 {
      RoundMonotonePositive(unit, -y, -x);
    } else {
      RoundSign(unit, x);
      RoundSign(unit, y);
    }
  }

  lemma {:induction false} PositiveIntegerFixed(unit: nat, a: nat)
    requires unit >= 1 && 0 < a <= 2 * unit
    ensures RoundPositive(unit, a as real) == a as real
    decreases 2 * unit - a
  {
    if a < unit {
      PositiveIntegerFixed(unit, 2 * a);
      assert (2 * a) as real == 2.0 * a as real;
    } else if a == 2 * unit {
      assert a as real / 2.0 == unit as real;
      assert NearestEven(unit as real) == unit;
    } else {
      assert NearestEven(a as real) == a;
    }
  }

  /** Integers up to twice the unit are fixed. */
  lemma RoundFixesIntegers(unit: nat, n: int)
    requires unit >= 1 && -2 * unit <= n <= 2 * unit
    ensures Round(unit, n as real) == n as real
  {
    if n != 0 {
      PositiveIntegerFixed(unit, if n < 0 then -n else n);
      assert (-n) as real == -(n as real);
    }
  }
}
