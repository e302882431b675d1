/** The compounding factors of finance/metric/interest.py, over exact reals.

    r is a nominal annual rate, m >= 1 the number of compounding periods per
    year and n a whole number of years. Python's `x ** k` with a whole k is
    Pow(x, k). */
module Interest {

  /** x ** k for a whole exponent k: the product of k factors x. */
  function Pow(x: real, k: nat): real {
    if k == 0 then 1.0 else Pow(x, k - 1) * x
  }

  lemma PowOne(x: real)
    ensures Pow(x, 1) == x
  {
  }

  lemma {:induction false} PowAdd(x: real, i: nat, j: nat)
    ensures Pow(x, i + j) == Pow(x, i) * Pow(x, j)
    decreases j
  {
    if j > 0 {
      PowAdd(x, i, j - 1);
      assert Pow(x, i + j) == Pow(x, i + (j - 1)) * x;
    }
  }

  lemma {:induction false} PowMul(x: real, i: nat, j: nat)
    ensures Pow(Pow(x, i), j) == Pow(x, i * j)
    decreases j
  {
    if j > 0 {
      PowMul(x, i, j - 1);
      assert i * j == i * (j - 1) + i;
      PowAdd(x, i * (j - 1), i);
    }
  }

  /** A power of a nonzero number is nonzero (and x ** 0 is 1 for any x). */
  lemma {:induction false} PowNonZero(x: real, k: nat)
    requires x != 0.0 || k == 0
    ensures Pow(x, k) != 0.0
    decreases k
  {
    if k > 0 {
      PowNonZero(x, k - 1);
    }
  }

  lemma PowZero(k: nat)
    requires k >= 1
    ensures Pow(0.0, k) == 0.0
  {
  }

  lemma {:induction false} PowOfOne(k: nat)
    ensures Pow(1.0, k) == 1.0
    decreases k
  {
    if k > 0 {
      PowOfOne(k - 1);
    }
  }

  lemma {:induction false} PowNonNegative(x: real, k: nat)
    requires x >= 0.0
    ensures Pow(x, k) >= 0.0
    decreases k
  {
    if k > 0 {
      PowNonNegative(x, k - 1);
    }
  }

  lemma {:induction false} PowPositive(x: real, k: nat)
    requires x > 0.0
    ensures Pow(x, k) > 0.0
    decreases k
  {
    if k > 0 {
      PowPositive(x, k - 1);
    }
  }

  lemma MulNonNegative(a: real, b: real)
    requires a >= 0.0 && b >= 0.0
    ensures a * b >= 0.0
  {
  }

  /** Bernoulli's inequality: (1 + x) ** k >= 1 + k x when x >= -1. */
  lemma {:induction false} Bernoulli(x: real, k: nat)
    requires x >= -1.0
    ensures Pow(1.0 + x, k) >= 1.0 + (k as real) * x
    decreases k
  {
    if k > 0 {
      var p := Pow(1.0 + x, k - 1);
      var q := 1.0 + ((k - 1) as real) * x;
      Bernoulli(x, k - 1);
      assert Pow(1.0 + x, k) == p * (1.0 + x);
      assert p * (1.0 + x) >= q * (1.0 + x) by {
        MulNonNegative(p - q, 1.0 + x);
      }
      assert q * (1.0 + x) == 1.0 + (k as real) * x + ((k - 1) as real) * (x * x);
      assert ((k - 1) as real) * (x * x) >= 0.0;
    }
  }

  /** A larger nonnegative base gives a larger power. */
  lemma {:induction false} PowMonotone(x: real, y: real, k: nat)
    requires 0.0 <= x <= y
    ensures Pow(x, k) <= Pow(y, k)
    decreases k
  {
    if k > 0 {
      PowMonotone(x, y, k - 1);
      PowNonNegative(x, k - 1);
      var px, py := Pow(x, k - 1), Pow(y, k - 1);
      assert px * x <= px * y;
      assert px * y <= py * y;
    }
  }

  /** accrue_one_per: the growth factor of one compounding period, 1 + r/m.
      It is at least 1 for a nonnegative rate and nonnegative as long as the
      rate does not exceed -m. */
  function AccrueOnePer(r: real, m: nat): (a: real)
    requires m >= 1
    ensures r >= 0.0 ==> a >= 1.0
    ensures r >= -(m as real) ==> a >= 0.0
  {
    1.0 + r / (m as real)
  }

  /** The rate of one period, accrue_one_per - 1, taken m times is the annual
      rate. */
  lemma PeriodRate(r: real, m: nat)
    requires m >= 1
    ensures (AccrueOnePer(r, m) - 1.0) * (m as real) == r
  {
  }

  /** accrue_one_year: one year of growth, (1 + r/m) ** m. It is at least
      the simple-interest factor 1 + r whenever the per-period factor is
      nonnegative, and exactly 1 + r when interest is compounded once. */
  function AccrueOneYear(r: real, m: nat): (a: real)
    requires m >= 1
    ensures r >= -(m as real) ==> a >= 1.0 + r
    ensures m == 1 ==> a == 1.0 + r
    ensures a == 0.0 <==> AccrueOnePer(r, m) == 0.0
  {
    var per := AccrueOnePer(r, m);
    assert Pow(per, m) == 0.0 <==> per == 0.0 by {
      if per == 0.0 {
        PowZero(m);
      } else {
        PowNonZero(per, m);
      }
    }
    assert r >= -(m as real) ==> Pow(per, m) >= 1.0 + r by {
      if r >= -(m as real) {
        Bernoulli(r / (m as real), m);
      }
    }
    assert m == 1 ==> Pow(per, m) == per by {
      PowOne(per);
    }
    Pow(per, m)
  }

  /** effective: the annual rate that, compounded once a year, grows money as
      fast as r compounded m times a year. */
  function Effective(r: real, m: nat): (e: real)
    requires m >= 1
    ensures e == AccrueOneYear(r, m) - 1.0
    ensures r >= -(m as real) ==> e >= r
    ensures m == 1 ==> e == r
  {
    Pow(1.0 + r / (m as real), m) - 1.0
  }

  /** accrue: n years of growth, accrue_one_year(r, m) ** n, which is n * m
      compounding periods; with r >= 0 it is at least 1 + n r. */
  function Accrue(r: real, n: nat, m: nat): (g: real)
    requires m >= 1
    ensures g == Pow(AccrueOnePer(r, m), m * n)
    ensures r >= 0.0 ==> g >= 1.0 + (n as real) * r
  {
    var year := AccrueOneYear(r, m);
    assert Pow(year, n) == Pow(AccrueOnePer(r, m), m * n) by {
      PowMul(AccrueOnePer(r, m), m, n);
    }
    assert r >= 0.0 ==> Pow(year, n) >= 1.0 + (n as real) * r by {
      if r >= 0.0 {
        assert year - 1.0 >= r;
        Bernoulli(year - 1.0, n);
        assert 1.0 + (year - 1.0) == year;
        MulNonNegative(n as real, year - 1.0 - r);
      }
    }
    Pow(year, n)
  }

  /** accrue is a homomorphism from years under + to factors under *. */
  lemma AccrueAdditive(r: real, a: nat, b: nat, m: nat)
    requires m >= 1
    ensures Accrue(r, 0, m) == 1.0
    ensures Accrue(r, a + b, m) == Accrue(r, a, m) * Accrue(r, b, m)
  {
    PowAdd(AccrueOneYear(r, m), a, b);
  }

  /** Growing at the effective rate once a year for n years is the same as
      growing at r compounded m times a year. */
  lemma EffectiveRateEquivalent(r: real, n: nat, m: nat)
    requires m >= 1
    ensures AccrueOneYear(Effective(r, m), 1) == AccrueOneYear(r, m)
    ensures Accrue(Effective(r, m), n, 1) == Accrue(r, n, m)
  {
    PowOne(AccrueOneYear(r, m));
  }

  /** With a nonnegative per-period factor, a higher rate never accrues less. */
  lemma AccrueMonotone(r1: real, r2: real, n: nat, m: nat)
    requires m >= 1 && -(m as real) <= r1 <= r2
    ensures Accrue(r1, n, m) <= Accrue(r2, n, m)
  {
    assert r1 / (m as real) <= r2 / (m as real);
    PowMonotone(AccrueOnePer(r1, m), AccrueOnePer(r2, m), m * n);
  }
}
