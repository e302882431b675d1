/** The deterministic cash-flow metrics of finance/metric/detflow.py, over
    exact reals: present value, Macaulay duration and convexity of a cash
    flow c (c[i] paid at period i), their portfolio aggregates, and the cash
    flow of a bond. */
module Detflow {
  import opened Interest

  datatype Option<T> = None | Some(value: T)

  // ---------------------------------------------------------------------------
  // Specification functions

  /** sum over i of w[i] / a^i: the flow w discounted by the factor a per
      index. Index 0 is never discounted, so a may be 0 for a flow of length
      at most 1. */
  function Discounted(w: seq<real>, a: real): (d: real)
    requires |w| <= 1 || a != 0.0
    ensures a == 1.0 ==> d == Sum(w)
    decreases |w|
  {
    if |w| == 0 then 0.0
    else
      PowNonZero(a, |w| - 1);
      PowOfOne(|w| - 1);
      Discounted(w[..|w| - 1], a) + w[|w| - 1] / Pow(a, |w| - 1)
  }

  /** A single payment, at index 0, is not discounted. */
  lemma DiscountedOfOne(w: seq<real>, a: real)
    requires |w| <= 1 || a != 0.0
    ensures |w| == 1 ==> Discounted(w, a) == w[0]
  {
  }

  /** Discounting one more element of w adds that element over a^k. */
  lemma DiscountedSnoc(w: seq<real>, a: real, k: nat)
    requires k < |w| && (k == 0 || a != 0.0)
    ensures Pow(a, k) != 0.0
    ensures Discounted(w[..k + 1], a) == Discounted(w[..k], a) + w[k] / Pow(a, k)
  {
    PowNonZero(a, k);
    assert w[..k + 1][..k] == w[..k];
  }

  /** pres_val: every payment discounted by accrue_one_year once per index. */
  function PresValue(c: seq<real>, r: real, m: nat): (pv: real)
    requires m >= 1 && (|c| <= 1 || AccrueOneYear(r, m) != 0.0)
    ensures |c| == 1 ==> pv == c[0]
  {
    DiscountedOfOne(c, AccrueOneYear(r, m));
    Discounted(c, AccrueOneYear(r, m))
  }

  /** The time-weighted flow of duration: payment i weighted by i/m years.
      Index 0 gets weight 0, which is why the source's loop starts at 1. */
  function DurationWeights(c: seq<real>, m: nat): (w: seq<real>)
    requires m >= 1
    ensures |w| == |c|
  {
    seq(|c|, i requires 0 <= i < |c| => (i as real / m as real) * c[i])
  }

  /** The factor i (i + 1) that convexity gives period i. */
  function TimeFactor(i: nat): nat {
    i * (i + 1)
  }

  /** The weights of convexity: payment i weighted by i (i + 1) / m^2. */
  function ConvexityWeights(c: seq<real>, m: nat): (w: seq<real>)
    requires m >= 1
    ensures |w| == |c|
  {
    seq(|c|, i requires 0 <= i < |c| => (TimeFactor(i) as real * c[i]) / ((m * m) as real))
  }

  /** What duration computes: the time-weighted flow discounted once per
      index by accrue_one_per, over the present value. */
  function DurationValue(c: seq<real>, r: real, m: nat): (d: real)
    requires m >= 1 && (|c| <= 1 || AccrueOnePer(r, m) != 0.0)
    requires PresValue(c, r, m) != 0.0
    ensures |c| == 1 ==> d == 0.0
  {
    DiscountedOfOne(DurationWeights(c, m), AccrueOnePer(r, m));
    Discounted(DurationWeights(c, m), AccrueOnePer(r, m)) / PresValue(c, r, m)
  }

  /** What convexity computes: the convexity-weighted flow discounted by
      accrue_one_per, over the present value times accrue_one_per ** 2. */
  function ConvexityValue(c: seq<real>, r: real, m: nat): (cv: real)
    requires m >= 1 && AccrueOnePer(r, m) != 0.0
    requires PresValue(c, r, m) != 0.0
    ensures |c| == 1 ==> cv == 0.0
  {
    DiscountedOfOne(ConvexityWeights(c, m), AccrueOnePer(r, m));
    PowNonZero(AccrueOnePer(r, m), 2);
    OverProduct(Discounted(ConvexityWeights(c, m), AccrueOnePer(r, m)), PresValue(c, r, m), Pow(AccrueOnePer(r, m), 2))
  }

  /** k / (p q), the shape of the final division of convexity. */
  function OverProduct(k: real, p: real, q: real): real
    requires p != 0.0 && q != 0.0
  {
    MulNonZero(p, q);
    k / (p * q)
  }

  // ---------------------------------------------------------------------------
  // The loops of the source

  /** pres_val: pv accumulates c[k] / discount while discount runs through
      the powers of accrue_one_year. */
  method PresVal(c: seq<real>, r: real, m: nat) returns (pv: real)
    requires m >= 1 && (|c| <= 1 || AccrueOneYear(r, m) != 0.0)
    ensures pv == PresValue(c, r, m)
  {
    pv := 0.0;
    var discount := 1.0;
    for k := 0 to |c|
      invariant discount == Pow(AccrueOneYear(r, m), k)
      invariant pv == Discounted(c[..k], AccrueOneYear(r, m))
    {
      DiscountedSnoc(c, AccrueOneYear(r, m), k);
      pv := pv + c[k] / discount;
      discount := discount * AccrueOneYear(r, m);
    }
    assert c[..|c|] == c;
  }

  function Min(a: int, b: int): int {
    if a <= b then a else b
  }

  /** duration: D accumulates (i/m) c[i] / discount for i from 1, with discount
      running through the powers of accrue_one_per, and is finally divided by
      the present value. */
  method Duration(c: seq<real>, r: real, m: nat) returns (d: real)
    requires m >= 1 && (|c| <= 1 || AccrueOnePer(r, m) != 0.0)
    requires PresValue(c, r, m) != 0.0
    ensures d == DurationValue(c, r, m)
  {
    assert |c| <= 1 || AccrueOneYear(r, m) != 0.0;
    var p := PresVal(c, r, m);
    var sum := DurationLoop(c, AccrueOnePer(r, m), m);
    d := sum / p;
  }

  /** The loop of duration, with the per-period factor `per` computed once. */
  method DurationLoop(c: seq<real>, per: real, m: nat) returns (sum: real)
    requires m >= 1 && (|c| <= 1 || per != 0.0)
    ensures sum == Discounted(DurationWeights(c, m), per)
  {
    ghost var w := DurationWeights(c, m);
    sum := 0.0;
    var discount := per;
    var i := 1;
    assert |c| >= 1 ==> w[..1] == [w[0]] && w[0] == 0.0;
    while i < |c|
      invariant 1 <= i && (i == 1 || i <= |c|)
      invariant discount == Pow(per, i)
      invariant sum == Discounted(w[..Min(i, |c|)], per)
    {
      DurationStep(c, m, per, i, discount, sum);
      sum := sum + (i as real / m as real) * c[i] / discount;
      discount := discount * per;
      i := i + 1;
    }
    assert w[..Min(i, |c|)] == w;
  }

  /** One iteration of the duration loop extends the discounted prefix of
      the duration weights by one element. */
  lemma DurationStep(c: seq<real>, m: nat, per: real, i: nat, discount: real, sum: real)
    requires m >= 1 && per != 0.0 && i < |c|
    requires discount == Pow(per, i) && sum == Discounted(DurationWeights(c, m)[..i], per)
    ensures discount != 0.0 && Pow(per, i + 1) == discount * per
    ensures sum + (i as real / m as real) * c[i] / discount == Discounted(DurationWeights(c, m)[..i + 1], per)
  {
    DiscountedSnoc(DurationWeights(c, m), per, i);
    DurationTerm(c, m, i, discount);
  }

  /** The term the duration loop adds is the duration weight discounted. */
  lemma DurationTerm(c: seq<real>, m: nat, i: nat, discount: real)
    requires m >= 1 && i < |c| && discount != 0.0
    ensures (i as real / m as real) * c[i] / discount == DurationWeights(c, m)[i] / discount
  {
    var t := (i as real / m as real) * c[i];
    assert DurationWeights(c, m)[i] == t;
  }

  lemma DivProduct(x: real, a: real, b: real, y: real)
    requires a != 0.0 && b != 0.0 && y == x / a
    ensures x / (a * b) == y / b
  {
  }

  /** convexity: C accumulates i (i + 1) c[i] / (m^2 discount) for i from 1,
      and is finally divided by the present value times accrue_one_per ** 2. */
  method Convexity(c: seq<real>, r: real, m: nat) returns (cv: real)
    requires m >= 1 && AccrueOnePer(r, m) != 0.0
    requires PresValue(c, r, m) != 0.0
    ensures cv == ConvexityValue(c, r, m)
  {
    assert |c| <= 1 || AccrueOneYear(r, m) != 0.0;
    var p := PresVal(c, r, m);
    var per := AccrueOnePer(r, m);
    var sum := ConvexityLoop(c, per, m);
    PowNonZero(per, 2);
    cv := OverProduct(sum, p, Pow(per, 2));
  }

  /** The loop of convexity, with the per-period factor `per` computed once. */
  method ConvexityLoop(c: seq<real>, per: real, m: nat) returns (sum: real)
    requires m >= 1 && per != 0.0
    ensures sum == Discounted(ConvexityWeights(c, m), per)
  {
    ghost var w := ConvexityWeights(c, m);
    sum := 0.0;
    var discount := per;
    var i := 1;
    assert |c| >= 1 ==> w[..1] == [w[0]] && w[0] == 0.0;
    while i < |c|
      invariant 1 <= i && (i == 1 || i <= |c|)
      invariant discount == Pow(per, i)
      invariant sum == Discounted(w[..Min(i, |c|)], per)
    {
      ConvexityStep(c, m, per, i, discount, sum);
      sum := sum + TimeFactor(i) as real * c[i] / ((m * m) as real * discount);
      discount := discount * per;
      i := i + 1;
    }
    assert w[..Min(i, |c|)] == w;
  }

  /** One iteration of the convexity loop extends the discounted prefix of
      the convexity weights by one element. */
  lemma ConvexityStep(c: seq<real>, m: nat, per: real, i: nat, discount: real, sum: real)
    requires m >= 1 && per != 0.0 && i < |c|
    requires discount == Pow(per, i) && sum == Discounted(ConvexityWeights(c, m)[..i], per)
    ensures (m * m) as real * discount != 0.0 && Pow(per, i + 1) == discount * per
    ensures sum + TimeFactor(i) as real * c[i] / ((m * m) as real * discount)
         == Discounted(ConvexityWeights(c, m)[..i + 1], per)
  {
    DiscountedSnoc(ConvexityWeights(c, m), per, i);
    ConvexityTerm(c, m, i, discount);
    assert m * m >= 1 by {
      assert m * m >= 1 * m;
    }
    MulNonZero((m * m) as real, discount);
  }

  /** The term the convexity loop adds is the convexity weight discounted. */
  lemma ConvexityTerm(c: seq<real>, m: nat, i: nat, discount: real)
    requires m >= 1 && i < |c| && discount != 0.0
    ensures TimeFactor(i) as real * c[i] / ((m * m) as real * discount) == ConvexityWeights(c, m)[i] / discount
  {
    var t := TimeFactor(i) as real * c[i];
    var mm := (m * m) as real;
    assert m * m >= 1 by {
      assert m * m >= 1 * m;
    }
    var w := ConvexityWeights(c, m)[i];
    assert w == t / mm;
    DivProduct(t, mm, discount, w);
  }

  lemma MulNonZero(a: real, b: real)
    requires a != 0.0 && b != 0.0
    ensures a * b != 0.0
  {
  }

  // ---------------------------------------------------------------------------
  // Portfolios

  function Sum(p: seq<real>): real
    decreases |p|
  {
    if |p| == 0 then 0.0 else Sum(p[..|p| - 1]) + p[|p| - 1]
  }

  /** The dot product P @ X of two equally long vectors. */
  function Dot(p: seq<real>, x: seq<real>): real
    requires |p| == |x|
    decreases |p|
  {
    if |p| == 0 then 0.0 else Dot(p[..|p| - 1], x[..|x| - 1]) + p[|p| - 1] * x[|x| - 1]
  }

  /** portfolio_pres_val: the sum of the securities' present values. */
  function PortfolioPresVal(p: seq<real>): (v: real)
    ensures (forall i :: 0 <= i < |p| ==> p[i] >= 0.0) ==> v >= 0.0
  {
    SumNonNegative(p);
    Sum(p)
  }

  lemma {:induction false} SumNonNegative(p: seq<real>)
    ensures (forall i :: 0 <= i < |p| ==> p[i] >= 0.0) ==> Sum(p) >= 0.0
    decreases |p|
  {
    if |p| > 0 {
      assert forall i :: 0 <= i < |p| - 1 ==> p[..|p| - 1][i] == p[i];
      SumNonNegative(p[..|p| - 1]);
    }
  }

  /** portfolio_duration: the durations averaged with the present values as
      weights. */
  function PortfolioDuration(p: seq<real>, d: seq<real>): (v: real)
    requires |p| == |d| && PortfolioPresVal(p) != 0.0
    ensures v * PortfolioPresVal(p) == Dot(p, d)
  {
    Dot(p, d) / PortfolioPresVal(p)
  }

  /** portfolio_convexity: the convexities averaged with the present values as
      weights. */
  function PortfolioConvexity(p: seq<real>, c: seq<real>): (v: real)
    requires |p| == |c| && PortfolioPresVal(p) != 0.0
    ensures v * PortfolioPresVal(p) == Dot(p, c)
  {
    Dot(p, c) / PortfolioPresVal(p)
  }

  // ---------------------------------------------------------------------------
  // Bond cash flows

  /** The flow of a bond with annual coupon `coupon` paid in m parts, `years`
      payment periods and face value fv: nothing at period 0, coupon/m at
      periods 1 .. years, and the face value on top at the last period (at
      period 0 itself when years == 0). */
  function BondFlow(coupon: real, years: nat, fv: real, m: nat): (c: seq<real>)
    requires m >= 1
    ensures |c| == years + 1
  {
    if years == 0 then [fv]
    else [0.0] + seq(years - 1, _ => coupon / (m as real)) + [coupon / (m as real) + fv]
  }

  /** Payment i of a bond flow: coupon/m from period 1 on, plus the face value
      at period `years`. In particular c[0] == 0 when years >= 1, and the flow
      of a bond with no periods left is [fv]. */
  lemma BondFlowAt(coupon: real, years: nat, fv: real, m: nat)
    requires m >= 1
    ensures forall i :: 0 <= i <= years ==>
      BondFlow(coupon, years, fv, m)[i] == (if i >= 1 then coupon / (m as real) else 0.0) + (if i == years then fv else 0.0)
  {
  }

  /** bond_cash_flow: a list of years + 1 zeros, periods 1 .. years set to
      coupon/m, then the face value added at index years. A negative `years`
      makes that final index fall outside the (empty) list, which the source
      reports by raising IndexError: here None. */
  method BondCashFlow(coupon: real, years: int, fv: real, m: nat) returns (res: Option<seq<real>>)
    requires m >= 1
    ensures years < 0 ==> res == None
    ensures years >= 0 ==> res == Some(BondFlow(coupon, years, fv, m))
  {
    if years < 0 {
      return None;
    }
    var c := new real[years + 1](_ => 0.0);
    for i := 1 to years + 1
      invariant forall k :: 0 <= k < c.Length ==> c[k] == if 1 <= k < i then coupon / (m as real) else 0.0
    {
      c[i] := coupon / (m as real);
    }
    c[years] := c[years] + fv;
    ghost var spec := BondFlow(coupon, years, fv, m);
    BondFlowAt(coupon, years, fv, m);
    assert forall k :: 0 <= k < c.Length ==> c[k] == spec[k];
    assert c[..] == spec;
    return Some(c[..]);
  }
}
