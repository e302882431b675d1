/** Properties of the cash-flow metrics of finance/metric/detflow.py:
    linearity of present value, its value at a zero rate, the closed forms
    for zero-coupon and par bonds, the bounds on duration, and the agreement
    of the portfolio aggregates with the metrics of the combined flow. */
module DetflowProperties {
  import opened Interest
  import opened Detflow

  // ---------------------------------------------------------------------------
  // Flows as vectors

  /** The elementwise sum of two equally long flows. */
  function AddFlows(u: seq<real>, v: seq<real>): (s: seq<real>)
    requires |u| == |v|
    ensures |s| == |u|
  {
    seq(|u|, i requires 0 <= i < |u| => u[i] + v[i])
  }

  /** A flow with every payment multiplied by x. */
  function ScaleFlow(x: real, u: seq<real>): (s: seq<real>)
    ensures |s| == |u|
  {
    seq(|u|, i requires 0 <= i < |u| => x * u[i])
  }

  lemma {:induction false} DiscountedAdd(u: seq<real>, v: seq<real>, a: real)
    requires |u| == |v| && (|u| <= 1 || a != 0.0)
    ensures Discounted(AddFlows(u, v), a) == Discounted(u, a) + Discounted(v, a)
    decreases |u|
  {
    if |u| > 0 {
      var n := |u| - 1;
      assert AddFlows(u, v)[..n] == AddFlows(u[..n], v[..n]);
      DiscountedAdd(u[..n], v[..n], a);
      PowNonZero(a, n);
      SplitQuotient(u[n], v[n], Pow(a, n));
    }
  }

  lemma SplitQuotient(x: real, y: real, p: real)
    requires p != 0.0
    ensures (x + y) / p == x / p + y / p
  {
  }

  lemma {:induction false} DiscountedScale(x: real, u: seq<real>, a: real)
    requires |u| <= 1 || a != 0.0
    ensures Discounted(ScaleFlow(x, u), a) == x * Discounted(u, a)
    decreases |u|
  {
    if |u| > 0 {
      DiscountedScale(x, u[..|u| - 1], a);
      DiscountedScaleStep(x, u, a);
    }
  }

  /** The induction step of DiscountedScale: from the flow without its last
      payment to the whole flow. */
  lemma {:induction false} DiscountedScaleStep(x: real, u: seq<real>, a: real)
    requires |u| > 0 && (|u| <= 1 || a != 0.0)
    requires Discounted(ScaleFlow(x, u[..|u| - 1]), a) == x * Discounted(u[..|u| - 1], a)
    ensures Discounted(ScaleFlow(x, u), a) == x * Discounted(u, a)
  {
    var n := |u| - 1;
    var v := ScaleFlow(x, u);
    var p := Pow(a, n);
    assert p != 0.0 by {
      PowNonZero(a, n);
    }
    ScaleFlowPrefix(x, u, n);
    ScaleStep(x, Discounted(u[..n], a), u[n], p, Discounted(v, a), Discounted(v[..n], a), Discounted(u, a));
  }

  lemma ScaleFlowPrefix(x: real, u: seq<real>, n: nat)
    requires n < |u|
    ensures ScaleFlow(x, u)[..n] == ScaleFlow(x, u[..n])
    ensures ScaleFlow(x, u)[n] == x * u[n]
  {
    assert forall i | 0 <= i < n :: ScaleFlow(x, u)[..n][i] == ScaleFlow(x, u[..n])[i];
  }

  /** The arithmetic of one step of DiscountedScale: with du == d + y / p,
      sv == svn + x y / p and svn == x d, sv == x du. */
  lemma ScaleStep(x: real, d: real, y: real, p: real, sv: real, svn: real, du: real)
    requires p != 0.0 && du == d + y / p && sv == svn + (x * y) / p && svn == x * d
    ensures sv == x * du
  {
    ScaleQuotient(x, y, p);
  }

  lemma ScaleQuotient(x: real, y: real, p: real)
    requires p != 0.0
    ensures (x * y) / p == x * (y / p)
  {
  }

  /** With a positive factor, a flow that pays no more at every period is
      worth no more. */
  lemma {:induction false} DiscountedMonotone(u: seq<real>, v: seq<real>, a: real)
    requires |u| == |v| && a > 0.0
    requires forall i :: 0 <= i < |u| ==> u[i] <= v[i]
    ensures Discounted(u, a) <= Discounted(v, a)
    decreases |u|
  {
    if |u| > 0 {
      var n := |u| - 1;
      DiscountedMonotone(u[..n], v[..n], a);
      PowPositive(a, n);
      MonotoneQuotient(u[n], v[n], Pow(a, n));
    }
  }

  lemma MonotoneQuotient(x: real, y: real, p: real)
    requires p > 0.0 && x <= y
    ensures x / p <= y / p
  {
  }

  lemma {:induction false} DiscountedOfZeros(w: seq<real>, a: real)
    requires |w| <= 1 || a != 0.0
    requires forall i :: 0 <= i < |w| ==> w[i] == 0.0
    ensures Discounted(w, a) == 0.0
    decreases |w|
  {
    if |w| > 0 {
      var n := |w| - 1;
      assert forall i :: 0 <= i < n ==> w[..n][i] == 0.0;
      DiscountedOfZeros(w[..n], a);
      PowNonZero(a, n);
      assert w[n] / Pow(a, n) == 0.0;
    }
  }

  /** A flow that pays only at its last index n is worth that payment over a^n. */
  lemma DiscountedOfLast(w: seq<real>, a: real)
    requires |w| >= 1 && (|w| <= 1 || a != 0.0)
    requires forall i :: 0 <= i < |w| - 1 ==> w[i] == 0.0
    ensures Pow(a, |w| - 1) != 0.0
    ensures Discounted(w, a) == w[|w| - 1] / Pow(a, |w| - 1)
  {
    PowNonZero(a, |w| - 1);
    DiscountedOfZeros(w[..|w| - 1], a);
  }

  // ---------------------------------------------------------------------------
  // Present value

  /** An empty flow is worth nothing, and at a zero rate every discount is 1,
      so the present value is the plain sum of the payments. */
  lemma PresValueAtZeroRate(c: seq<real>, m: nat)
    requires m >= 1
    ensures PresValue([], 0.0, m) == 0.0
    ensures PresValue(c, 0.0, m) == Sum(c)
  {
    assert AccrueOnePer(0.0, m) == 1.0;
    PowOfOne(m);
  }

  /** Present value is linear in the flow. */
  lemma PresValueLinear(x: real, c1: seq<real>, c2: seq<real>, r: real, m: nat)
    requires m >= 1 && |c1| == |c2| && (|c1| <= 1 || AccrueOneYear(r, m) != 0.0)
    ensures PresValue(AddFlows(c1, c2), r, m) == PresValue(c1, r, m) + PresValue(c2, r, m)
    ensures PresValue(ScaleFlow(x, c1), r, m) == x * PresValue(c1, r, m)
  {
    DiscountedAdd(c1, c2, AccrueOneYear(r, m));
    DiscountedScale(x, c1, AccrueOneYear(r, m));
  }

  /** A flow of nonnegative payments has a nonnegative present value whenever
      the yearly factor is positive. */
  lemma PresValueNonNegative(c: seq<real>, r: real, m: nat)
    requires m >= 1 && AccrueOneYear(r, m) > 0.0
    requires forall i :: 0 <= i < |c| ==> c[i] >= 0.0
    ensures PresValue(c, r, m) >= 0.0
  {
    var a := AccrueOneYear(r, m);
    DiscountedMonotone(ScaleFlow(0.0, c), c, a);
    DiscountedScale(0.0, c, a);
  }

  // ---------------------------------------------------------------------------
  // Duration and convexity

  /** Compounded once a year, the per-period factor that discounts the sums of
      duration and convexity is the yearly factor that discounts pres_val. */
  lemma AnnualDiscountsAgree(r: real, k: nat)
    ensures AccrueOnePer(r, 1) == AccrueOneYear(r, 1)
    ensures Pow(AccrueOnePer(r, 1), k) == Pow(AccrueOneYear(r, 1), k)
  {
  }

  /** Compounded once a year, the duration of a flow of nonnegative payments is
      a time between 0 and its maturity |c| - 1. */
  lemma DurationWithinMaturity(c: seq<real>, r: real)
    requires r > -1.0 && |c| >= 1
    requires forall i :: 0 <= i < |c| ==> c[i] >= 0.0
    requires PresValue(c, r, 1) != 0.0
    ensures 0.0 <= DurationValue(c, r, 1) <= (|c| - 1) as real
  {
    var a := AccrueOnePer(r, 1);
    assert a == AccrueOneYear(r, 1);
    PresValueNonNegative(c, r, 1);
    WeightedWithinMaturity(c, a);
    QuotientBounds(Discounted(DurationWeights(c, 1), a), PresValue(c, r, 1), (|c| - 1) as real);
  }

  /** Weighting payment i by i, between 0 and the maturity |c| - 1, keeps the
      discounted value of a non-negative flow between 0 and |c| - 1 times its
      value. */
  lemma WeightedWithinMaturity(c: seq<real>, a: real)
    requires a > 0.0 && |c| >= 1
    requires forall i :: 0 <= i < |c| ==> c[i] >= 0.0
    ensures 0.0 <= Discounted(DurationWeights(c, 1), a) <= (|c| - 1) as real * Discounted(c, a)
  {
    var n := (|c| - 1) as real;
    var w := DurationWeights(c, 1);
    forall i | 0 <= i < |c|
      ensures ScaleFlow(0.0, c)[i] <= w[i] <= ScaleFlow(n, c)[i]
    {
      assert w[i] == (i as real) * c[i];
      WeightBelowMaturity(i as real, n, c[i]);
    }
    DiscountedMonotone(ScaleFlow(0.0, c), w, a);
    DiscountedMonotone(w, ScaleFlow(n, c), a);
    DiscountedScale(0.0, c, a);
    DiscountedScale(n, c, a);
  }

  lemma WeightBelowMaturity(t: real, n: real, x: real)
    requires 0.0 <= t <= n && x >= 0.0
    ensures 0.0 * x <= t * x <= n * x
  {
  }

  lemma QuotientBounds(s: real, p: real, n: real)
    requires p > 0.0 && 0.0 <= s <= n * p
    ensures 0.0 <= s / p <= n
  {
  }

  // ---------------------------------------------------------------------------
  // Bond flows

  /** A bond flow one period longer is the shorter coupon stream followed by
      the last coupon and the face value. */
  lemma BondFlowExtend(coupon: real, years: nat, fv: real, m: nat)
    requires m >= 1
    ensures BondFlow(coupon, years + 1, fv, m) == BondFlow(coupon, years, 0.0, m) + [coupon / (m as real) + fv]
  {
    var long := BondFlow(coupon, years + 1, fv, m);
    var short := BondFlow(coupon, years, 0.0, m) + [coupon / (m as real) + fv];
    BondFlowAt(coupon, years + 1, fv, m);
    BondFlowAt(coupon, years, 0.0, m);
    assert |long| == |short|;
    forall i | 0 <= i < |long|
      ensures long[i] == short[i]
    {
      if i < years + 1 {
        assert short[i] == BondFlow(coupon, years, 0.0, m)[i];
      }
    }
  }

  /** The face value scales the whole flow only together with the coupon. */
  lemma BondFlowScaling(x: real, coupon: real, years: nat, fv: real, m: nat)
    requires m >= 1
    ensures BondFlow(x * coupon, years, x * fv, m) == ScaleFlow(x, BondFlow(coupon, years, fv, m))
  {
    var lhs := BondFlow(x * coupon, years, x * fv, m);
    var rhs := ScaleFlow(x, BondFlow(coupon, years, fv, m));
    BondFlowAt(x * coupon, years, x * fv, m);
    BondFlowAt(coupon, years, fv, m);
    forall i | 0 <= i < |lhs|
      ensures lhs[i] == rhs[i]
    {
      ScaleQuotient(x, coupon, m as real);
    }
  }

  /** Scaling the face value alone is not scaling the flow: once there is a
      coupon before maturity, that coupon is left unscaled. */
  lemma FaceValueAloneDoesNotScale(x: real, coupon: real, years: nat, fv: real, m: nat)
    requires m >= 1 && years >= 2 && coupon != 0.0 && x != 1.0
    ensures BondFlow(coupon, years, x * fv, m) != ScaleFlow(x, BondFlow(coupon, years, fv, m))
  {
    BondFlowAt(coupon, years, x * fv, m);
    BondFlowAt(coupon, years, fv, m);
    var q := coupon / (m as real);
    assert q != 0.0;
    assert BondFlow(coupon, years, x * fv, m)[1] == q;
    assert ScaleFlow(x, BondFlow(coupon, years, fv, m))[1] == x * q;
    MulNonZero(x - 1.0, q);
    assert x * q - q == (x - 1.0) * q;
  }

  /** The flow of a zero-coupon bond pays only the face value, at the end. */
  lemma ZeroCouponFlow(years: nat, fv: real, m: nat)
    requires m >= 1
    ensures forall i :: 0 <= i < years ==> BondFlow(0.0, years, fv, m)[i] == 0.0
    ensures BondFlow(0.0, years, fv, m)[years] == fv
  {
    BondFlowAt(0.0, years, fv, m);
  }

  /** A zero-coupon bond is worth its face value discounted over its life:
      fv / accrue(r, years, m). */
  lemma ZeroCouponPresValue(years: nat, fv: real, r: real, m: nat)
    requires m >= 1 && (years == 0 || AccrueOneYear(r, m) != 0.0)
    ensures Accrue(r, years, m) != 0.0
    ensures PresValue(BondFlow(0.0, years, fv, m), r, m) == fv / Accrue(r, years, m)
  {
    ZeroCouponFlow(years, fv, m);
    DiscountedOfLast(BondFlow(0.0, years, fv, m), AccrueOneYear(r, m));
  }

  /** The only weighted payment of a zero-coupon flow is the last one:
      weight k times the face value, discounted over the whole life. */
  lemma ZeroCouponWeighted(years: nat, fv: real, a: real, w: seq<real>, k: real)
    requires a != 0.0 && |w| == years + 1
    requires forall i :: 0 <= i < years ==> w[i] == 0.0
    requires w[years] == k * fv
    ensures Pow(a, years) != 0.0
    ensures Discounted(w, a) == k * fv / Pow(a, years)
  {
    PowNonZero(a, years);
    DiscountedOfLast(w, a);
  }

  /** The present value and the discounted time-weighted flow of a zero-coupon
      bond compounded once a year. */
  lemma ZeroCouponDurationParts(years: nat, fv: real, r: real)
    requires r != -1.0
    ensures Pow(1.0 + r, years) != 0.0
    ensures PresValue(BondFlow(0.0, years, fv, 1), r, 1) == fv / Pow(1.0 + r, years)
    ensures Discounted(DurationWeights(BondFlow(0.0, years, fv, 1), 1), AccrueOnePer(r, 1))
         == (years as real) * fv / Pow(1.0 + r, years)
  {
    var c := BondFlow(0.0, years, fv, 1);
    var w := DurationWeights(c, 1);
    var a := 1.0 + r;
    assert PresValue(c, r, 1) == fv / Pow(a, years) by {
      AnnualFactors(r, years, a);
      ZeroCouponPresValue(years, fv, r, 1);
    }
    assert (forall i :: 0 <= i < years ==> w[i] == 0.0) && w[years] == (years as real) * fv by {
      ZeroCouponFlow(years, fv, 1);
    }
    assert AccrueOnePer(r, 1) == a;
    ZeroCouponWeighted(years, fv, a, w, years as real);
  }

  /** Compounded once a year, a zero-coupon bond's duration is its maturity. */
  lemma ZeroCouponDuration(years: nat, fv: real, r: real)
    requires fv != 0.0 && r != -1.0
    ensures PresValue(BondFlow(0.0, years, fv, 1), r, 1) != 0.0
    ensures DurationValue(BondFlow(0.0, years, fv, 1), r, 1) == years as real
  {
    ZeroCouponDurationParts(years, fv, r);
    var p := Pow(1.0 + r, years);
    NonZeroQuotient(fv, p);
    CancelQuotient(years as real, fv, p);
  }

  /** Compounded once a year, both factors of one period are a == 1 + r. */
  lemma AnnualFactors(r: real, years: nat, a: real)
    requires a == 1.0 + r
    ensures AccrueOnePer(r, 1) == a && AccrueOneYear(r, 1) == a
    ensures Accrue(r, years, 1) == Pow(a, years)
  {
  }

  lemma NonZeroQuotient(x: real, p: real)
    requires x != 0.0 && p != 0.0
    ensures x / p != 0.0
  {
  }

  lemma CancelQuotient(t: real, x: real, p: real)
    requires x != 0.0 && p != 0.0
    ensures (t * x / p) / (x / p) == t
  {
  }

  /** r times the value of a stream that pays nothing at index 0 and coupon
      at indices 1 .. k, discounted by a == 1 + r, is coupon (1 - 1/a^k). */
  lemma {:induction false} AnnuityValue(s: seq<real>, coupon: real, r: real, a: real, k: nat)
    requires a == 1.0 + r && a != 0.0 && k < |s|
    requires s[0] == 0.0 && forall i :: 1 <= i <= k ==> s[i] == coupon
    ensures Pow(a, k) != 0.0
    ensures r * Discounted(s[..k + 1], a) == coupon * (1.0 - 1.0 / Pow(a, k))
    decreases k
  {
    if k == 0 {
      assert s[..1] == [0.0];
    } else {
      AnnuityValue(s, coupon, r, a, k - 1);
      AnnuityExtend(s, coupon, r, a, k);
    }
  }

  /** The induction step of AnnuityValue: from k - 1 payments to k. */
  lemma {:induction false} AnnuityExtend(s: seq<real>, coupon: real, r: real, a: real, k: nat)
    requires a == 1.0 + r && a != 0.0 && 1 <= k < |s| && s[k] == coupon
    requires Pow(a, k - 1) != 0.0
    requires r * Discounted(s[..k], a) == coupon * (1.0 - 1.0 / Pow(a, k - 1))
    ensures Pow(a, k) != 0.0
    ensures r * Discounted(s[..k + 1], a) == coupon * (1.0 - 1.0 / Pow(a, k))
  {
    var p, q := Pow(a, k - 1), Pow(a, k);
    var v, v' := Discounted(s[..k], a), Discounted(s[..k + 1], a);
    assert q == p * a && q != 0.0 && v' == v + coupon / q by {
      AnnuityNext(s, a, k);
    }
    AnnuityStep(coupon, r, a, p, v, q, v');
  }

  /** The stream one payment longer: its value gains s[k] / a^k. */
  lemma AnnuityNext(s: seq<real>, a: real, k: nat)
    requires a != 0.0 && 1 <= k < |s|
    ensures Pow(a, k - 1) != 0.0 && Pow(a, k) == Pow(a, k - 1) * a && Pow(a, k) != 0.0
    ensures Discounted(s[..k + 1], a) == Discounted(s[..k], a) + s[k] / Pow(a, k)
  {
    PowNonZero(a, k - 1);
    PowNonZero(a, k);
    DiscountedSnoc(s, a, k);
  }

  /** One step of AnnuityValue, with a == 1 + r, p == a^(k - 1), q == a^k,
      v the value of the shorter stream and v' that of the longer one. */
  lemma AnnuityStep(coupon: real, r: real, a: real, p: real, v: real, q: real, v': real)
    requires a == 1.0 + r && q == p * a && q != 0.0 && p != 0.0
    requires r * v == coupon * (1.0 - 1.0 / p)
    requires v' == v + coupon / q
    ensures r * v' == coupon * (1.0 - 1.0 / q)
  {
    assert r * v' == r * v + r * (coupon / q);
    assert r * (coupon / q) == coupon * r / q;
    assert coupon * (1.0 - 1.0 / q) == coupon - coupon / q;
    assert coupon * (1.0 - 1.0 / p) == coupon - coupon / p;
    assert coupon / p == coupon * a / q;
  }

  /** Compounded once a year, a bond whose coupon rate equals the market rate
      (coupon == r fv) is worth its face value. */
  lemma ParBond(years: nat, fv: real, r: real)
    requires r != -1.0
    ensures PresValue(BondFlow(r * fv, years, fv, 1), r, 1) == fv
  {
    var c := BondFlow(r * fv, years, fv, 1);
    var a := 1.0 + r;
    assert PresValue(c, r, 1) == Discounted(c, a) by {
      AnnualFactors(r, years, a);
    }
    if years == 0 {
      assert c == [fv];
      assert Discounted(c, a) == Discounted([], a) + fv / Pow(a, 0);
    } else if r == 0.0 {
      ParBondAtZeroRate(years, fv, c);
    } else {
      ParBondAtRate(years, fv, r, c, a);
    }
  }

  /** At a zero rate the par bond pays only its face value, undiscounted. */
  lemma ParBondAtZeroRate(years: nat, fv: real, c: seq<real>)
    requires years >= 1 && c == BondFlow(0.0 * fv, years, fv, 1)
    ensures Discounted(c, 1.0) == fv
  {
    ParBondSplit(years, fv, 0.0, c, 1.0);
    PowOfOne(years);
    DiscountedOfZeros(c[..years], 1.0);
  }

  /** A par bond with at least one period and a nonzero rate. */
  lemma ParBondAtRate(years: nat, fv: real, r: real, c: seq<real>, a: real)
    requires years >= 1 && r != 0.0 && r != -1.0 && a == 1.0 + r && c == BondFlow(r * fv, years, fv, 1)
    ensures Discounted(c, a) == fv
  {
    ParBondSplit(years, fv, r, c, a);
    ParCoupons(years, fv, r, c, a);
    ParStep(fv, r, Pow(a, years - 1), Discounted(c[..years], a), Pow(a, years), c[years]);
  }

  /** The last payment of a par bond flow is split off from the coupons
      before it. */
  lemma ParBondSplit(years: nat, fv: real, r: real, c: seq<real>, a: real)
    requires years >= 1 && r != -1.0 && a == 1.0 + r && c == BondFlow(r * fv, years, fv, 1)
    ensures Pow(a, years - 1) != 0.0 && Pow(a, years) == Pow(a, years - 1) * a
    ensures Discounted(c, a) == Discounted(c[..years], a) + c[years] / Pow(a, years)
    ensures c[0] == 0.0 && c[years] == r * fv + fv
    ensures forall i :: 1 <= i <= years - 1 ==> c[i] == r * fv
    ensures r == 0.0 ==> forall i :: 0 <= i < years ==> c[..years][i] == 0.0
  {
    PowNonZero(a, years - 1);
    BondFlowAt(r * fv, years, fv, 1);
    assert c[..years + 1] == c;
    DiscountedSnoc(c, a, years);
  }

  /** The coupons of a par bond before its last period. */
  lemma ParCoupons(years: nat, fv: real, r: real, c: seq<real>, a: real)
    requires years >= 1 && a == 1.0 + r && a != 0.0 && years < |c|
    requires c[0] == 0.0 && forall i :: 1 <= i <= years - 1 ==> c[i] == r * fv
    ensures Pow(a, years - 1) != 0.0
    ensures r * Discounted(c[..years], a) == r * fv * (1.0 - 1.0 / Pow(a, years - 1))
  {
    var k := years - 1;
    AnnuityValue(c, r * fv, r, a, k);
    assert c[..k + 1] == c[..years];
  }

  /** The last step of ParBond: v is the value of the coupons before the last
      period, p == a^(years - 1), q == a^years and x the last payment. */
  lemma ParStep(fv: real, r: real, p: real, v: real, q: real, x: real)
    requires r != 0.0 && r != -1.0 && p != 0.0 && q == p * (1.0 + r)
    requires r * v == r * fv * (1.0 - 1.0 / p)
    requires x == r * fv + fv
    ensures v + x / q == fv
  {
    assert v == fv * (1.0 - 1.0 / p) by {
      assert r * (v - fv * (1.0 - 1.0 / p)) == 0.0;
    }
    assert x == fv * (1.0 + r);
    CancelFactor(fv, p, 1.0 + r);
  }

  lemma CancelFactor(x: real, p: real, q: real)
    requires p != 0.0 && q != 0.0
    ensures p * q != 0.0
    ensures x * q / (p * q) == x / p
  {
  }

  // ---------------------------------------------------------------------------
  // Portfolios

  lemma {:induction false} DotBounds(p: seq<real>, x: seq<real>, lo: real, hi: real)
    requires |p| == |x|
    requires forall i :: 0 <= i < |p| ==> p[i] >= 0.0 && lo <= x[i] <= hi
    ensures lo * Sum(p) <= Dot(p, x) <= hi * Sum(p)
    decreases |p|
  {
    if |p| > 0 {
      var n := |p| - 1;
      DotBounds(p[..n], x[..n], lo, hi);
      MulBetween(p[n], lo, x[n], hi);
      SumStep(lo, Sum(p[..n]), p[n]);
      SumStep(hi, Sum(p[..n]), p[n]);
    }
  }

  lemma SumStep(k: real, s: real, y: real)
    ensures k * (s + y) == k * s + k * y
  {
  }

  lemma MulBetween(w: real, lo: real, x: real, hi: real)
    requires w >= 0.0 && lo <= x <= hi
    ensures lo * w <= w * x <= hi * w
  {
    MulNonNegative(w, x - lo);
    MulNonNegative(w, hi - x);
  }

  /** The portfolio duration and convexity are averages of the securities'
      figures weighted by nonnegative present values, so they lie between the
      smallest and the largest of them. */
  lemma PortfolioAverageBounds(p: seq<real>, x: seq<real>, lo: real, hi: real)
    requires |p| == |x| && PortfolioPresVal(p) > 0.0
    requires forall i :: 0 <= i < |p| ==> p[i] >= 0.0 && lo <= x[i] <= hi
    ensures lo <= PortfolioDuration(p, x) <= hi
    ensures lo <= PortfolioConvexity(p, x) <= hi
  {
    DotBounds(p, x, lo, hi);
    AverageBetween(Dot(p, x), Sum(p), lo, hi);
  }

  lemma AverageBetween(d: real, s: real, lo: real, hi: real)
    requires s > 0.0 && lo * s <= d <= hi * s
    ensures lo <= d / s <= hi
  {
  }

  /** A portfolio whose securities share one duration (or convexity) v has
      duration (or convexity) v. */
  lemma PortfolioUniform(p: seq<real>, x: seq<real>, v: real)
    requires |p| == |x| && PortfolioPresVal(p) != 0.0
    requires forall i :: 0 <= i < |x| ==> x[i] == v
    ensures PortfolioDuration(p, x) == v
    ensures PortfolioConvexity(p, x) == v
  {
    DotUniform(p, x, v);
  }

  lemma {:induction false} DotUniform(p: seq<real>, x: seq<real>, v: real)
    requires |p| == |x|
    requires forall i :: 0 <= i < |x| ==> x[i] == v
    ensures Dot(p, x) == v * Sum(p)
    decreases |p|
  {
    if |p| > 0 {
      DotUniform(p[..|p| - 1], x[..|x| - 1], v);
    }
  }

  /** Holding two flows is holding their sum: the portfolio aggregates of the
      two flows' present values, durations and convexities are the present
      value, duration and convexity of the combined flow. */
  lemma PortfolioOfTwoFlows(c1: seq<real>, c2: seq<real>, r: real, m: nat)
    requires m >= 1 && |c1| == |c2| && AccrueOnePer(r, m) != 0.0
    requires PresValue(c1, r, m) != 0.0 && PresValue(c2, r, m) != 0.0
    requires PortfolioPresVal([PresValue(c1, r, m), PresValue(c2, r, m)]) != 0.0
    ensures PortfolioPresVal([PresValue(c1, r, m), PresValue(c2, r, m)]) == PresValue(AddFlows(c1, c2), r, m)
    ensures PortfolioDuration([PresValue(c1, r, m), PresValue(c2, r, m)], [DurationValue(c1, r, m), DurationValue(c2, r, m)])
         == DurationValue(AddFlows(c1, c2), r, m)
    ensures PortfolioConvexity([PresValue(c1, r, m), PresValue(c2, r, m)], [ConvexityValue(c1, r, m), ConvexityValue(c2, r, m)])
         == ConvexityValue(AddFlows(c1, c2), r, m)
  {
    DurationOfTwo(c1, c2, r, m);
    ConvexityOfTwo(c1, c2, r, m);
  }

  lemma PresValueOfTwo(c1: seq<real>, c2: seq<real>, r: real, m: nat)
    requires m >= 1 && |c1| == |c2| && AccrueOnePer(r, m) != 0.0
    ensures PortfolioPresVal([PresValue(c1, r, m), PresValue(c2, r, m)]) == PresValue(AddFlows(c1, c2), r, m)
  {
    DiscountedAdd(c1, c2, AccrueOneYear(r, m));
    SumDotOfTwo(PresValue(c1, r, m), PresValue(c2, r, m), 0.0, 0.0);
  }

  lemma DurationOfTwo(c1: seq<real>, c2: seq<real>, r: real, m: nat)
    requires m >= 1 && |c1| == |c2| && AccrueOnePer(r, m) != 0.0
    requires PresValue(c1, r, m) != 0.0 && PresValue(c2, r, m) != 0.0
    requires PortfolioPresVal([PresValue(c1, r, m), PresValue(c2, r, m)]) != 0.0
    ensures PortfolioPresVal([PresValue(c1, r, m), PresValue(c2, r, m)]) == PresValue(AddFlows(c1, c2), r, m)
    ensures PortfolioDuration([PresValue(c1, r, m), PresValue(c2, r, m)], [DurationValue(c1, r, m), DurationValue(c2, r, m)])
         == DurationValue(AddFlows(c1, c2), r, m)
  {
    var a := AccrueOnePer(r, m);
    var p1, p2 := PresValue(c1, r, m), PresValue(c2, r, m);
    var d1, d2 := Discounted(DurationWeights(c1, m), a), Discounted(DurationWeights(c2, m), a);
    assert PresValue(AddFlows(c1, c2), r, m) == p1 + p2 && PortfolioPresVal([p1, p2]) == p1 + p2 by {
      DiscountedAdd(c1, c2, AccrueOneYear(r, m));
      SumDotOfTwo(p1, p2, 0.0, 0.0);
    }
    assert Discounted(DurationWeights(AddFlows(c1, c2), m), a) == d1 + d2 by {
      DurationWeightsAdd(c1, c2, m);
      DiscountedAdd(DurationWeights(c1, m), DurationWeights(c2, m), a);
    }
    var x1, x2, y := DurationValue(c1, r, m), DurationValue(c2, r, m), DurationValue(AddFlows(c1, c2), r, m);
    var d, p := Discounted(DurationWeights(AddFlows(c1, c2), m), a), PresValue(AddFlows(c1, c2), r, m);
    assert x1 == d1 / p1 && x2 == d2 / p2 && y == d / p;
    assert (p1 * x1 + p2 * x2) / (p1 + p2) == y by {
      WeightedAverage(p1, p2, d1, d2, 1.0, x1, x2, d, p, y);
    }
    assert PortfolioDuration([p1, p2], [x1, x2]) == (p1 * x1 + p2 * x2) / (p1 + p2) by {
      SumDotOfTwo(p1, p2, x1, x2);
    }
  }

  lemma ConvexityOfTwo(c1: seq<real>, c2: seq<real>, r: real, m: nat)
    requires m >= 1 && |c1| == |c2| && AccrueOnePer(r, m) != 0.0
    requires PresValue(c1, r, m) != 0.0 && PresValue(c2, r, m) != 0.0
    requires PortfolioPresVal([PresValue(c1, r, m), PresValue(c2, r, m)]) != 0.0
    ensures PortfolioPresVal([PresValue(c1, r, m), PresValue(c2, r, m)]) == PresValue(AddFlows(c1, c2), r, m)
    ensures PortfolioConvexity([PresValue(c1, r, m), PresValue(c2, r, m)], [ConvexityValue(c1, r, m), ConvexityValue(c2, r, m)])
         == ConvexityValue(AddFlows(c1, c2), r, m)
  {
    var a := AccrueOnePer(r, m);
    var q := Pow(a, 2);
    var p1, p2 := PresValue(c1, r, m), PresValue(c2, r, m);
    var k1, k2 := Discounted(ConvexityWeights(c1, m), a), Discounted(ConvexityWeights(c2, m), a);
    assert q != 0.0 by {
      PowNonZero(a, 2);
    }
    assert PresValue(AddFlows(c1, c2), r, m) == p1 + p2 && PortfolioPresVal([p1, p2]) == p1 + p2 by {
      DiscountedAdd(c1, c2, AccrueOneYear(r, m));
      SumDotOfTwo(p1, p2, 0.0, 0.0);
    }
    assert Discounted(ConvexityWeights(AddFlows(c1, c2), m), a) == k1 + k2 by {
      ConvexityWeightsAdd(c1, c2, m);
      DiscountedAdd(ConvexityWeights(c1, m), ConvexityWeights(c2, m), a);
    }
    var x1, x2, y := ConvexityValue(c1, r, m), ConvexityValue(c2, r, m), ConvexityValue(AddFlows(c1, c2), r, m);
    assert x1 == k1 / (p1 * q) by {
      ConvexityValueParts(c1, r, m, k1, p1, q, x1);
    }
    assert x2 == k2 / (p2 * q) by {
      ConvexityValueParts(c2, r, m, k2, p2, q, x2);
    }
    var k, p := Discounted(ConvexityWeights(AddFlows(c1, c2), m), a), PresValue(AddFlows(c1, c2), r, m);
    assert y == k / (p * q) by {
      ConvexityValueParts(AddFlows(c1, c2), r, m, k, p, q, y);
    }
    assert (p1 * x1 + p2 * x2) / (p1 + p2) == y by {
      WeightedAverage(p1, p2, k1, k2, q, x1, x2, k, p, y);
    }
    assert PortfolioConvexity([p1, p2], [x1, x2]) == (p1 * x1 + p2 * x2) / (p1 + p2) by {
      SumDotOfTwo(p1, p2, x1, x2);
    }
  }

  /** The average of x1 == k1 / (p1 q) and x2 == k2 / (p2 q) weighted by p1
      and p2 is (k1 + k2) / ((p1 + p2) q). */
  lemma WeightedAverage(p1: real, p2: real, k1: real, k2: real, q: real, x1: real, x2: real, k: real, p: real, y: real)
    requires p1 != 0.0 && p2 != 0.0 && p1 + p2 != 0.0 && q != 0.0
    requires x1 == k1 / (p1 * q) && x2 == k2 / (p2 * q)
    requires k == k1 + k2 && p == p1 + p2 && p * q != 0.0 && y == k / (p * q)
    ensures (p1 * x1 + p2 * x2) / (p1 + p2) == y
  {
    WeightedQuotients(p1, p2, k1, k2, q);
  }

  /** ConvexityValue in terms of its three parts: the discounted weighted
      flow k, the present value p and the squared per-period factor q. */
  lemma ConvexityValueParts(c: seq<real>, r: real, m: nat, k: real, p: real, q: real, x: real)
    requires m >= 1 && AccrueOnePer(r, m) != 0.0 && PresValue(c, r, m) != 0.0
    requires k == Discounted(ConvexityWeights(c, m), AccrueOnePer(r, m))
    requires p == PresValue(c, r, m) && q == Pow(AccrueOnePer(r, m), 2) && q != 0.0
    requires x == ConvexityValue(c, r, m)
    ensures p * q != 0.0
    ensures x == k / (p * q)
  {
    assert x == OverProduct(k, p, q);
    MulNonZero(p, q);
  }

  /** The duration weights of a sum of flows are the sums of their weights. */
  lemma DurationWeightsAdd(c1: seq<real>, c2: seq<real>, m: nat)
    requires m >= 1 && |c1| == |c2|
    ensures DurationWeights(AddFlows(c1, c2), m) == AddFlows(DurationWeights(c1, m), DurationWeights(c2, m))
  {
    forall i | 0 <= i < |c1|
      ensures DurationWeights(AddFlows(c1, c2), m)[i] == DurationWeights(c1, m)[i] + DurationWeights(c2, m)[i]
    {
      var t := i as real / m as real;
      assert t * (c1[i] + c2[i]) == t * c1[i] + t * c2[i];
    }
  }

  /** The convexity weights of a sum of flows are the sums of their weights. */
  lemma ConvexityWeightsAdd(c1: seq<real>, c2: seq<real>, m: nat)
    requires m >= 1 && |c1| == |c2|
    ensures ConvexityWeights(AddFlows(c1, c2), m) == AddFlows(ConvexityWeights(c1, m), ConvexityWeights(c2, m))
  {
    forall i | 0 <= i < |c1|
      ensures ConvexityWeights(AddFlows(c1, c2), m)[i] == ConvexityWeights(c1, m)[i] + ConvexityWeights(c2, m)[i]
    {
      var k := TimeFactor(i) as real;
      var mm := (m * m) as real;
      assert mm != 0.0 by {
        assert m * m >= 1 * m;
      }
      assert k * (c1[i] + c2[i]) == k * c1[i] + k * c2[i];
      SplitQuotient(k * c1[i], k * c2[i], mm);
    }
  }

  lemma SumDotOfTwo(p1: real, p2: real, x1: real, x2: real)
    ensures Sum([p1, p2]) == p1 + p2
    ensures Dot([p1, p2], [x1, x2]) == p1 * x1 + p2 * x2
  {
    assert [p1, p2][..1] == [p1] && [x1, x2][..1] == [x1];
    assert [p1][..0] == [] && [x1][..0] == [];
    assert Sum([p1]) == p1 && Dot([p1], [x1]) == p1 * x1;
  }

  /** Weighting d1 / (p1 q) by p1 and d2 / (p2 q) by p2 averages to
      (d1 + d2) / ((p1 + p2) q). */
  lemma WeightedQuotients(p1: real, p2: real, d1: real, d2: real, q: real)
    requires p1 != 0.0 && p2 != 0.0 && p1 + p2 != 0.0 && q != 0.0
    ensures (p1 * (d1 / (p1 * q)) + p2 * (d2 / (p2 * q))) / (p1 + p2) == (d1 + d2) / ((p1 + p2) * q)
  {
    assert p1 * (d1 / (p1 * q)) == d1 / q;
    assert p2 * (d2 / (p2 * q)) == d2 / q;
  }
}
