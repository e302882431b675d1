# A Dafny model of the FFT engine and the cash-flow metrics

This project models two computational cores of the repository in Dafny and
proves properties of them.

- **fft/fft.cpp** is a recursive radix-2 decimation-in-time FFT.
  - `fftHelper` works on the sub-problem of size `r` found at an address `f`
    with a `stride`. For `r == 1` it copies the addressed element. Otherwise
    it recurses on the even part (same address, doubled stride) and on the odd
    part (address advanced by `stride`, doubled stride). It then runs a
    butterfly loop that writes `fhat[j]` and `fhat[j + r/2]`, carrying a
    running twiddle `W = Wn^j`.
  - `fft` and `ifft` call the helper with direction `fwd = 1` or
    `inverse = -1`. They then divide every element by `sqrt(n)`.
- **finance/metric/interest.py** holds the compounding factors:
  `accrue_one_per`, `accrue_one_year`, `accrue` and `effective`.
- **finance/metric/detflow.py** holds the deterministic cash-flow metrics:
  - `pres_val`, `duration` and `convexity`, which are loops over a cash flow;
  - the portfolio aggregates, which are a sum and a dot product;
  - `bond_cash_flow`, which builds a bond's flow.

## Modules

- `ComplexArith` (complex.dfy): complex numbers as pairs of reals, with exact
  ring arithmetic and the ring laws the FFT proofs need.
- `Fft` (fft.dfy): the FFT engine.
  - `Transform` is the recursive transform as a function on sequences.
  - `FftHelper` is the recursive method over an `array`. It returns a fresh
    array and is proved equal to `Transform` of the strided slice it
    addresses.
  - `Butterfly` is the combining loop. It carries a ghost count of the writes
    to each slot.
  - `Rescale` is the in-place scaling loop.
  - The address `f + stride` becomes a base offset into the caller's array.
  - The twiddle `exp(theta * i)`, the constant `PI` and `sqrt(n)` are
    parameters: `expI`, `pi`, and `root` with `root * root == n`.
- `FftProperties` (fft_props.dfy) proves:
  - the shape of the recursion tree, including which positions the leaves
    read;
  - the butterfly relations;
  - that `ifft` is `fft` with the angle negated;
  - linearity;
  - the result of the program's own demonstration input.
- `Interest` (interest.dfy): the compounding factors over `real`, with `**`
  modelled as `Pow`.
- `Detflow` (detflow.dfy): the cash-flow metrics.
  - `PresVal`, `Duration` and `Convexity` are methods whose loops mirror the
    source. Each is proved against a specification function: `PresValue`,
    `DurationValue` or `ConvexityValue`. Each of these is built on
    `Discounted(w, a)`, the sum of `w[i] / a^i`.
  - `BondCashFlow` fills a fresh array the way the source fills its list.
- `DetflowProperties` (detflow_props.dfy) proves:
  - linearity of present value and its value at a zero rate;
  - bounds on duration;
  - the closed forms for zero-coupon and par bonds;
  - bounds on the portfolio averages;
  - that the portfolio aggregates of two flows give the metrics of their
    sum.

## Model

| member | source | states |
|---|---|---|
| Fft.Sign | fft/fft.cpp:12 | fft_direction_t as the factor of theta_n: its square is 1, and it is positive exactly for fwd |
| Fft.Theta | fft/fft.cpp:78 | theta_n times r is -2 PI times the direction's sign, so the angle is -2 PI / r forward and 2 PI / r inverse |
| Fft.Twiddle | fft/fft.cpp:79 | Wn = exp(i theta_n); for the inverse direction it is exp(-i theta) of the forward angle |
| Fft.Combine | fft/fft.cpp:80-84 | the butterfly's output has 2h slots for halves of length h; its meaning is stated by ButterflyRelations and Butterfly |
| Fft.FftOf | fft/fft.cpp:39-47 | fft keeps the length, and each output times sqrt(n) is the forward transform's entry |
| Fft.IfftOf | fft/fft.cpp:49-57 | ifft keeps the length, and each output times sqrt(n) is the inverse-direction transform's entry |
| Fft.Pow2 | fft/fft.cpp:60-61 | 2^k, the stride at depth k, is at least 1 |
| Fft.Log2 | fft/fft.cpp:60-61 | for a power of two n, the depth k where recursion ends satisfies 2^k == n |
| Fft.Strided | fft/fft.cpp:64-65 | a call with size r reads exactly r elements f[base + k*stride] |
| Fft.Evens | fft/fft.cpp:72-73 | the even half of a sequence has half its length |
| Fft.Odds | fft/fft.cpp:74-75 | the odd half of a sequence has half its length |
| Fft.StridedHalves | fft/fft.cpp:71-75 | both sub-calls stay in bounds; the even sub-call (same base, doubled stride) reads the even positions of its parent's slice; the odd sub-call (base + stride, doubled stride) reads the odd positions |
| Fft.Transform | fft/fft.cpp:59-89 | the transform of a power-of-two-sized input has the input's length |
| Fft.TransformStep | fft/fft.cpp:71-84 | for size >= 2, the transform is the butterfly of the transforms of the even and odd halves with Wn = exp(i theta_n) |
| Fft.Normalize | fft/fft.cpp:43-45 | rescaling keeps the length, and each output times sqrt(n) gives back its input element |
| Fft.Butterfly | fft/fft.cpp:77-84 | the loop's fresh output is the butterfly of evenhat and oddhat (slot j is even[j] + Wn^j odd[j]; slot j + h is even[j] - Wn^j odd[j]); every slot is written exactly once |
| Fft.WriteCounts | fft/fft.cpp:80-84 | after j iterations there are 2h write counters (one per output slot) |
| Fft.WriteCountsStep | fft/fft.cpp:80-82 | one iteration adds one write to slots j and j + h and to no other slot |
| Fft.FftHelper | fft/fft.cpp:59-89 | the fresh result equals the transform of the strided slice the call addresses; for r == 1 this is the one addressed element |
| Fft.Rescale | fft/fft.cpp:43-45 | the loop divides every element in place by sqrt(n) and changes nothing else |
| Fft.Fft | fft/fft.cpp:39-47 | fft returns a fresh array holding the forward transform of f[0..n) divided by sqrt(n) |
| Fft.Ifft | fft/fft.cpp:49-57 | ifft returns a fresh array holding the inverse-direction transform of fhat[0..n) divided by sqrt(n) |
| Fft.StridedWhole | fft/fft.cpp:40 | the top-level call (base 0, stride 1, size n) reads f[0..n) |
| FftProperties.Level | fft/fft.cpp:60-61 | depth d of the recursion has 2^d calls |
| FftProperties.HalfLevel | fft/fft.cpp:73-75 | one level down, r is halved and is still a power of two |
| FftProperties.Bases | fft/fft.cpp:62-65 | the base positions of a level's calls, one per call |
| FftProperties.LevelIndex | fft/fft.cpp:73-75 | call i at depth d is a call of the even subtree for i < 2^(d-1), and a call of the odd subtree otherwise |
| FftProperties.LevelShape | fft/fft.cpp:60-65 | call i at depth d has stride stride*2^d, size r/2^d, and base base + stride*bitrev(i, d) |
| FftProperties.ShapeStep | fft/fft.cpp:73-75 | the shape of a child call, expressed in terms of its parent |
| FftProperties.BitRevBound | fft/fft.cpp:62-63 | the d-bit reversal of i < 2^d is below 2^d |
| FftProperties.BitRevInjective | fft/fft.cpp:62-63 | distinct indices have distinct bit reversals |
| FftProperties.BitRevOnto | fft/fft.cpp:62-63 | every position below 2^d is the bit reversal of some index |
| FftProperties.LevelInvariant | fft/fft.cpp:60-61 | at depth d there are 2^d calls, each with stride 2^d and r * stride == n |
| FftProperties.Leaf | fft/fft.cpp:66-69 | at depth log2 n every call has r == 1 and reads position bitrev(i) < n |
| FftProperties.LeavesReadEachPositionOnce | fft/fft.cpp:60-69 | the n leaves of the recursion read pairwise distinct positions, and every position in [0, n) is read by some leaf |
| FftProperties.ButterflyRelations | fft/fft.cpp:81-82 | fhat[j] + fhat[j+h] == 2 evenhat[j], and fhat[j] - fhat[j+h] == 2 Wn^j oddhat[j] |
| FftProperties.ThetaOpposite | fft/fft.cpp:78 | the inverse direction's angle is the negation of the forward angle |
| FftProperties.InverseIsForwardWithNegatedAngle | fft/fft.cpp:78-79 | the inverse-direction transform is the forward transform with exp(i theta) replaced by exp(-i theta) |
| FftProperties.IfftIsFftWithNegatedAngle | fft/fft.cpp:49-57 | ifft differs from fft only in the sign of the twiddle angle |
| FftProperties.LinComb | fft/fft.cpp:59-89 | a linear combination a f + b g keeps the length |
| FftProperties.CombineLinear | fft/fft.cpp:80-84 | the butterfly commutes with linear combinations |
| FftProperties.HalvesOfLinComb | fft/fft.cpp:73-75 | taking the even or odd half commutes with linear combinations |
| FftProperties.TransformLinear | fft/fft.cpp:59-89 | the recursive transform is linear: T(a f + b g) == a T(f) + b T(g) |
| FftProperties.FftLinear | fft/fft.cpp:39-47 | fft, scaling included, is linear |
| FftProperties.SingleElement | fft/fft.cpp:66-69 | fft and ifft of a one-element input return that element |
| FftProperties.CombineOfOne | fft/fft.cpp:80-84 | the butterfly of two one-element halves is [x + y, x - y] |
| FftProperties.TransformOfTwo | fft/fft.cpp:66-84 | the transform of [x0, x1] is [x0 + x1, x0 - x1] in either direction |
| FftProperties.TransformOfFour | fft/fft.cpp:71-84 | the four outputs of the transform of a four-element input, in terms of the twiddle of size 4 |
| FftProperties.TransformConstantOfFour | fft/fft.cpp:71-84 | the forward transform of [1, 1, 1, 1] before scaling is [4, 0, 0, 0], whatever the twiddle |
| FftProperties.TransformImpulseOfFour | fft/fft.cpp:71-84 | in either direction, the transform of [x, 0, 0, 0] before scaling is [x, x, x, x], whatever the twiddle |
| FftProperties.ConstantInputOfFour | fft/fft.cpp:23-29 | on the program's demonstration input [1, 1, 1, 1], fft returns [2, 0, 0, 0] |
| FftProperties.ImpulseOfFour | fft/fft.cpp:39-47 | fft of the unit impulse of size 4 is [0.5, 0.5, 0.5, 0.5] |
| FftProperties.InverseOfConstantOutput | fft/fft.cpp:49-57 | ifft([2, 0, 0, 0]) == [1, 1, 1, 1], whatever the twiddle |
| FftProperties.DemoRoundTrip | fft/fft.cpp:23-32 | on the demonstration input f == [1, 1, 1, 1], main's ifft(fft(f)) gives back f |
| ComplexArith.MulAssoc | fft/fft.cpp:81-83 | (helper, a ring law) complex multiplication, used for W*oddhat[j] and W *= Wn, is associative |
| ComplexArith.MulDistAdd | fft/fft.cpp:81 | (helper, a ring law) multiplication distributes over the butterfly's sum |
| ComplexArith.MulDistSub | fft/fft.cpp:82 | (helper, a ring law) multiplication distributes over the butterfly's difference |
| Interest.PowAdd | finance/metric/interest.py:22-23 | (helper, a power law) x^(i+j) == x^i x^j |
| Interest.PowMul | finance/metric/interest.py:18-23 | (helper, a power law) (x^i)^j == x^(i j) |
| Interest.Bernoulli | finance/metric/interest.py:18-23 | (helper, Bernoulli's inequality) (1 + x)^k >= 1 + k x for x >= -1 |
| Interest.PowMonotone | finance/metric/interest.py:18-23 | (helper, a power law) x^k is monotone in x for x >= 0 |
| Interest.Pow | finance/metric/interest.py:20-23 | `**` with a whole exponent, as a product of k factors; its laws are PowAdd, PowMul, PowNonZero, PowPositive, PowOfOne and PowMonotone |
| Interest.PowNonZero | finance/metric/interest.py:20-23 | (helper, a power law) a power of a non-zero base is non-zero |
| Interest.AccrueOnePer | finance/metric/interest.py:13-16 | 1 + r/m is at least 1 for r >= 0 and non-negative for r >= -m |
| Interest.PeriodRate | finance/metric/interest.py:13-16 | the period rate accrue_one_per - 1, taken m times, is the annual rate r |
| Interest.AccrueOneYear | finance/metric/interest.py:18-20 | (1 + r/m)^m is at least 1 + r for r >= -m; it is exactly 1 + r when m == 1; it is zero exactly when accrue_one_per is zero |
| Interest.Effective | finance/metric/interest.py:7-11 | effective(r, m) == accrue_one_year(r, m) - 1; it is at least r for r >= -m; it equals r when m == 1 |
| Interest.Accrue | finance/metric/interest.py:22-23 | accrue(r, n, m) is m n compounding periods, (1 + r/m)^(m n); for r >= 0 it is at least 1 + n r |
| Interest.AccrueAdditive | finance/metric/interest.py:22-23 | accrue(r, 0, m) == 1, and accrue(r, a + b, m) == accrue(r, a, m) accrue(r, b, m) |
| Interest.EffectiveRateEquivalent | finance/metric/interest.py:7-11 | compounding the effective rate once a year gives the same growth as compounding r m times a year, for one year and for n years |
| Interest.AccrueMonotone | finance/metric/interest.py:22-23 | accrue is monotone in the rate for rates >= -m |
| Detflow.Discounted | finance/metric/detflow.py:15-17 | the accumulation sum of w[i] / a^i of the loops; at factor 1 it is the plain sum |
| Detflow.DiscountedOfOne | finance/metric/detflow.py:15-16 | a single payment, at index 0, is not discounted |
| Detflow.PresValue | finance/metric/detflow.py:10-18 | pres_val discounts by accrue_one_year; a one-payment flow is worth its payment |
| Detflow.DurationValue | finance/metric/detflow.py:29-39 | what duration computes; a flow paying only at time 0 has duration 0 |
| Detflow.ConvexityValue | finance/metric/detflow.py:41-50 | what convexity computes; a flow paying only at time 0 has convexity 0 |
| Detflow.PortfolioPresVal | finance/metric/detflow.py:52-54 | sum(P); non-negative when every present value is |
| Detflow.SumNonNegative | finance/metric/detflow.py:54 | a sum of non-negative values is non-negative |
| Detflow.PortfolioDuration | finance/metric/detflow.py:56-60 | the present-value-weighted average of the durations: times sum(P) it gives back P @ D |
| Detflow.PortfolioConvexity | finance/metric/detflow.py:62-66 | the present-value-weighted average of the convexities: times sum(P) it gives back P @ C |
| Detflow.DiscountedSnoc | finance/metric/detflow.py:15-17 | discounting one more payment adds that payment over a^k |
| Detflow.PresVal | finance/metric/detflow.py:10-18 | the loop computes the sum of c[i] / accrue_one_year(r, m)^i; its invariant keeps discount == accrue_one_year^k and pv equal to the discounted prefix |
| Detflow.DurationWeights | finance/metric/detflow.py:36 | one duration weight (i/m) c[i] per payment |
| Detflow.ConvexityWeights | finance/metric/detflow.py:47 | one convexity weight i (i + 1) c[i] / m^2 per payment |
| Detflow.Duration | finance/metric/detflow.py:29-39 | duration equals the sum of (i/m) c[i] / accrue_one_per^i (the i == 0 term is 0), divided by the present value |
| Detflow.DurationLoop | finance/metric/detflow.py:34-37 | the loop from i = 1 computes the duration weights discounted by accrue_one_per^i; c[0] contributes nothing |
| Detflow.DurationStep | finance/metric/detflow.py:35-37 | one iteration extends the discounted prefix by one weight, and discount moves on to the next power |
| Detflow.DurationTerm | finance/metric/detflow.py:36 | the loop's term (i/m) c[i] / discount is duration weight i over discount |
| Detflow.Convexity | finance/metric/detflow.py:41-50 | convexity equals the sum of i (i + 1) c[i] / (m^2 accrue_one_per^i) (the i == 0 term is 0), divided by the present value times accrue_one_per^2 |
| Detflow.ConvexityLoop | finance/metric/detflow.py:45-48 | the loop from i = 1 computes the convexity weights discounted by accrue_one_per^i |
| Detflow.ConvexityStep | finance/metric/detflow.py:46-48 | one iteration extends the discounted prefix by one weight, and discount moves on to the next power |
| Detflow.ConvexityTerm | finance/metric/detflow.py:47 | the loop's term i (i + 1) c[i] / (m^2 discount) is convexity weight i over discount |
| Detflow.BondFlow | finance/metric/detflow.py:68-79 | the bond's flow has years + 1 entries |
| Detflow.BondFlowAt | finance/metric/detflow.py:74-79 | entry i is coupon/m for 1 <= i, plus fv at i == years; for years == 0 the flow is [fv], so index 0 gets the face value |
| Detflow.BondCashFlow | finance/metric/detflow.py:68-79 | the index-by-index fill returns that flow; a negative years (an IndexError in the source) gives None |
| DetflowProperties.AddFlows | finance/metric/detflow.py:52-54 | the elementwise sum of two flows keeps their length |
| DetflowProperties.DiscountedAdd | finance/metric/detflow.py:15-17 | discounting is additive over flows |
| DetflowProperties.DiscountedScale | finance/metric/detflow.py:15-17 | discounting commutes with scaling a flow |
| DetflowProperties.DiscountedScaleStep | finance/metric/detflow.py:15-17 | the induction step of DiscountedScale: from a flow without its last payment to the whole flow |
| DetflowProperties.DiscountedMonotone | finance/metric/detflow.py:15-17 | with a positive factor, a flow that pays no more in every period has no greater discounted value |
| DetflowProperties.DiscountedOfZeros | finance/metric/detflow.py:15-17 | a flow of zeros has discounted value 0 |
| DetflowProperties.DiscountedOfLast | finance/metric/detflow.py:15-17 | a flow that pays only at its last index n is worth that payment over a^n |
| DetflowProperties.PresValueAtZeroRate | finance/metric/detflow.py:13-17 | pres_val([]) == 0, and pres_val(c, 0, m) == sum(c) |
| DetflowProperties.PresValueLinear | finance/metric/detflow.py:10-18 | present value is additive over flows and commutes with scaling a flow |
| DetflowProperties.PresValueNonNegative | finance/metric/detflow.py:10-18 | a flow with non-negative payments has non-negative present value when accrue_one_year > 0 |
| DetflowProperties.AnnualDiscountsAgree | finance/metric/detflow.py:34-37 | with m == 1, duration's per-period discount accrue_one_per^k equals pres_val's accrue_one_year^k |
| DetflowProperties.DurationWithinMaturity | finance/metric/detflow.py:29-39 | for m == 1, r > -1 and non-negative payments, duration lies in [0, len(c) - 1] |
| DetflowProperties.WeightedWithinMaturity | finance/metric/detflow.py:35-37 | with m == 1 and non-negative payments, the discounted time-weighted flow lies between 0 and len(c) - 1 times the discounted flow |
| DetflowProperties.BondFlowExtend | finance/metric/detflow.py:75-78 | a bond one year longer appends one payment coupon/m + fv to the flow of the shorter bond without face value |
| DetflowProperties.BondFlowScaling | finance/metric/detflow.py:68-79 | scaling both the coupon and the face value by x scales the whole flow by x |
| DetflowProperties.FaceValueAloneDoesNotScale | finance/metric/detflow.py:72-79 | scaling only the face value does not scale the flow by x, once x != 1 and there is a non-zero coupon before maturity, since that coupon stays coupon/m |
| DetflowProperties.ZeroCouponFlow | finance/metric/detflow.py:75-78 | a zero-coupon bond's flow is zero except for fv at index years |
| DetflowProperties.ZeroCouponPresValue | finance/metric/detflow.py:10-18 | a zero-coupon bond is worth fv / accrue(r, years, m) |
| DetflowProperties.ZeroCouponWeighted | finance/metric/detflow.py:34-37 | a weighted flow that pays only k fv at index years is worth k fv / a^years |
| DetflowProperties.ZeroCouponDurationParts | finance/metric/detflow.py:29-39 | for m == 1, the zero-coupon bond's present value is fv / (1 + r)^years, and its weighted sum is years fv / (1 + r)^years |
| DetflowProperties.ZeroCouponDuration | finance/metric/detflow.py:29-39 | for m == 1, a zero-coupon bond's duration is its maturity in years |
| DetflowProperties.AnnualFactors | finance/metric/interest.py:13-23 | with m == 1, accrue_one_per == accrue_one_year == 1 + r, and accrue(r, years, 1) == (1 + r)^years |
| DetflowProperties.AnnuityValue | finance/metric/detflow.py:76-77 | k coupons of an annuity, discounted at a == 1 + r, satisfy r v == coupon (1 - 1/a^k) |
| DetflowProperties.AnnuityExtend | finance/metric/detflow.py:76-77 | the induction step of AnnuityValue, from k - 1 coupons to k |
| DetflowProperties.AnnuityNext | finance/metric/detflow.py:15-17 | a stream one payment longer gains s[k] / a^k |
| DetflowProperties.ParBond | finance/metric/detflow.py:68-79 | a bond whose annual coupon rate equals the yield (coupon r fv, m == 1) is priced at par: pres_val == fv |
| DetflowProperties.ParBondAtZeroRate | finance/metric/detflow.py:75-78 | at a zero rate, the par bond's flow sums to fv |
| DetflowProperties.ParBondAtRate | finance/metric/detflow.py:75-78 | at a non-zero rate r != -1, the par bond's flow discounted at 1 + r is fv |
| DetflowProperties.ParBondSplit | finance/metric/detflow.py:75-78 | the par bond's flow is 0 at index 0, r fv at the coupons, and r fv + fv at maturity |
| DetflowProperties.ParCoupons | finance/metric/detflow.py:76-77 | the coupons of a par bond before maturity, discounted, satisfy the annuity identity |
| DetflowProperties.DotBounds | finance/metric/detflow.py:56-66 | with non-negative weights and lo <= x[i] <= hi, lo sum(P) <= P @ x <= hi sum(P) |
| DetflowProperties.PortfolioAverageBounds | finance/metric/detflow.py:56-66 | with non-negative present values, portfolio duration and convexity lie between the smallest and largest security values |
| DetflowProperties.PortfolioUniform | finance/metric/detflow.py:56-66 | if every security has the same duration (or convexity) v, so does the portfolio |
| DetflowProperties.DotUniform | finance/metric/detflow.py:60 | a dot product with a constant vector v is v sum(P) |
| DetflowProperties.PortfolioOfTwoFlows | finance/metric/detflow.py:52-66 | for two flows: the portfolio present value, duration and convexity equal pres_val, duration and convexity of the summed flow |
| DetflowProperties.PresValueOfTwo | finance/metric/detflow.py:52-54 | portfolio_pres_val of two flows' present values is the present value of their sum |
| DetflowProperties.DurationOfTwo | finance/metric/detflow.py:56-60 | portfolio_duration of two flows is the duration of their sum |
| DetflowProperties.ConvexityOfTwo | finance/metric/detflow.py:62-66 | portfolio_convexity of two flows is the convexity of their sum |
| DetflowProperties.ConvexityValueParts | finance/metric/detflow.py:49 | convexity is the discounted convexity-weighted flow over pres_val times accrue_one_per^2 |
| DetflowProperties.DurationWeightsAdd | finance/metric/detflow.py:36 | the duration weights of a sum of flows are the sums of their weights |
| DetflowProperties.ConvexityWeightsAdd | finance/metric/detflow.py:47 | the convexity weights of a sum of flows are the sums of their weights |
| DetflowProperties.SumDotOfTwo | finance/metric/detflow.py:54-60 | (helper) sum and dot product of two-element vectors |

## Left out

- `main` and `printFft` (fft/fft.cpp:21-37, 91-95) do console output on a fixed input. What `main` computes on that input is stated: `ConstantInputOfFour` gives fft(f) and `DemoRoundTrip` gives ifft(fft(f)).
- Floating point is not modelled.
  - The FFT works over exact complex reals, and the finance functions over `real`.
  - Rounding, overflow, `inf` and `nan` are not represented.
- `PI = acos(-1)`, `std::exp(theta_n * i)` and `std::sqrt(n)` are parameters, not computed values.
  - The model assumes nothing of `expI` beyond being a function, and of `root` beyond `root > 0` and `root * root == n`.
  - So neither the round trip `ifft(fft(f)) == f` nor the l2 norm claim (fft/fft.cpp:41-42) is proved. Both need root-of-unity identities.
- The power-of-two size is a precondition of `Fft`, `Ifft` and `FftHelper`.
  - The code checks nothing, and the model follows the code.
  - For other sizes n >= 1 the code stays in bounds, but it does not compute a DFT. In a call of odd size r >= 3 both halves have size (r - 1) / 2, so the call's last element is never read, and slot r - 1 of its output is never written and keeps the (0, 0) that `new` gives it. For example, n == 3 never reads f[2] and returns 0 in slot 2.
  - For n == 0 the recursion never ends, since r / 2 == 0 at fft/fft.cpp:73. A negative n makes `new[]` fail.
- Buffer allocation and `delete` (fft/fft.cpp:67, 71, 85-86, 33-34) are not modelled. Results are fresh arrays, and the leak of the original `f` in `main` is ignored.
- `ytm` (finance/metric/detflow.py:20-27) delegates to scipy's `fsolve`, a foreign root finder.
- finance/scripts/immunize.py is not part of this model. It is a driver script over `numpy.linalg.solve` and `print`.
- The comment at finance/metric/detflow.py:72-73 says face value x equals face value 1 scaled by x. The code adds x only to the last payment and leaves the coupons unscaled, so the comment is not a property of the code. `FaceValueAloneDoesNotScale` proves that the claim fails whenever there is a non-zero coupon before maturity. `BondFlowScaling` proves the form that does hold, where the coupon is scaled as well. The model follows the code.
- `bond_cash_flow` with `years == 0` returns `[face_value]`, despite the comment at finance/metric/detflow.py:74 that c0 is 0. The model follows the code, and `BondFlowAt` states it.
- Division by zero is excluded by `requires`, where the source would raise `ZeroDivisionError` or return `inf`/`nan`:
  - `m >= 1`;
  - `accrue_one_year != 0` or `accrue_one_per != 0` once a discount is used;
  - a non-zero present value in `duration` and `convexity`;
  - a non-zero `sum(P)` in the portfolio functions.
- `Detflow.Duration`, `Detflow.Convexity`, `Detflow.PresVal`: these take `c` as a sequence of reals. Python's dynamic typing, and numpy arrays as input, are not modelled.
- `Detflow.BondCashFlow`: a negative `years` raises `IndexError` in the source (`c[years]` on an empty list). The model returns `None` for it.
- `m` is a natural number, so non-integer compounding counts are not modelled.
- `Interest.Accrue`: the number of years `n` is a natural number. Python's `accrue` also accepts fractional and negative `n`, where `**` gives a real power or a reciprocal; those are not modelled.
- Default arguments are not modelled. `m = 1` in `pres_val`, `duration`, `convexity` and `accrue` (finance/metric/detflow.py:10, 29, 41; finance/metric/interest.py:22) and `face_value = 1` in `bond_cash_flow` (finance/metric/detflow.py:68) are explicit parameters in the model. The defaults are the instances with m == 1 or fv == 1.
