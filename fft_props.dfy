/** Properties of the FFT engine of fft/fft.cpp: the shape of its recursion,
    the butterfly relations, the role of the direction, linearity, and the
    values it gives on small inputs. */
module FftProperties {
  import opened ComplexArith
  import opened Fft

  // ---------------------------------------------------------------------------
  // The call tree of fftHelper

  /** A call fftHelper(f + base, r, stride, dir). */
  datatype Call = Call(base: nat, r: nat, stride: nat)

  /** The calls at depth d below c, left to right: at each level the even
      sub-call (same base, doubled stride, half size) comes before the odd one
      (base advanced by one stride). */
  function Level(c: Call, d: nat): (calls: seq<Call>)
    requires IsPowerOfTwo(c.r) && Pow2(d) <= c.r
    ensures |calls| == Pow2(d)
    decreases d
  {
    if d == 0 then [c]
    else
      HalfLevel(c.r, d);
      Level(Call(c.base, c.r / 2, 2 * c.stride), d - 1)
        + Level(Call(c.base + c.stride, c.r / 2, 2 * c.stride), d - 1)
  }

  /** One level down, the size is still a power of two and still has room
      for d - 1 further halvings. */
  lemma HalfLevel(r: nat, d: nat)
    requires IsPowerOfTwo(r) && Pow2(d) <= r && d >= 1
    ensures IsPowerOfTwo(r / 2) && Pow2(d - 1) <= r / 2
  {
    assert Pow2(d) == 2 * Pow2(d - 1);
  }

  /** The base position of each call in a list of calls. */
  function Bases(calls: seq<Call>): (b: seq<nat>)
    ensures |b| == |calls|
  {
    seq(|calls|, i requires 0 <= i < |calls| => calls[i].base)
  }

  /** The d-bit reversal of i: the top bit of i (the choice made at the first
      level, 1 for the odd sub-call) becomes the lowest bit of the result. */
  function BitRev(i: nat, d: nat): nat
    requires i < Pow2(d)
    decreases d
  {
    if d == 0 then 0
    else if i < Pow2(d - 1) then 2 * BitRev(i, d - 1)
    else 1 + 2 * BitRev(i - Pow2(d - 1), d - 1)
  }

  /** The i-th call at depth d is the i-th call at depth d - 1 of the even
      sub-call when i < 2^(d-1), and otherwise one of the odd sub-call. */
  lemma LevelIndex(c: Call, d: nat, i: nat)
    requires IsPowerOfTwo(c.r) && Pow2(d) <= c.r && i < Pow2(d) && d >= 1
    ensures IsPowerOfTwo(c.r / 2) && Pow2(d - 1) <= c.r / 2
    ensures i < Pow2(d - 1) ==> Level(c, d)[i] == Level(Call(c.base, c.r / 2, 2 * c.stride), d - 1)[i]
    ensures i >= Pow2(d - 1) ==>
      Level(c, d)[i] == Level(Call(c.base + c.stride, c.r / 2, 2 * c.stride), d - 1)[i - Pow2(d - 1)]
  {
    HalfLevel(c.r, d);
  }

  /** The i-th call at depth d of a call c has stride c.stride * 2^d, size
      c.r / 2^d (still a power of two), and starts at c.base + c.stride *
      BitRev(i, d): the offsets of a level are the bit-reversed indices. */
  lemma {:induction false} LevelShape(c: Call, d: nat, i: nat)
    requires IsPowerOfTwo(c.r) && Pow2(d) <= c.r && i < Pow2(d)
    ensures Level(c, d)[i].base == c.base + c.stride * BitRev(i, d)
    ensures Level(c, d)[i].stride == c.stride * Pow2(d)
    ensures Level(c, d)[i].r * Pow2(d) == c.r
    ensures IsPowerOfTwo(Level(c, d)[i].r)
    decreases d
  {
    if d > 0 {
      var p := Pow2(d - 1);
      LevelIndex(c, d, i);
      var x := Level(c, d)[i];
      if i < p {
        LevelShape(Call(c.base, c.r / 2, 2 * c.stride), d - 1, i);
        ShapeStep(c, x, 0, BitRev(i, d - 1), p);
      } else {
        LevelShape(Call(c.base + c.stride, c.r / 2, 2 * c.stride), d - 1, i - p);
        ShapeStep(c, x, 1, BitRev(i - p, d - 1), p);
      }
    }
  }

  /** One step of LevelShape: a call x found at depth d - 1 below the child
      with offset t (0 for the even child, 1 for the odd one) of c. */
  lemma ShapeStep(c: Call, x: Call, t: nat, b: nat, p: nat)
    requires IsPowerOfTwo(c.r) && c.r >= 2
    requires x.base == c.base + t * c.stride + (2 * c.stride) * b
    requires x.stride == (2 * c.stride) * p
    requires x.r * p == c.r / 2
    ensures x.base == c.base + c.stride * (t + 2 * b)
    ensures x.stride == c.stride * (2 * p)
    ensures x.r * (2 * p) == c.r
  {
    StepArith(c.stride, t, b, p, x.r);
  }

  /** The products met in one step of LevelShape. */
  lemma StepArith(s: int, t: int, b: int, p: int, r: int)
    ensures s * (t + 2 * b) == t * s + (2 * s) * b
    ensures (2 * s) * p == s * (2 * p)
    ensures r * (2 * p) == 2 * (r * p)
  {
  }

  lemma {:induction false} BitRevBound(i: nat, d: nat)
    requires i < Pow2(d)
    ensures BitRev(i, d) < Pow2(d)
    decreases d
  {
    if d > 0 {
      if i < Pow2(d - 1) {
        BitRevBound(i, d - 1);
      } else {
        BitRevBound(i - Pow2(d - 1), d - 1);
      }
    }
  }

  /** Distinct indices have distinct reversals. */
  lemma {:induction false} BitRevInjective(i: nat, j: nat, d: nat)
    requires i < Pow2(d) && j < Pow2(d)
    requires BitRev(i, d) == BitRev(j, d)
    ensures i == j
    decreases d
  {
    if d > 0 {
      var p := Pow2(d - 1);
      if i < p && j < p {
        BitRevInjective(i, j, d - 1);
      } else if i >= p && j >= p {
        BitRevInjective(i - p, j - p, d - 1);
      }
    }
  }

  /** Every value below 2^d is the reversal of some index. */
  lemma {:induction false} BitRevOnto(t: nat, d: nat) returns (i: nat)
    requires t < Pow2(d)
    ensures i < Pow2(d) && BitRev(i, d) == t
    decreases d
  {
    if d == 0 {
      i := 0;
    } else if t % 2 == 0 {
      i := BitRevOnto(t / 2, d - 1);
    } else {
      var k := BitRevOnto(t / 2, d - 1);
      i := Pow2(d - 1) + k;
    }
  }

  /** For a whole transform of size n = 2^d: depth d' has 2^d' calls, each with
      stride 2^d' and r * stride == n. */
  lemma LevelInvariant(n: nat, d: nat, i: nat)
    requires IsPowerOfTwo(n) && Pow2(d) <= n && i < Pow2(d)
    ensures |Level(Call(0, n, 1), d)| == Pow2(d)
    ensures Level(Call(0, n, 1), d)[i].stride == Pow2(d)
    ensures Level(Call(0, n, 1), d)[i].r * Level(Call(0, n, 1), d)[i].stride == n
  {
    LevelShape(Call(0, n, 1), d, i);
  }

  /** The i-th call at depth d == log2 n is a base case reading BitRev(i, d). */
  lemma Leaf(n: nat, d: nat, i: nat)
    requires IsPowerOfTwo(n) && Pow2(d) == n && i < n
    ensures Level(Call(0, n, 1), d)[i].r == 1
    ensures Level(Call(0, n, 1), d)[i].base == BitRev(i, d) < n
  {
    LevelShape(Call(0, n, 1), d, i);
    BitRevBound(i, d);
    var x := Level(Call(0, n, 1), d)[i];
    UnitFactor(x.r, n);
  }

  lemma UnitFactor(a: int, n: int)
    requires n >= 1 && a >= 0 && a * n == n
    ensures a == 1
  {
    assert (a - 1) * n == 0;
  }

  /** The recursion bottoms out after log2 n levels: the n calls at depth
      log2 n are base cases (r == 1), each reads one position below n, and
      together they read every position of the input exactly once. */
  lemma LeavesReadEachPositionOnce(n: nat)
    requires IsPowerOfTwo(n)
    ensures |Level(Call(0, n, 1), Log2(n))| == n
    ensures forall i :: 0 <= i < n ==>
      Level(Call(0, n, 1), Log2(n))[i].r == 1 && Level(Call(0, n, 1), Log2(n))[i].base < n
    ensures forall i, j :: 0 <= i < j < n ==>
      Bases(Level(Call(0, n, 1), Log2(n)))[i] != Bases(Level(Call(0, n, 1), Log2(n)))[j]
    ensures forall p :: 0 <= p < n ==> p in Bases(Level(Call(0, n, 1), Log2(n)))
  {
    var d := Log2(n);
    var leaves := Level(Call(0, n, 1), d);
    forall i | 0 <= i < n
      ensures leaves[i].r == 1 && leaves[i].base < n && leaves[i].base == BitRev(i, d)
    {
      Leaf(n, d, i);
    }
    forall i, j | 0 <= i < j < n
      ensures Bases(leaves)[i] != Bases(leaves)[j]
    {
      if BitRev(i, d) == BitRev(j, d) {
        BitRevInjective(i, j, d);
      }
    }
    forall p | 0 <= p < n
      ensures p in Bases(leaves)
    {
      var i := BitRevOnto(p, d);
      assert Bases(leaves)[i] == p;
    }
  }

  // ---------------------------------------------------------------------------
  // The butterfly

  /** Under exact arithmetic the two outputs of one butterfly add up to twice
      the even input and differ by twice the twiddled odd input. */
  lemma ButterflyRelations(even: seq<Complex>, odd: seq<Complex>, wn: Complex, j: nat)
    requires |even| == |odd| && j < |even|
    ensures Add(Combine(even, odd, wn)[j], Combine(even, odd, wn)[j + |even|]) == Scale(2.0, even[j])
    ensures Sub(Combine(even, odd, wn)[j], Combine(even, odd, wn)[j + |even|]) == Scale(2.0, Mul(Power(wn, j), odd[j]))
  {
    var h := |even|;
    var out := Combine(even, odd, wn);
    var t := Mul(Power(wn, j), odd[j]);
    assert out[j] == Add(even[j], t);
    assert (j + h) - h == j;
    assert out[j + h] == Sub(even[j], t);
  }

  // ---------------------------------------------------------------------------
  // Direction

  /** The two directions give opposite angles for every sub-problem size. */
  lemma ThetaOpposite(r: nat, pi: real)
    requires r >= 1
    ensures Theta(Inverse, r, pi) == -Theta(Fwd, r, pi)
  {
  }

  /** The direction enters only as the sign of theta_n: the inverse transform
      is the forward one computed with theta |-> expI(-theta). */
  lemma {:induction false} InverseIsForwardWithNegatedAngle(xs: seq<Complex>, pi: real, expI: real -> Complex)
    requires IsPowerOfTwo(|xs|)
    ensures Transform(xs, Inverse, pi, expI) == Transform(xs, Fwd, pi, t => expI(-t))
    decreases |xs|
  {
    if |xs| > 1 {
      InverseIsForwardWithNegatedAngle(Evens(xs), pi, expI);
      InverseIsForwardWithNegatedAngle(Odds(xs), pi, expI);
      var neg := (t: real) => expI(-t);
      var theta := Theta(Fwd, |xs|, pi);
      assert Theta(Inverse, |xs|, pi) == -theta;
      assert neg(theta) == expI(-theta);
      assert Twiddle(Inverse, |xs|, pi, expI) == Twiddle(Fwd, |xs|, pi, neg);
    }
  }

  /** ifft is fft with the angle negated. */
  lemma IfftIsFftWithNegatedAngle(f: seq<Complex>, root: real, pi: real, expI: real -> Complex)
    requires IsPowerOfTwo(|f|)
    requires root > 0.0 && root * root == |f| as real
    ensures IfftOf(f, root, pi, expI) == FftOf(f, root, pi, t => expI(-t))
  {
    InverseIsForwardWithNegatedAngle(f, pi, expI);
  }

  // ---------------------------------------------------------------------------
  // Linearity

  /** The sequence a * f + b * g. */
  function LinComb(a: Complex, f: seq<Complex>, b: Complex, g: seq<Complex>): (h: seq<Complex>)
    requires |f| == |g|
    ensures |h| == |f|
  {
    seq(|f|, k requires 0 <= k < |f| => Add(Mul(a, f[k]), Mul(b, g[k])))
  }

  lemma CombinePointLinear(a: Complex, b: Complex, e1: Complex, o1: Complex, e2: Complex, o2: Complex, w: Complex)
    ensures Add(Add(Mul(a, e1), Mul(b, e2)), Mul(w, Add(Mul(a, o1), Mul(b, o2))))
         == Add(Mul(a, Add(e1, Mul(w, o1))), Mul(b, Add(e2, Mul(w, o2))))
    ensures Sub(Add(Mul(a, e1), Mul(b, e2)), Mul(w, Add(Mul(a, o1), Mul(b, o2))))
         == Add(Mul(a, Sub(e1, Mul(w, o1))), Mul(b, Sub(e2, Mul(w, o2))))
  {
    MulLinear(w, a, o1, b, o2);
    MulDistAdd(a, e1, Mul(w, o1));
    MulDistAdd(b, e2, Mul(w, o2));
    MulDistSub(a, e1, Mul(w, o1));
    MulDistSub(b, e2, Mul(w, o2));
  }

  /** The butterfly commutes with linear combinations. */
  lemma CombineLinear(a: Complex, b: Complex, e1: seq<Complex>, o1: seq<Complex>, e2: seq<Complex>, o2: seq<Complex>, wn: Complex)
    requires |e1| == |o1| == |e2| == |o2|
    ensures Combine(LinComb(a, e1, b, e2), LinComb(a, o1, b, o2), wn)
         == LinComb(a, Combine(e1, o1, wn), b, Combine(e2, o2, wn))
  {
    var h := |e1|;
    var lhs := Combine(LinComb(a, e1, b, e2), LinComb(a, o1, b, o2), wn);
    var rhs := LinComb(a, Combine(e1, o1, wn), b, Combine(e2, o2, wn));
    forall k | 0 <= k < 2 * h
      ensures lhs[k] == rhs[k]
    {
      var j := if k < h then k else k - h;
      CombinePointLinear(a, b, e1[j], o1[j], e2[j], o2[j], Power(wn, j));
    }
  }

  lemma HalvesOfLinComb(a: Complex, f: seq<Complex>, b: Complex, g: seq<Complex>)
    requires |f| == |g|
    ensures Evens(LinComb(a, f, b, g)) == LinComb(a, Evens(f), b, Evens(g))
    ensures Odds(LinComb(a, f, b, g)) == LinComb(a, Odds(f), b, Odds(g))
  {
  }

  /** The transform is linear: T(a f + b g) == a T(f) + b T(g). */
  lemma {:induction false} TransformLinear(a: Complex, f: seq<Complex>, b: Complex, g: seq<Complex>, dir: Direction, pi: real, expI: real -> Complex)
    requires |f| == |g| && IsPowerOfTwo(|f|)
    ensures Transform(LinComb(a, f, b, g), dir, pi, expI)
         == LinComb(a, Transform(f, dir, pi, expI), b, Transform(g, dir, pi, expI))
    decreases |f|
  {
    if |f| > 1 {
      HalvesOfLinComb(a, f, b, g);
      TransformLinear(a, Evens(f), b, Evens(g), dir, pi, expI);
      TransformLinear(a, Odds(f), b, Odds(g), dir, pi, expI);
      CombineLinear(a, b,
        Transform(Evens(f), dir, pi, expI), Transform(Odds(f), dir, pi, expI),
        Transform(Evens(g), dir, pi, expI), Transform(Odds(g), dir, pi, expI),
        Twiddle(dir, |f|, pi, expI));
    }
  }

  /** fft(a f + b g) == a fft(f) + b fft(g). */
  lemma FftLinear(a: Complex, f: seq<Complex>, b: Complex, g: seq<Complex>, root: real, pi: real, expI: real -> Complex)
    requires |f| == |g| && IsPowerOfTwo(|f|)
    requires root > 0.0 && root * root == |f| as real
    ensures FftOf(LinComb(a, f, b, g), root, pi, expI)
         == LinComb(a, FftOf(f, root, pi, expI), b, FftOf(g, root, pi, expI))
  {
    var n := |f|;
    TransformLinear(a, f, b, g, Fwd, pi, expI);
    var tf := Transform(f, Fwd, pi, expI);
    var tg := Transform(g, Fwd, pi, expI);
    var lhs := FftOf(LinComb(a, f, b, g), root, pi, expI);
    var rhs := LinComb(a, FftOf(f, root, pi, expI), b, FftOf(g, root, pi, expI));
    forall k | 0 <= k < n
      ensures lhs[k] == rhs[k]
    {
      DivRealLinear(a, tf[k], b, tg[k], root);
    }
  }

  lemma DivRealLinear(a: Complex, x: Complex, b: Complex, y: Complex, s: real)
    requires s != 0.0
    ensures DivReal(Add(Mul(a, x), Mul(b, y)), s) == Add(Mul(a, DivReal(x, s)), Mul(b, DivReal(y, s)))
  {
    DivTerms(a.re, x.re, a.im, x.im, b.re, y.re, b.im, y.im, s);
    DivTerms2(a.re, x.im, a.im, x.re, b.re, y.im, b.im, y.re, s);
  }

  lemma DivTerms(p: real, q: real, u: real, v: real, k: real, l: real, g: real, h: real, s: real)
    requires s != 0.0
    ensures (p * q - u * v + (k * l - g * h)) / s == p * (q / s) - u * (v / s) + (k * (l / s) - g * (h / s))
  {
    var q', v', l', h' := q / s, v / s, l / s, h / s;
    assert q == q' * s && v == v' * s && l == l' * s && h == h' * s;
    assert p * q - u * v + (k * l - g * h) == (p * q' - u * v' + (k * l' - g * h')) * s;
  }

  lemma DivTerms2(p: real, q: real, u: real, v: real, k: real, l: real, g: real, h: real, s: real)
    requires s != 0.0
    ensures (p * q + u * v + (k * l + g * h)) / s == p * (q / s) + u * (v / s) + (k * (l / s) + g * (h / s))
  {
    var q', v', l', h' := q / s, v / s, l / s, h / s;
    assert q == q' * s && v == v' * s && l == l' * s && h == h' * s;
    assert p * q + u * v + (k * l + g * h) == (p * q' + u * v' + (k * l' + g * h')) * s;
  }

  // ---------------------------------------------------------------------------
  // Small inputs

  /** n == 1: sqrt(1) == 1 and the base case copies, so fft and ifft return
      their input. */
  lemma SingleElement(x: Complex, root: real, pi: real, expI: real -> Complex)
    requires root > 0.0 && root * root == 1.0
    ensures FftOf([x], root, pi, expI) == [x]
    ensures IfftOf([x], root, pi, expI) == [x]
  {
    assert root == 1.0 by {
      assert (root - 1.0) * (root + 1.0) == 0.0;
    }
  }

  lemma CombineOfOne(x: Complex, y: Complex, w: Complex)
    ensures Combine([x], [y], w) == [Add(x, y), Sub(x, y)]
  {
    assert Power(w, 0) == One;
    assert Mul(One, y) == y;
  }

  lemma CombineOfTwo(e0: Complex, e1: Complex, o0: Complex, o1: Complex, w: Complex)
    ensures Combine([e0, e1], [o0, o1], w) == [Add(e0, o0), Add(e1, Mul(w, o1)), Sub(e0, o0), Sub(e1, Mul(w, o1))]
  {
    assert Power(w, 0) == One;
    assert Mul(One, o0) == o0;
    assert Power(w, 1) == Mul(One, w) == w;
  }

  /** A transform of size 2 is the plain butterfly [x + y, x - y]. */
  lemma TransformOfTwo(xs: seq<Complex>, dir: Direction, pi: real, expI: real -> Complex)
    requires |xs| == 2
    ensures Transform(xs, dir, pi, expI) == [Add(xs[0], xs[1]), Sub(xs[0], xs[1])]
  {
    assert IsPowerOfTwo(2);
    TransformStep(xs, dir, pi, expI);
    assert Evens(xs) == [xs[0]] && Odds(xs) == [xs[1]];
    assert Transform([xs[0]], dir, pi, expI) == [xs[0]];
    assert Transform([xs[1]], dir, pi, expI) == [xs[1]];
    CombineOfOne(xs[0], xs[1], expI(Theta(dir, 2, pi)));
  }

  /** A transform of size 4, written out: the size-2 sub-transforms of the
      even positions {0, 2} and the odd positions {1, 3} combined with the
      size-4 twiddle W. */
  lemma TransformOfFour(f: seq<Complex>, dir: Direction, pi: real, expI: real -> Complex)
    requires |f| == 4
    ensures |Transform(f, dir, pi, expI)| == 4
    ensures Transform(f, dir, pi, expI)[0] == Add(Add(f[0], f[2]), Add(f[1], f[3]))
    ensures Transform(f, dir, pi, expI)[1] == Add(Sub(f[0], f[2]), Mul(Twiddle(dir, 4, pi, expI), Sub(f[1], f[3])))
    ensures Transform(f, dir, pi, expI)[2] == Sub(Add(f[0], f[2]), Add(f[1], f[3]))
    ensures Transform(f, dir, pi, expI)[3] == Sub(Sub(f[0], f[2]), Mul(Twiddle(dir, 4, pi, expI), Sub(f[1], f[3])))
  {
    assert IsPowerOfTwo(2) && IsPowerOfTwo(4);
    TransformStep(f, dir, pi, expI);
    var ev, od := Evens(f), Odds(f);
    assert ev == [f[0], f[2]] && od == [f[1], f[3]];
    TransformOfTwo(ev, dir, pi, expI);
    TransformOfTwo(od, dir, pi, expI);
    CombineOfTwo(Add(f[0], f[2]), Sub(f[0], f[2]), Add(f[1], f[3]), Sub(f[1], f[3]), Twiddle(dir, 4, pi, expI));
  }

  lemma SqrtOfSquare(root: real, n: real)
    requires root > 0.0 && n > 0.0 && root * root == n * n
    ensures root == n
  {
    assert (root - n) * (root + n) == 0.0;
  }

  lemma NormalizeOfFour(t: seq<Complex>, root: real)
    requires |t| == 4 && root != 0.0
    ensures Normalize(t, root) == [DivReal(t[0], root), DivReal(t[1], root), DivReal(t[2], root), DivReal(t[3], root)]
  {
  }

  lemma Doubling()
    ensures Add(One, One) == Complex(2.0, 0.0)
    ensures Add(Complex(2.0, 0.0), Complex(2.0, 0.0)) == Complex(4.0, 0.0)
  {
  }

  lemma SeqOfFour(t: seq<Complex>, a: Complex, b: Complex, c: Complex, d: Complex)
    requires |t| == 4 && t[0] == a && t[1] == b && t[2] == c && t[3] == d
    ensures t == [a, b, c, d]
  {
  }

  lemma TransformConstantOfFour(f: seq<Complex>, pi: real, expI: real -> Complex)
    requires |f| == 4 && f[0] == One && f[1] == One && f[2] == One && f[3] == One
    ensures Transform(f, Fwd, pi, expI) == [Complex(4.0, 0.0), Zero, Zero, Zero]
  {
    var t := Transform(f, Fwd, pi, expI);
    var w := Twiddle(Fwd, 4, pi, expI);
    assert |t| == 4 && t[0] == Add(Add(One, One), Add(One, One)) && t[2] == Sub(Add(One, One), Add(One, One))
        && t[1] == Add(Sub(One, One), Mul(w, Sub(One, One))) && t[3] == Sub(Sub(One, One), Mul(w, Sub(One, One)))
    by {
      TransformOfFour(f, Fwd, pi, expI);
    }
    Doubling();
    SubSelf(One);
    SubSelf(Complex(2.0, 0.0));
    SubSelf(Zero);
    MulZero(w);
    SeqOfFour(t, Complex(4.0, 0.0), Zero, Zero, Zero);
  }

  /** An impulse x at position 0 spreads to every output: the transform of
      [x, 0, 0, 0] is [x, x, x, x] in either direction. */
  lemma TransformImpulseOfFour(f: seq<Complex>, x: Complex, dir: Direction, pi: real, expI: real -> Complex)
    requires |f| == 4 && f[0] == x && f[1] == Zero && f[2] == Zero && f[3] == Zero
    ensures Transform(f, dir, pi, expI) == [x, x, x, x]
  {
    var t := Transform(f, dir, pi, expI);
    assert |t| == 4 && t[0] == x && t[1] == x && t[2] == x && t[3] == x by {
      TransformOfFour(f, dir, pi, expI);
      ImpulseButterfly(x, Twiddle(dir, 4, pi, expI));
    }
    SeqOfFour(t, x, x, x, x);
  }

  /** The size-4 butterfly entries of [x, 0, 0, 0] are all x, whatever W. */
  lemma ImpulseButterfly(x: Complex, w: Complex)
    ensures Add(Add(x, Zero), Add(Zero, Zero)) == x
    ensures Add(Sub(x, Zero), Mul(w, Sub(Zero, Zero))) == x
    ensures Sub(Add(x, Zero), Add(Zero, Zero)) == x
    ensures Sub(Sub(x, Zero), Mul(w, Sub(Zero, Zero))) == x
  {
    SubSelf(Zero);
    MulZero(w);
  }

  /** fft([1, 1, 1, 1]) == [2, 0, 0, 0], whatever the twiddles. */
  lemma ConstantInputOfFour(root: real, pi: real, expI: real -> Complex)
    requires root > 0.0 && root * root == 4.0
    ensures FftOf([One, One, One, One], root, pi, expI) == [Complex(2.0, 0.0), Zero, Zero, Zero]
  {
    SqrtOfSquare(root, 2.0);
    var f := [One, One, One, One];
    TransformConstantOfFour(f, pi, expI);
    NormalizeOfFour([Complex(4.0, 0.0), Zero, Zero, Zero], 2.0);
  }

  /** fft([1, 0, 0, 0]) == [0.5, 0.5, 0.5, 0.5], whatever the twiddles. */
  lemma ImpulseOfFour(root: real, pi: real, expI: real -> Complex)
    requires root > 0.0 && root * root == 4.0
    ensures FftOf([One, Zero, Zero, Zero], root, pi, expI)
         == [Complex(0.5, 0.0), Complex(0.5, 0.0), Complex(0.5, 0.0), Complex(0.5, 0.0)]
  {
    SqrtOfSquare(root, 2.0);
    TransformImpulseOfFour([One, Zero, Zero, Zero], One, Fwd, pi, expI);
    NormalizeOfFour([One, One, One, One], 2.0);
  }

  /** ifft([2, 0, 0, 0]) == [1, 1, 1, 1], whatever the twiddles. */
  lemma InverseOfConstantOutput(root: real, pi: real, expI: real -> Complex)
    requires root > 0.0 && root * root == 4.0
    ensures IfftOf([Complex(2.0, 0.0), Zero, Zero, Zero], root, pi, expI) == [One, One, One, One]
  {
    var two := Complex(2.0, 0.0);
    SqrtOfSquare(root, 2.0);
    var t := Transform([two, Zero, Zero, Zero], Inverse, pi, expI);
    assert t == [two, two, two, two] by {
      TransformImpulseOfFour([two, Zero, Zero, Zero], two, Inverse, pi, expI);
    }
    NormalizeOfFour(t, root);
    assert DivReal(two, 2.0) == One;
  }

  /** The demonstration in main: ifft(fft([1, 1, 1, 1])) gives back
      [1, 1, 1, 1], whatever the twiddles. */
  lemma DemoRoundTrip(root: real, pi: real, expI: real -> Complex)
    requires root > 0.0 && root * root == 4.0
    ensures IfftOf(FftOf([One, One, One, One], root, pi, expI), root, pi, expI) == [One, One, One, One]
  {
    assert FftOf([One, One, One, One], root, pi, expI) == [Complex(2.0, 0.0), Zero, Zero, Zero] by {
      ConstantInputOfFour(root, pi, expI);
    }
    InverseOfConstantOutput(root, pi, expI);
  }
}
