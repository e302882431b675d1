/** The recursive radix-2 decimation-in-time FFT engine of fft/fft.cpp.

    A sub-problem is addressed, as in fftHelper, by a base position into the
    caller's buffer (the address `f`), its size `r` and a `stride`: it is the
    sequence f[base], f[base + stride], ..., f[base + (r-1)*stride].

    The twiddle factor Wn = exp(i * theta_n) and the scale sqrt(n) need
    transcendental functions, so they are parameters: `expI` stands for
    theta |-> exp(i * theta), `pi` for the constant PI, and `root` for sqrt(n)
    (a positive real whose square is n). Complex arithmetic is exact. */
module Fft {
  import opened ComplexArith

  /** fft_direction_t: fwd = 1, inverse = -1. */
  datatype Direction = Fwd | Inverse

  /** The direction as the factor +1 or -1 that theta_n is multiplied by. */
  function Sign(dir: Direction): (s: int)
    ensures s * s == 1
    ensures s > 0 <==> dir == Fwd
  {
    if dir == Fwd then 1 else -1
  }

  /** n is 2^k for some k >= 0. */
  predicate IsPowerOfTwo(n: int)
    decreases if n < 0 then 0 else n
  {
    n == 1 || (n >= 2 && n % 2 == 0 && IsPowerOfTwo(n / 2))
  }

  function Pow2(k: nat): (p: nat)
    ensures p >= 1
  {
    if k == 0 then 1 else 2 * Pow2(k - 1)
  }

  /** The number of halvings that take a power of two down to 1. */
  function Log2(n: int): (k: nat)
    requires IsPowerOfTwo(n)
    ensures Pow2(k) == n
    decreases n
  {
    if n == 1 then 0 else 1 + Log2(n / 2)
  }

  /** theta_n = dir * (-2 * PI * (1 / r)) */
  function Theta(dir: Direction, r: nat, pi: real): (t: real)
    requires r >= 1
    ensures t * (r as real) == -2.0 * (Sign(dir) as real) * pi
  {
    Sign(dir) as real * (-2.0 * pi * (1.0 / r as real))
  }

  /** Wn = exp(i * theta_n) */
  function Twiddle(dir: Direction, r: nat, pi: real, expI: real -> Complex): (w: Complex)
    requires r >= 1
    ensures dir == Inverse ==> w == expI(-Theta(Fwd, r, pi))
  {
    assert Theta(Inverse, r, pi) == -Theta(Fwd, r, pi);
    expI(Theta(dir, r, pi))
  }

  /** The butterfly: slot j < h holds even[j] + Wn^j * odd[j] and slot j + h
      holds even[j] - Wn^j * odd[j], where h is the length of each half. */
  function Combine(even: seq<Complex>, odd: seq<Complex>, wn: Complex): (c: seq<Complex>)
    requires |even| == |odd|
    ensures |c| == 2 * |even|
  {
    var h := |even|;
    seq(2 * h, k requires 0 <= k < 2 * h =>
      if k < h then Add(even[k], Mul(Power(wn, k), odd[k]))
      else Sub(even[k - h], Mul(Power(wn, k - h), odd[k - h])))
  }

  /** The arithmetic behind the bounds of the two sub-calls of a call of size r. */
  lemma SubCallBounds(r: nat, stride: nat)
    requires r >= 2 && r % 2 == 0
    ensures (r / 2 - 1) * (2 * stride) + stride == (r - 1) * stride
  {
    calc {
      (r / 2 - 1) * (2 * stride) + stride;
      (2 * (r / 2) - 2) * stride + stride;
      (r - 1) * stride;
    }
  }

  /** Position k of the even sub-call is position 2k of its parent, and
      position k of the odd sub-call is position 2k + 1. */
  lemma StrideArith(k: int, stride: int)
    ensures k * (2 * stride) == (2 * k) * stride
    ensures stride + k * (2 * stride) == (2 * k + 1) * stride
  {
  }

  lemma StrideBound(base: nat, r: nat, stride: nat, k: nat)
    requires k < r
    ensures base + k * stride <= base + (r - 1) * stride
  {
    var m: nat := r - 1 - k;
    assert (k + m) * stride == k * stride + m * stride;
    assert m * stride >= 0;
  }

  /** The r elements a call addresses in the buffer f: f[base + k * stride]. */
  function Strided(f: seq<Complex>, base: nat, r: nat, stride: nat): (xs: seq<Complex>)
    requires r >= 1 && base + (r - 1) * stride < |f|
    ensures |xs| == r
  {
    seq(r, k requires 0 <= k < r => StrideBound(base, r, stride, k); f[base + k * stride])
  }

  /** The elements at even and at odd indices. */
  function Evens(xs: seq<Complex>): (ys: seq<Complex>)
    ensures |ys| == |xs| / 2
  {
    seq(|xs| / 2, k requires 0 <= k < |xs| / 2 => xs[2 * k])
  }

  function Odds(xs: seq<Complex>): (ys: seq<Complex>)
    ensures |ys| == |xs| / 2
  {
    seq(|xs| / 2, k requires 0 <= k < |xs| / 2 => xs[2 * k + 1])
  }

  /** The even sub-call (same base, doubled stride) addresses the even-indexed
      elements of its parent, the odd sub-call (base advanced by one stride,
      doubled stride) the odd-indexed ones, and both stay inside the buffer. */
  lemma StridedHalves(f: seq<Complex>, base: nat, r: nat, stride: nat)
    requires r >= 2 && r % 2 == 0 && base + (r - 1) * stride < |f|
    ensures base + (r / 2 - 1) * (2 * stride) < |f|
    ensures base + stride + (r / 2 - 1) * (2 * stride) < |f|
    ensures Strided(f, base, r / 2, 2 * stride) == Evens(Strided(f, base, r, stride))
    ensures Strided(f, base + stride, r / 2, 2 * stride) == Odds(Strided(f, base, r, stride))
  {
    SubCallBounds(r, stride);
    var xs := Strided(f, base, r, stride);
    forall k | 0 <= k < r / 2
      ensures Strided(f, base, r / 2, 2 * stride)[k] == xs[2 * k]
      ensures Strided(f, base + stride, r / 2, 2 * stride)[k] == xs[2 * k + 1]
    {
      StrideArith(k, stride);
    }
  }

  /** The unnormalised transform computed by fftHelper on the r elements
      its call addresses: a single element is returned unchanged; otherwise
      the transforms of the even- and odd-indexed halves are combined by the
      butterfly with the twiddle of size r. */
  function Transform(xs: seq<Complex>, dir: Direction, pi: real, expI: real -> Complex): (out: seq<Complex>)
    requires IsPowerOfTwo(|xs|)
    ensures |out| == |xs|
    decreases |xs|
  {
    if |xs| == 1 then xs
    else
      Combine(Transform(Evens(xs), dir, pi, expI), Transform(Odds(xs), dir, pi, expI), Twiddle(dir, |xs|, pi, expI))
  }

  /** One level of the recursion of Transform, for use by FftHelper. */
  lemma TransformStep(xs: seq<Complex>, dir: Direction, pi: real, expI: real -> Complex)
    requires IsPowerOfTwo(|xs|) && |xs| >= 2
    ensures IsPowerOfTwo(|xs| / 2)
    ensures Transform(xs, dir, pi, expI)
         == Combine(Transform(Evens(xs), dir, pi, expI), Transform(Odds(xs), dir, pi, expI), expI(Theta(dir, |xs|, pi)))
  {
  }

  /** Every element divided by the same real factor. */
  function Normalize(s: seq<Complex>, root: real): (out: seq<Complex>)
    requires root != 0.0
    ensures |out| == |s|
    ensures forall k :: 0 <= k < |s| ==> Scale(root, out[k]) == s[k]
  {
    seq(|s|, k requires 0 <= k < |s| => DivReal(s[k], root))
  }

  /** fft(f, n): the forward transform, scaled by 1/sqrt(n). */
  function FftOf(f: seq<Complex>, root: real, pi: real, expI: real -> Complex): (fhat: seq<Complex>)
    requires IsPowerOfTwo(|f|)
    requires root > 0.0 && root * root == |f| as real
    ensures |fhat| == |f|
    ensures forall k :: 0 <= k < |f| ==> Scale(root, fhat[k]) == Transform(f, Fwd, pi, expI)[k]
  {
    Normalize(Transform(f, Fwd, pi, expI), root)
  }

  /** ifft(fhat, n): the inverse transform, scaled by 1/sqrt(n). */
  function IfftOf(f: seq<Complex>, root: real, pi: real, expI: real -> Complex): (g: seq<Complex>)
    requires IsPowerOfTwo(|f|)
    requires root > 0.0 && root * root == |f| as real
    ensures |g| == |f|
    ensures forall k :: 0 <= k < |f| ==> Scale(root, g[k]) == Transform(f, Inverse, pi, expI)[k]
  {
    Normalize(Transform(f, Inverse, pi, expI), root)
  }

  // ---------------------------------------------------------------------------
  // The imperative engine

  /** The butterfly loop of fftHelper: a fresh buffer of size r = 2h whose
      slots j and j + h are written in iteration j, with the running twiddle
      W = Wn^j. `writes` counts the writes to each slot. */
  method Butterfly(evenhat: array<Complex>, oddhat: array<Complex>, wn: Complex)
    returns (fhat: array<Complex>, ghost writes: seq<nat>)
    requires evenhat.Length == oddhat.Length
    ensures fresh(fhat)
    ensures fhat[..] == Combine(evenhat[..], oddhat[..], wn)
    ensures writes == seq(fhat.Length, _ => 1)
  {
    var h := evenhat.Length;
    var r := 2 * h;
    fhat := new Complex[r];
    writes := seq(r, _ => 0);
    assert writes == WriteCounts(h, 0);
    var w := One;
    ghost var spec := Combine(evenhat[..], oddhat[..], wn);
    for j := 0 to h
      invariant w == Power(wn, j)
      invariant forall k :: 0 <= k < r && (k < j || h <= k < h + j) ==> fhat[k] == spec[k]
      invariant writes == WriteCounts(h, j)
    {
      WriteCountsStep(h, j);
      fhat[j] := Add(evenhat[j], Mul(w, oddhat[j]));
      fhat[j + h] := Sub(evenhat[j], Mul(w, oddhat[j]));
      writes := writes[j := writes[j] + 1][j + h := writes[j + h] + 1];
      w := Mul(w, wn);
    }
    assert WriteCounts(h, h) == seq(r, _ => 1);
  }

  /** How often the butterfly has written each of its 2h slots after j
      iterations: once for slots j' and h + j' with j' < j, never otherwise. */
  ghost function WriteCounts(h: nat, j: nat): (writes: seq<nat>)
    ensures |writes| == 2 * h
  {
    seq(2 * h, k => if k < j || h <= k < h + j then 1 else 0)
  }

  lemma WriteCountsStep(h: nat, j: nat)
    requires j < h
    ensures WriteCounts(h, j)[j := WriteCounts(h, j)[j] + 1][j + h := WriteCounts(h, j)[j + h] + 1] == WriteCounts(h, j + 1)
  {
  }

  /** fftHelper: base case copies the addressed element; otherwise recurse on
      the even part (same base, doubled stride) and the odd part (base advanced
      by stride, doubled stride) and combine them with the butterfly. */
  method FftHelper(f: array<Complex>, base: nat, r: nat, stride: nat, dir: Direction, pi: real, expI: real -> Complex)
    returns (fhat: array<Complex>)
    requires IsPowerOfTwo(r) && base + (r - 1) * stride < f.Length
    ensures fresh(fhat)
    ensures fhat[..] == Transform(Strided(f[..], base, r, stride), dir, pi, expI)
    decreases r
  {
    ghost var fs := f[..];
    if r == 1 {
      fhat := new Complex[1];
      fhat[0] := f[base];
      assert Strided(fs, base, 1, stride) == [f[base]];
    } else {
      ghost var xs := Strided(fs, base, r, stride);
      StridedHalves(fs, base, r, stride);
      var evenhat := FftHelper(f, base, r / 2, 2 * stride, dir, pi, expI);
      var oddhat := FftHelper(f, base + stride, r / 2, 2 * stride, dir, pi, expI);
      var wn := expI(Theta(dir, r, pi));
      ghost var writes;
      fhat, writes := Butterfly(evenhat, oddhat, wn);
      TransformStep(xs, dir, pi, expI);
    }
    assert f[..] == fs;
  }

  /** The scale loop of fft and ifft: a[j] /= root for every j. */
  method Rescale(a: array<Complex>, root: real)
    requires root != 0.0
    modifies a
    ensures a[..] == Normalize(old(a[..]), root)
  {
    ghost var before := a[..];
    for j := 0 to a.Length
      invariant forall k :: 0 <= k < j ==> a[k] == DivReal(before[k], root)
      invariant forall k :: j <= k < a.Length ==> a[k] == before[k]
    {
      a[j] := DivReal(a[j], root);
    }
  }

  /** fft(f, n): only the first n elements of the buffer are read. */
  method Fft(f: array<Complex>, n: nat, root: real, pi: real, expI: real -> Complex)
    returns (fhat: array<Complex>)
    requires IsPowerOfTwo(n) && n <= f.Length
    requires root > 0.0 && root * root == n as real
    ensures fresh(fhat)
    ensures fhat[..] == FftOf(f[..n], root, pi, expI)
  {
    fhat := FftHelper(f, 0, n, 1, Fwd, pi, expI);
    StridedWhole(f[..], n);
    Rescale(fhat, root);
  }

  /** ifft(fhat, n): as fft, in the inverse direction. */
  method Ifft(fhat: array<Complex>, n: nat, root: real, pi: real, expI: real -> Complex)
    returns (f: array<Complex>)
    requires IsPowerOfTwo(n) && n <= fhat.Length
    requires root > 0.0 && root * root == n as real
    ensures fresh(f)
    ensures f[..] == IfftOf(fhat[..n], root, pi, expI)
  {
    f := FftHelper(fhat, 0, n, 1, Inverse, pi, expI);
    StridedWhole(fhat[..], n);
    Rescale(f, root);
  }

  // ---------------------------------------------------------------------------
  // Properties of the recursion

  /** With base 0 and stride 1 a call of size n addresses the first n elements. */
  lemma StridedWhole(f: seq<Complex>, n: nat)
    requires 1 <= n <= |f|
    ensures Strided(f, 0, n, 1) == f[..n]
  {
  }
}
