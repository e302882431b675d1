/** Exact complex arithmetic over Dafny's mathematical reals.

    This stands for the operations of std::complex<double> that the FFT engine
    uses (+, -, *, /= by a real, *=), without floating-point rounding. */
module ComplexArith {

  datatype Complex = Complex(re: real, im: real)

  const Zero: Complex := Complex(0.0, 0.0)
  const One: Complex := Complex(1.0, 0.0)

  function Add(a: Complex, b: Complex): Complex {
    Complex(a.re + b.re, a.im + b.im)
  }

  function Sub(a: Complex, b: Complex): Complex {
    Complex(a.re - b.re, a.im - b.im)
  }

  /** (a.re + i a.im)(b.re + i b.im) */
  function Mul(a: Complex, b: Complex): Complex {
    Complex(a.re * b.re - a.im * b.im, a.re * b.im + a.im * b.re)
  }

  /** Multiplication by a real number (a complex number with zero imaginary part). */
  function Scale(s: real, a: Complex): Complex {
    Complex(s * a.re, s * a.im)
  }

  /** Division of a complex number by a nonzero real, as `z /= x` with x a double. */
  function DivReal(a: Complex, s: real): Complex
    requires s != 0.0
  {
    Complex(a.re / s, a.im / s)
  }

  /** w^k, built as the running product 1 * w * w * ... (k factors of w). */
  function Power(w: Complex, k: nat): Complex {
    if k == 0 then One else Mul(Power(w, k - 1), w)
  }

  lemma MulOneRight(a: Complex)
    ensures Mul(a, One) == a
  {
  }

  lemma MulZero(w: Complex)
    ensures Mul(w, Zero) == Zero
  {
    assert w.re * 0.0 == 0.0 && w.im * 0.0 == 0.0;
  }

  lemma SubSelf(x: Complex)
    ensures Sub(x, x) == Zero
  {
  }

  lemma MulComm(a: Complex, b: Complex)
    ensures Mul(a, b) == Mul(b, a)
  {
    assert a.re * b.re == b.re * a.re;
    assert a.im * b.im == b.im * a.im;
    assert a.re * b.im == b.im * a.re;
    assert a.im * b.re == b.re * a.im;
  }

  lemma MulAssoc(a: Complex, b: Complex, c: Complex)
    ensures Mul(Mul(a, b), c) == Mul(a, Mul(b, c))
  {
  }

  /** Multiplication distributes over a complex linear combination. */
  lemma MulLinear(w: Complex, a: Complex, x: Complex, b: Complex, y: Complex)
    ensures Mul(w, Add(Mul(a, x), Mul(b, y))) == Add(Mul(a, Mul(w, x)), Mul(b, Mul(w, y)))
  {
    MulComm(w, Mul(a, x));
    MulAssoc(a, x, w);
    MulComm(x, w);
    MulComm(w, Mul(b, y));
    MulAssoc(b, y, w);
    MulComm(y, w);
    MulDistAdd(w, Mul(a, x), Mul(b, y));
  }

  lemma MulDistAdd(w: Complex, x: Complex, y: Complex)
    ensures Mul(w, Add(x, y)) == Add(Mul(w, x), Mul(w, y))
  {
    assert w.re * (x.re + y.re) == w.re * x.re + w.re * y.re;
    assert w.im * (x.im + y.im) == w.im * x.im + w.im * y.im;
    assert w.re * (x.im + y.im) == w.re * x.im + w.re * y.im;
    assert w.im * (x.re + y.re) == w.im * x.re + w.im * y.re;
  }

  lemma MulDistSub(w: Complex, x: Complex, y: Complex)
    ensures Mul(w, Sub(x, y)) == Sub(Mul(w, x), Mul(w, y))
  {
    assert w.re * (x.re - y.re) == w.re * x.re - w.re * y.re;
    assert w.im * (x.im - y.im) == w.im * x.im - w.im * y.im;
    assert w.re * (x.im - y.im) == w.re * x.im - w.re * y.im;
    assert w.im * (x.re - y.re) == w.im * x.re - w.im * y.re;
  }
}
