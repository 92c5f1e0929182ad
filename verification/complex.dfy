/** The complex values the transform combines. The library the engine uses
    works on floating-point pairs; here a value is an exact pair of reals, so
    the operations below are the algebraic ones. */
module ComplexNumbers {

  datatype Complex = Complex(re: real, im: real)

  /** The value `Complex.from(r)` builds from a real sample: r + 0i. */
  function FromReal(r: real): Complex {
    Complex(r, 0.0)
  }

  const One: Complex := Complex(1.0, 0.0)
  /** `Complex.from(0.5)`, the factor the inverse transform scales by. */
  const OneHalf: Complex := Complex(0.5, 0.0)

  function Add(a: Complex, b: Complex): Complex {
    Complex(a.re + b.re, a.im + b.im)
  }

  function Neg(a: Complex): Complex {
    Complex(-a.re, -a.im)
  }

  function Sub(a: Complex, b: Complex): Complex {
    Complex(a.re - b.re, a.im - b.im)
  }

  function Mul(a: Complex, b: Complex): Complex {
    Complex(a.re * b.re - a.im * b.im, a.re * b.im + a.im * b.re)
  }

  /** Multiplication by a real factor. */
  function Scale(a: Complex, k: real): Complex {
    Complex(k * a.re, k * a.im)
  }

  /** The factors the forward and the inverse butterflies use at one exponent
      cancel: their product is one. */
  predicate Reciprocal(u: Complex, v: Complex) {
    Mul(u, v) == One
  }

  lemma MulCommutes(a: Complex, b: Complex)
    ensures Mul(a, b) == Mul(b, a)
  {
  }

  lemma MulAssociates(a: Complex, b: Complex, c: Complex)
    ensures Mul(a, Mul(b, c)) == Mul(Mul(a, b), c)
  {
    assert Mul(a, Mul(b, c)).re == Mul(Mul(a, b), c).re;
    assert Mul(a, Mul(b, c)).im == Mul(Mul(a, b), c).im;
  }

  /** Multiplying by the reciprocal of a factor undoes multiplying by it. */
  lemma MulByReciprocal(u: Complex, v: Complex, b: Complex)
    requires Reciprocal(u, v)
    ensures Mul(u, Mul(v, b)) == b
  {
    MulAssociates(u, v, b);
  }
}

/** Optional values and pass/fail outcomes. */
module Options {

  datatype Option<T> = None | Some(value: T)

  datatype Outcome<E> = Pass | Fail(error: E)
}
