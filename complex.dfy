/**
 * The `num_complex::Complex<f64>` values the program iterates on, modelled
 * over Dafny's exact `real`s. Nothing in this project depends on IEEE 754
 * rounding; every property proved about these operations is a property of
 * the algebra, not of floating point.
 */
module ComplexPlane {
  datatype Complex = Complex(re: real, im: real)

  const Zero: Complex := Complex(0.0, 0.0)

  function Add(a: Complex, b: Complex): Complex {
    Complex(a.re + b.re, a.im + b.im)
  }

  function Mul(a: Complex, b: Complex): Complex {
    Complex(a.re * b.re - a.im * b.im, a.re * b.im + a.im * b.re)
  }

  /** `norm_sqr`: re^2 + im^2, the squared modulus. */
  function NormSqr(z: Complex): (r: real)
    ensures r >= 0.0
  {
    z.re * z.re + z.im * z.im
  }

  /** 0 * 0 + 0 = 0. */
  lemma SquareZero()
    ensures Add(Mul(Zero, Zero), Zero) == Zero
  {
  }

  /** On the real axis, z*z + z and |z|^2 are the real-number ones. */
  lemma RealAxis(x: real)
    ensures Add(Mul(Complex(x, 0.0), Complex(x, 0.0)), Complex(x, 0.0)) == Complex(x * x + x, 0.0)
    ensures NormSqr(Complex(x, 0.0)) == x * x
  {
  }

  /** |0|^2 = 0. */
  lemma NormSqrZero()
    ensures NormSqr(Zero) == 0.0
  {
  }
}
