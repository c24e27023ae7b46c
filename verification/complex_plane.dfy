/**
 Complex numbers as pairs of exact reals, with the textbook product and sum
 standing in for `num::complex::Complex<f64>`.
 */
module ComplexPlane {

  datatype Complex = Complex(re: real, im: real)

  const Zero := Complex(0.0, 0.0)

  function Add(a: Complex, b: Complex): Complex {
    Complex(a.re + b.re, a.im + b.im)
  }

  function Mul(a: Complex, b: Complex): Complex {
    Complex(a.re * b.re - a.im * b.im, a.re * b.im + a.im * b.re)
  }

  /** `norm_sqr`: the squared magnitude, never negative. */
  function NormSqr(z: Complex): (n: real)
    ensures n >= 0.0
  {
    z.re * z.re + z.im * z.im
  }
}
