/** The part of `num_complex::Complex<f64>` the state vector uses, over exact reals. */
module Complexes {

  datatype Complex = Complex(re: real, im: real)

  const Zero: Complex := Complex(0.0, 0.0)
  const One: Complex := Complex(1.0, 0.0)

  function Add(x: Complex, y: Complex): Complex {
    Complex(x.re + y.re, x.im + y.im)
  }

  function Mul(x: Complex, y: Complex): Complex {
    Complex(x.re * y.re - x.im * y.im, x.re * y.im + x.im * y.re)
  }

  /** Squared magnitude (`norm_sqr`): the Born-rule weight of an amplitude. */
  function NormSqr(c: Complex): (n: real)
    ensures n >= 0.0
  {
    Square(c.re);
    Square(c.im);
    c.re * c.re + c.im * c.im
  }

  lemma Square(a: real)
    ensures a * a >= 0.0
  {
    if a < 0.0 {
      assert a * a == (-a) * (-a);
    }
  }

  /** Multiplying by and adding the constants of a gate matrix. */
  lemma MulUnits(c: Complex)
    ensures Mul(Zero, c) == Zero && Mul(One, c) == c
    ensures Add(Zero, c) == c && Add(c, Zero) == c
  {
  }
}
