/** Exact complex arithmetic over `real`, standing in for std::complex<double>.
    Only the operations the expansions use are defined; there is no logarithm here
    (the expansions take it as a parameter). */
module Complexes {

  import opened RealFacts

  datatype Complex = Complex(re: real, im: real)

  const Zero: Complex := Complex(0.0, 0.0)
  const One: Complex := Complex(1.0, 0.0)

  /** A real number as a complex number with zero imaginary part. */
  function FromReal(r: real): Complex {
    Complex(r, 0.0)
  }

  function Add(a: Complex, b: Complex): Complex {
    Complex(a.re + b.re, a.im + b.im)
  }

  function Sub(a: Complex, b: Complex): Complex {
    Complex(a.re - b.re, a.im - b.im)
  }

  function Neg(a: Complex): Complex {
    Complex(-a.re, -a.im)
  }

  function Mul(a: Complex, b: Complex): Complex {
    Complex(a.re * b.re - a.im * b.im, a.re * b.im + a.im * b.re)
  }

  /** Multiplication by a real scalar (a double times a complex in the source). */
  function Scale(a: Complex, r: real): Complex {
    Complex(a.re * r, a.im * r)
  }

  /** Division by a non-zero real scalar. */
  function DivReal(a: Complex, r: real): Complex
    requires r != 0.0
  {
    Complex(a.re / r, a.im / r)
  }

  /** The squared modulus |z|^2. */
  function NormSq(z: Complex): real {
    z.re * z.re + z.im * z.im
  }

  /** A non-zero complex number has a positive squared modulus. */
  lemma NormSqPositive(z: Complex)
    ensures NormSq(z) >= 0.0
    ensures z != Zero ==> NormSq(z) > 0.0
  {
    SumOfSquaresSign(z.re, z.im, NormSq(z));
  }

  /** The reciprocal of a non-zero real. */
  function Recip(d: real): (r: real)
    requires d != 0.0
    ensures r * d == 1.0
  {
    1.0 / d
  }

  /** The multiplicative inverse of a non-zero complex number: conj(z) / |z|^2. */
  function Inv(z: Complex): Complex
    requires z != Zero
  {
    NormSqPositive(z);
    var k := Recip(NormSq(z));
    Complex(z.re * k, -z.im * k)
  }

  function Div(a: Complex, b: Complex): Complex
    requires b != Zero
  {
    Mul(a, Inv(b))
  }

  /** z^n, by repeated multiplication (the recurrence the power tables use). */
  function Pow(z: Complex, n: nat): Complex {
    if n == 0 then One else Mul(Pow(z, n - 1), z)
  }

  /** z^-n, by repeated division; defined for z == 0 only at n == 0. */
  function InvPow(z: Complex, n: nat): Complex
    requires z != Zero || n == 0
  {
    if n == 0 then One else Div(InvPow(z, n - 1), z)
  }

  // ---------------------------------------------------------------------------
  // Ring laws used by the proofs about the expansions.

  lemma MulComm(a: Complex, b: Complex)
    ensures Mul(a, b) == Mul(b, a)
  {
  }

  lemma MulAssoc(a: Complex, b: Complex, c: Complex)
    ensures Mul(Mul(a, b), c) == Mul(a, Mul(b, c))
  {
    assert Mul(Mul(a, b), c).re == Mul(a, Mul(b, c)).re;
    assert Mul(Mul(a, b), c).im == Mul(a, Mul(b, c)).im;
  }

  lemma MulAddLeft(a: Complex, b: Complex, c: Complex)
    ensures Mul(a, Add(b, c)) == Add(Mul(a, b), Mul(a, c))
  {
  }

  lemma MulAddRight(a: Complex, b: Complex, c: Complex)
    ensures Mul(Add(a, b), c) == Add(Mul(a, c), Mul(b, c))
  {
  }

  lemma MulSubLeft(a: Complex, b: Complex, c: Complex)
    ensures Mul(a, Sub(b, c)) == Sub(Mul(a, b), Mul(a, c))
  {
  }

  lemma MulSubRight(a: Complex, b: Complex, c: Complex)
    ensures Mul(Sub(a, b), c) == Sub(Mul(a, c), Mul(b, c))
  {
  }

  lemma MulNeg(a: Complex, b: Complex)
    ensures Mul(Neg(a), b) == Neg(Mul(a, b))
  {
  }

  lemma MulInvSelf(z: Complex)
    requires z != Zero
    ensures Mul(Inv(z), z) == One
  {
    NormSqPositive(z);
    var k := Recip(NormSq(z));
    assert Mul(Inv(z), z).re == k * NormSq(z);
  }

  lemma ScaleLaws(a: Complex, b: Complex, r: real, t: real)
    ensures Scale(Add(a, b), r) == Add(Scale(a, r), Scale(b, r))
    ensures Scale(a, r + t) == Add(Scale(a, r), Scale(a, t))
    ensures Scale(Zero, r) == Zero
  {
    assert Scale(a, r + t).re == a.re * r + a.re * t;
    assert Scale(a, r + t).im == a.im * r + a.im * t;
  }

  lemma MulScale(a: Complex, b: Complex, r: real)
    ensures Mul(Scale(a, r), b) == Scale(Mul(a, b), r)
    ensures Mul(a, Scale(b, r)) == Scale(Mul(a, b), r)
  {
    assert Mul(Scale(a, r), b).re == Scale(Mul(a, b), r).re;
    assert Mul(Scale(a, r), b).im == Scale(Mul(a, b), r).im;
    assert Mul(a, Scale(b, r)).re == Scale(Mul(a, b), r).re;
    assert Mul(a, Scale(b, r)).im == Scale(Mul(a, b), r).im;
  }

  lemma ScaleScale(a: Complex, r: real, t: real)
    ensures Scale(Scale(a, r), t) == Scale(a, r * t)
  {
    assert Scale(Scale(a, r), t).re == a.re * (r * t);
    assert Scale(Scale(a, r), t).im == a.im * (r * t);
  }

  lemma DivRealLaws(a: Complex, b: Complex, r: real)
    requires r != 0.0
    ensures DivReal(Add(a, b), r) == Add(DivReal(a, r), DivReal(b, r))
    ensures DivReal(Zero, r) == Zero
  {
  }

  lemma MulZero(a: Complex)
    ensures Mul(a, Zero) == Zero && Mul(Zero, a) == Zero
    ensures Mul(a, One) == a && Mul(One, a) == a
  {
  }

  lemma PowZeroBase(n: nat)
    requires n >= 1
    ensures Pow(Zero, n) == Zero
  {
  }

  /** Multiplying z^-n by z^n gives one: InvPow really is the inverse power. */
  lemma {:induction false} InvPowTimesPow(z: Complex, n: nat)
    requires z != Zero
    ensures Mul(InvPow(z, n), Pow(z, n)) == One
  {
    if n > 0 {
      InvPowTimesPow(z, n - 1);
      var a, i, b := InvPow(z, n - 1), Inv(z), Pow(z, n - 1);
      calc {
        Mul(InvPow(z, n), Pow(z, n));
        Mul(Mul(a, i), Mul(b, z));
        { MulAssoc(a, i, Mul(b, z)); }
        Mul(a, Mul(i, Mul(b, z)));
        { MulAssoc(i, b, z); MulComm(i, b); MulAssoc(b, i, z); }
        Mul(a, Mul(b, Mul(i, z)));
        { MulInvSelf(z); }
        Mul(a, Mul(b, One));
        Mul(a, b);
        One;
      }
    }
  }
}
