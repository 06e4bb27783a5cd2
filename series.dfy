/** What multipole and local expansions share: the value of an expansion (its
    order p, centre and p+1 coefficients), the conversion between the Vector2
    centres of boxes and the complex centres of expansions, and the
    compatibility-checked coefficient-wise sum behind both operator+= . */
module Series {

  import opened Complexes
  import opened Vectors
  import opened Outcomes

  /** An expansion of order p about center; a well-formed one has p + 1 coefficients. */
  datatype Expansion = Expansion(p: int, center: Complex, coeffs: seq<Complex>)
  {
    predicate WellFormed() {
      p >= -1 && |coeffs| == p + 1
    }
  }

  /** Complex(center.x, center.y). */
  function ToComplex(v: Vector2): Complex {
    Complex(v.x, v.y)
  }

  /** Vector2(c.real(), c.imag()). */
  function ToVector(c: Complex): Vector2 {
    Vector2(c.re, c.im)
  }

  lemma ComplexVectorRoundTrip(c: Complex, v: Vector2)
    ensures ToComplex(ToVector(c)) == c
    ensures ToVector(ToComplex(v)) == v
    ensures ToComplex(v.Minus(ToVector(c))) == Sub(ToComplex(v), c)
  {
  }

  /** m value-initialised (zero) coefficients. */
  function ZeroCoeffs(m: nat): (r: seq<Complex>)
    ensures |r| == m
  {
    seq(m, _ => Zero)
  }

  /** The expansion a freshly constructed (p, center) object holds. */
  function ZeroExpansion(p: int, center: Complex): (e: Expansion)
    requires p >= -1
    ensures e.WellFormed()
  {
    Expansion(p, center, ZeroCoeffs(p + 1))
  }

  /** Coefficient-wise sum. */
  function AddCoeffs(a: seq<Complex>, b: seq<Complex>): (r: seq<Complex>)
    requires |a| == |b|
    ensures |r| == |a|
  {
    seq(|a|, k requires 0 <= k < |a| => Add(a[k], b[k]))
  }

  /** Two expansions may be added when they have the same order and centre. */
  predicate Compatible(a: Expansion, b: Expansion) {
    a.p == b.p && a.center == b.center
  }

  /** operator+= on values: throws message when the operands are incompatible,
      otherwise adds the coefficients and keeps order and centre. */
  function Accumulate(target: Expansion, other: Expansion, message: string): (r: Result<Expansion>)
    requires target.WellFormed() && other.WellFormed()
  {
    if !Compatible(target, other) then Failure(message)
    else Ok(Expansion(target.p, target.center, AddCoeffs(target.coeffs, other.coeffs)))
  }

  /** += succeeds exactly on compatible operands, keeps p and the centre, and
      adds coefficient by coefficient. */
  lemma AccumulateSpec(target: Expansion, other: Expansion, message: string)
    requires target.WellFormed() && other.WellFormed()
    ensures Accumulate(target, other, message).Ok? <==> Compatible(target, other)
    ensures Accumulate(target, other, message).Failure? ==> Accumulate(target, other, message).message == message
    ensures Accumulate(target, other, message).Ok? ==>
      var e := Accumulate(target, other, message).value;
      && e.WellFormed() && e.p == target.p && e.center == target.center
      && forall k :: 0 <= k < |e.coeffs| ==> e.coeffs[k] == Add(target.coeffs[k], other.coeffs[k])
  {
  }

  /** Adding zero coefficients changes nothing; the sum commutes and associates,
      so accumulating a list of expansions does not depend on its order. */
  lemma AddCoeffsLaws(a: seq<Complex>, b: seq<Complex>, c: seq<Complex>)
    requires |a| == |b| == |c|
    ensures AddCoeffs(a, ZeroCoeffs(|a|)) == a
    ensures AddCoeffs(a, b) == AddCoeffs(b, a)
    ensures AddCoeffs(AddCoeffs(a, b), c) == AddCoeffs(a, AddCoeffs(b, c))
  {
  }
}
