/** Multipole expansions (src/multipole.h, src/multipole.cpp): the far-field
    series a0 log(z) + sum_k a_k z^-k about a centre, built from point sources
    and translated to a new centre. */
module Multipoles {

  import opened Complexes
  import opened Vectors
  import opened Geometry
  import opened Outcomes
  import opened Tables
  import opened Series
  import opened Transforms

  // ---------------------------------------------------------------------------
  // The coefficient algebra, on values

  /** q z^k / k for a source of strength q at offset z from the centre. */
  function SourceTerm(center: Complex, source: Point, k: nat): Complex
    requires k >= 1
  {
    var z := Sub(ToComplex(source.position), center);
    DivReal(Scale(Pow(z, k), source.strength), k as real)
  }

  /** One source's contribution (Theorem 2.1.1): coeffs[0] gains the strength q,
      and coeffs[k] loses q z^k / k, with z the source's offset from the centre. */
  function AddSource(c: seq<Complex>, center: Complex, source: Point): (r: seq<Complex>)
    requires |c| >= 1
    ensures |r| == |c|
  {
    seq(|c|, k requires 0 <= k < |c| =>
      if k == 0 then Add(c[0], FromReal(source.strength))
      else Sub(c[k], SourceTerm(center, source, k)))
  }

  /** buildExpansion: the sources' contributions added to c, in input order. */
  function BuildCoeffs(c: seq<Complex>, center: Complex, sources: seq<Point>): (r: seq<Complex>)
    requires |c| >= 1
    ensures |r| == |c|
  {
    if |sources| == 0 then c
    else AddSource(BuildCoeffs(c, center, sources[..|sources| - 1]), center, sources[|sources| - 1])
  }

  /** The sum of the strengths. */
  function TotalStrength(sources: seq<Point>): real {
    if |sources| == 0 then 0.0
    else TotalStrength(sources[..|sources| - 1]) + sources[|sources| - 1].strength
  }

  /** sum_i q_i z_i^k / k, the amount buildExpansion takes off coeffs[k]. */
  function Moment(sources: seq<Point>, center: Complex, k: nat): Complex
    requires k >= 1
  {
    if |sources| == 0 then Zero
    else
      Add(Moment(sources[..|sources| - 1], center, k), SourceTerm(center, sources[|sources| - 1], k))
  }

  /** Closed form of buildExpansion: coeffs[0] gains the total strength and
      coeffs[k] loses sum_i q_i z_i^k / k. */
  lemma {:induction false} BuildCoeffsClosedForm(c: seq<Complex>, center: Complex, sources: seq<Point>)
    requires |c| >= 1
    ensures BuildCoeffs(c, center, sources)[0] == Add(c[0], FromReal(TotalStrength(sources)))
    ensures forall k :: 1 <= k < |c| ==> BuildCoeffs(c, center, sources)[k] == Sub(c[k], Moment(sources, center, k))
  {
    if |sources| > 0 {
      BuildCoeffsClosedForm(c, center, sources[..|sources| - 1]);
    }
  }

  /** A fresh expansion built from sources: the total strength first, minus the
      k-th moments after it. */
  lemma BuildFromZero(n: nat, center: Complex, sources: seq<Point>)
    requires n >= 1
    ensures BuildCoeffs(ZeroCoeffs(n), center, sources)[0] == FromReal(TotalStrength(sources))
    ensures forall k :: 1 <= k < n ==> BuildCoeffs(ZeroCoeffs(n), center, sources)[k] == Neg(Moment(sources, center, k))
  {
    var zeros := ZeroCoeffs(n);
    BuildCoeffsClosedForm(zeros, center, sources);
    forall k | 1 <= k < n
      ensures BuildCoeffs(zeros, center, sources)[k] == Neg(Moment(sources, center, k))
    {
      assert zeros[k] == Zero;
    }
  }

  /** Building from a ++ b is building from a, then from b. */
  lemma {:induction false} BuildCoeffsConcat(c: seq<Complex>, center: Complex, a: seq<Point>, b: seq<Point>)
    requires |c| >= 1
    ensures BuildCoeffs(c, center, a + b) == BuildCoeffs(BuildCoeffs(c, center, a), center, b)
  {
    if |b| == 0 {
      assert a + b == a;
    } else {
      BuildCoeffsConcat(c, center, a, b[..|b| - 1]);
      assert (a + b)[..|a + b| - 1] == a + b[..|b| - 1];
      assert (a + b)[|a + b| - 1] == b[|b| - 1];
    }
  }

  /** Two sources may be added in either order. */
  lemma AddSourceCommutes(c: seq<Complex>, center: Complex, s: Point, t: Point)
    requires |c| >= 1
    ensures AddSource(AddSource(c, center, s), center, t) == AddSource(AddSource(c, center, t), center, s)
  {
    var st, ts := AddSource(AddSource(c, center, s), center, t), AddSource(AddSource(c, center, t), center, s);
    forall k | 0 <= k < |c|
      ensures st[k] == ts[k]
    {
      if k > 0 {
        var x, u, v := c[k], SourceTerm(center, s, k), SourceTerm(center, t, k);
        assert st[k] == Sub(Sub(x, u), v);
        assert ts[k] == Sub(Sub(x, v), u);
      }
    }
  }

  /** Swapping two neighbouring sources does not change the expansion. */
  lemma SwapNeighbours(c: seq<Complex>, center: Complex, a: seq<Point>, s: Point, t: Point, b: seq<Point>)
    requires |c| >= 1
    ensures BuildCoeffs(c, center, a + [s, t] + b) == BuildCoeffs(c, center, a + [t, s] + b)
  {
    var m := BuildCoeffs(c, center, a);
    assert a + [s, t] + b == (a + [s, t]) + b;
    BuildCoeffsConcat(c, center, a + [s, t], b);
    BuildCoeffsConcat(c, center, a + [t, s], b);
    BuildCoeffsConcat(c, center, a, [s, t]);
    BuildCoeffsConcat(c, center, a, [t, s]);
    assert [s, t][..1] == [s] && [t, s][..1] == [t];
    assert [s][..0] == [] && [t][..0] == [];
    assert BuildCoeffs(m, center, [s]) == AddSource(m, center, s);
    assert BuildCoeffs(m, center, [t]) == AddSource(m, center, t);
    assert BuildCoeffs(m, center, [s, t]) == AddSource(AddSource(m, center, s), center, t);
    assert BuildCoeffs(m, center, [t, s]) == AddSource(AddSource(m, center, t), center, s);
    AddSourceCommutes(m, center, s, t);
  }

  /** Moving one source from the middle to the end does not change the expansion. */
  lemma {:induction false} MoveToEnd(c: seq<Complex>, center: Complex, a: seq<Point>, x: Point, b: seq<Point>)
    requires |c| >= 1
    ensures BuildCoeffs(c, center, a + [x] + b) == BuildCoeffs(c, center, a + b + [x])
    decreases |b|
  {
    if |b| == 0 {
      assert a + [x] + b == a + b + [x];
    } else {
      var y, rest := b[0], b[1..];
      assert a + [x] + b == a + [x, y] + rest;
      SwapNeighbours(c, center, a, x, y, rest);
      assert a + [y, x] + rest == (a + [y]) + [x] + rest;
      MoveToEnd(c, center, a + [y], x, rest);
      assert (a + [y]) + rest + [x] == a + b + [x];
    }
  }

  /** Taking the last element of a off a and a matching element off b keeps the
      multisets equal. */
  lemma RemoveMatching<T>(a: seq<T>, b: seq<T>, i: nat)
    requires |a| > 0 && i < |b| && b[i] == a[|a| - 1] && multiset(a) == multiset(b)
    ensures multiset(a[..|a| - 1]) == multiset(b[..i] + b[i + 1..])
  {
    assert a == a[..|a| - 1] + [a[|a| - 1]];
    assert b == b[..i] + [b[i]] + b[i + 1..];
    var front, u, v := a[..|a| - 1], b[..i], b[i + 1..];
    assert multiset(a) == multiset(front) + multiset([a[|a| - 1]]);
    assert multiset(b) == multiset(u) + multiset([b[i]]) + multiset(v);
    assert multiset(u + v) == multiset(u) + multiset(v);
    forall y ensures multiset(front)[y] == multiset(u + v)[y] {
      assert multiset(a)[y] == multiset(front)[y] + multiset([a[|a| - 1]])[y];
      assert multiset(b)[y] == multiset(u + v)[y] + multiset([b[i]])[y];
    }
  }

  /** buildExpansion does not depend on the order of the sources: any two
      orderings of the same sources build the same coefficients. */
  lemma {:induction false} BuildCoeffsPermutation(c: seq<Complex>, center: Complex, a: seq<Point>, b: seq<Point>)
    requires |c| >= 1 && multiset(a) == multiset(b)
    ensures BuildCoeffs(c, center, a) == BuildCoeffs(c, center, b)
    decreases |a|
  {
    if |a| == 0 {
      assert |b| == |multiset(b)| == 0;
    } else {
      var x, front := a[|a| - 1], a[..|a| - 1];
      assert a == front + [x];
      assert x in multiset(b);
      var i :| 0 <= i < |b| && b[i] == x;
      var u, v := b[..i], b[i + 1..];
      assert b == u + [x] + v;
      RemoveMatching(a, b, i);
      BuildCoeffsPermutation(c, center, front, u + v);
      MoveToEnd(c, center, u, x, v);
      assert (u + v + [x])[..|u + v + [x]| - 1] == u + v;
    }
  }

  /** M2M's sum for coefficient l, after its first K terms:
      -Re(c0) s^l / l + sum_{k=1..K} c_k s^(l-k) C(l-1, k-1). */
  function M2MSum(c: seq<Complex>, s: Complex, l: nat, K: nat): Complex
    requires 1 <= l < |c| && K <= l
  {
    if K == 0 then DivReal(Scale(Pow(s, l), -c[0].re), l as real)
    else Add(M2MSum(c, s, l, K - 1), Scale(Mul(c[K], Pow(s, l - K)), Binom(l - 1, K - 1) as real))
  }

  /** M2M's new coefficients (Lemma 2.2.1): Re(c0), then the full sums. */
  function M2MCoeffs(c: seq<Complex>, s: Complex): (r: seq<Complex>)
    requires |c| >= 1
    ensures |r| == |c|
  {
    seq(|c|, l requires 0 <= l < |c| => if l == 0 then FromReal(c[0].re) else M2MSum(c, s, l, l))
  }

  lemma {:induction false} M2MSumZeroShift(c: seq<Complex>, l: nat, K: nat)
    requires 1 <= l < |c| && K < l
    ensures M2MSum(c, Zero, l, K) == Zero
  {
    if K == 0 {
      PowZeroBase(l);
      ScaleLaws(Zero, Zero, -c[0].re, 0.0);
      DivRealLaws(Zero, Zero, l as real);
    } else {
      M2MSumZeroShift(c, l, K - 1);
      PowZeroBase(l - K);
      MulZero(c[K]);
      ScaleLaws(Zero, Zero, Binom(l - 1, K - 1) as real, 0.0);
    }
  }

  /** A zero shift keeps every coefficient except the imaginary part of c0. */
  lemma M2MZeroShift(c: seq<Complex>)
    requires |c| >= 1
    ensures M2MCoeffs(c, Zero) == [FromReal(c[0].re)] + c[1..]
  {
    forall l | 1 <= l < |c|
      ensures M2MCoeffs(c, Zero)[l] == c[l]
    {
      M2MZeroShiftAt(c, l);
    }
  }

  lemma M2MZeroShiftAt(c: seq<Complex>, l: nat)
    requires 1 <= l < |c|
    ensures M2MSum(c, Zero, l, l) == c[l]
  {
    M2MSumZeroShift(c, l, l - 1);
    BinomDiagonal(l - 1);
    assert Pow(Zero, 0) == One;
    MulZero(c[l]);
    assert M2MSum(c, Zero, l, l) == Add(Zero, Scale(Mul(c[l], One), 1.0));
  }

  lemma {:induction false} M2MSumLinear(a: seq<Complex>, b: seq<Complex>, s: Complex, l: nat, K: nat)
    requires |a| == |b| && 1 <= l < |a| && K <= l
    ensures M2MSum(AddCoeffs(a, b), s, l, K) == Add(M2MSum(a, s, l, K), M2MSum(b, s, l, K))
  {
    var sum := AddCoeffs(a, b);
    if K == 0 {
      var w := Pow(s, l);
      assert -sum[0].re == -a[0].re + -b[0].re;
      ScaleLaws(w, w, -a[0].re, -b[0].re);
      DivRealLaws(Scale(w, -a[0].re), Scale(w, -b[0].re), l as real);
    } else {
      M2MSumLinear(a, b, s, l, K - 1);
      var w := Pow(s, l - K);
      MulAddRight(a[K], b[K], w);
      ScaleLaws(Mul(a[K], w), Mul(b[K], w), Binom(l - 1, K - 1) as real, 0.0);
    }
  }

  /** M2M is linear: translating a sum of expansions is summing their translations,
      which is what lets a parent add up its children's M2M results. */
  lemma M2MLinear(a: seq<Complex>, b: seq<Complex>, s: Complex)
    requires |a| == |b| >= 1
    ensures M2MCoeffs(AddCoeffs(a, b), s) == AddCoeffs(M2MCoeffs(a, s), M2MCoeffs(b, s))
  {
    forall l | 0 <= l < |a|
      ensures M2MCoeffs(AddCoeffs(a, b), s)[l] == AddCoeffs(M2MCoeffs(a, s), M2MCoeffs(b, s))[l]
    {
      var sum := AddCoeffs(a, b);
      if l > 0 {
        M2MSumLinear(a, b, s, l, l);
        assert M2MCoeffs(sum, s)[l] == M2MSum(sum, s, l, l);
        assert M2MCoeffs(a, s)[l] == M2MSum(a, s, l, l);
        assert M2MCoeffs(b, s)[l] == M2MSum(b, s, l, l);
      } else {
        assert M2MCoeffs(sum, s)[0] == FromReal(sum[0].re);
        assert M2MCoeffs(a, s)[0] == FromReal(a[0].re);
        assert M2MCoeffs(b, s)[0] == FromReal(b[0].re);
      }
    }
  }

  // ---------------------------------------------------------------------------
  // Composition of translations

  /** The weighted coefficients -Re(a0), 1 a1, 2 a2, ...: on these M2M is the
      lower binomial transform (WeightedM2M). */
  function Weighted(c: seq<Complex>): (r: seq<Complex>)
    requires |c| >= 1
    ensures |r| == |c|
  {
    seq(|c|, k requires 0 <= k < |c| => if k == 0 then FromReal(-c[0].re) else Scale(c[k], k as real))
  }

  /** The step of M2MSumWeighted for term k, by absorption. */
  lemma WeightedTerm(a: Complex, w: Complex, l: nat, k: nat)
    requires 1 <= k <= l
    ensures Scale(Scale(Mul(a, w), Binom(l - 1, k - 1) as real), l as real)
         == Scale(Mul(Scale(a, k as real), w), Binom(l, k) as real)
  {
    var m, b, d := Mul(a, w), Binom(l - 1, k - 1) as real, Binom(l, k) as real;
    calc {
      Scale(Scale(m, b), l as real);
      { ScaleScale(m, b, l as real); }
      Scale(m, b * (l as real));
      { ScaleByAbsorption(m, l, k, b, d); }
      Scale(m, (k as real) * d);
      { ScaleScale(m, k as real, d); }
      Scale(Scale(m, k as real), d);
      { MulScale(a, w, k as real); }
      Scale(Mul(Scale(a, k as real), w), d);
    }
  }

  lemma ScaleByAbsorption(m: Complex, l: nat, k: nat, b: real, d: real)
    requires 1 <= k <= l && b == Binom(l - 1, k - 1) as real && d == Binom(l, k) as real
    ensures Scale(m, b * (l as real)) == Scale(m, (k as real) * d)
  {
    BinomAbsorptionReal(l, k);
  }

  /** l times the first K + 1 terms of M2M entry l is the first K + 1 terms of the
      closed form on the weighted coefficients. */
  lemma {:induction false} M2MSumWeighted(c: seq<Complex>, s: Complex, l: nat, K: nat)
    requires 1 <= l < |c| && K <= l
    ensures Scale(M2MSum(c, s, l, K), l as real) == BinomialSum(Weighted(c), s, l, K + 1)
  {
    var w := Weighted(c);
    if K == 0 {
      var q := Pow(s, l);
      var a := -c[0].re;
      assert w[0] == FromReal(a);
      assert Scale(DivReal(Scale(q, a), l as real), l as real) == Scale(q, a);
      assert Mul(FromReal(a), q) == Scale(q, a);
    } else {
      M2MSumWeighted(c, s, l, K - 1);
      var t := Mul(c[K], Pow(s, l - K));
      ScaleLaws(M2MSum(c, s, l, K - 1), Scale(t, Binom(l - 1, K - 1) as real), l as real, 0.0);
      assert w[K] == Scale(c[K], K as real);
      WeightedTerm(c[K], Pow(s, l - K), l, K);
    }
  }

  /** Translating by s is the lower binomial transform with step s on weighted
      coefficients. */
  lemma WeightedM2M(c: seq<Complex>, s: Complex)
    requires |c| >= 1
    ensures Weighted(M2MCoeffs(c, s)) == LowerBinomials(Weighted(c), s)
  {
    forall l | 0 <= l < |c|
      ensures Weighted(M2MCoeffs(c, s))[l] == LowerBinomials(Weighted(c), s)[l]
    {
      if l > 0 {
        M2MSumWeighted(c, s, l, l);
        LowerBinomialClosedForm(Weighted(c), s, l);
        assert M2MCoeffs(c, s)[l] == M2MSum(c, s, l, l);
      } else {
        assert M2MCoeffs(c, s)[0] == FromReal(c[0].re);
      }
    }
  }

  /** Coefficients whose c0 is real are determined by their weighted form. */
  lemma WeightedInjective(a: seq<Complex>, b: seq<Complex>)
    requires |a| == |b| >= 1 && a[0].im == 0.0 && b[0].im == 0.0
    requires Weighted(a) == Weighted(b)
    ensures a == b
  {
    forall k | 0 <= k < |a|
      ensures a[k] == b[k]
    {
      WeightedInjectiveAt(a, b, k);
    }
  }

  lemma WeightedInjectiveAt(a: seq<Complex>, b: seq<Complex>, k: nat)
    requires |a| == |b| >= 1 && k < |a| && a[0].im == 0.0 && b[0].im == 0.0
    requires Weighted(a)[k] == Weighted(b)[k]
    ensures a[k] == b[k]
  {
    if k == 0 {
      assert FromReal(-a[0].re) == FromReal(-b[0].re);
      assert a[0] == Complex(a[0].re, 0.0);
      assert b[0] == Complex(b[0].re, 0.0);
    } else {
      var f := k as real;
      assert Scale(a[k], f) == Scale(b[k], f);
      assert a[k].re * f == b[k].re * f && a[k].im * f == b[k].im * f;
      CancelFactor(a[k].re, b[k].re, f);
      CancelFactor(a[k].im, b[k].im, f);
      assert a[k] == Complex(a[k].re, a[k].im);
      assert b[k] == Complex(b[k].re, b[k].im);
    }
  }

  lemma CancelFactor(x: real, y: real, f: real)
    requires f != 0.0 && x * f == y * f
    ensures x == y
  {
  }

  /** Two translations in a row are one translation by the sum of the shifts. */
  lemma M2MCompose(c: seq<Complex>, s1: Complex, s2: Complex)
    requires |c| >= 1
    ensures M2MCoeffs(M2MCoeffs(c, s1), s2) == M2MCoeffs(c, Add(s1, s2))
  {
    var once := M2MCoeffs(c, s1);
    var w := Weighted(c);
    WeightedM2M(once, s2);
    WeightedM2M(c, s1);
    WeightedM2M(c, Add(s1, s2));
    forall m | 0 <= m < |c|
      ensures LowerBinomials(LowerBinomials(w, s1), s2)[m] == LowerBinomials(w, Add(s1, s2))[m]
    {
      LowerBinomialCompose(w, s1, s2, m);
    }
    assert M2MCoeffs(once, s2)[0] == FromReal(once[0].re);
    assert M2MCoeffs(c, Add(s1, s2))[0] == FromReal(c[0].re);
    WeightedInjective(M2MCoeffs(once, s2), M2MCoeffs(c, Add(s1, s2)));
  }

  // ---------------------------------------------------------------------------
  // The object

  /** MultipoleExpansion: order p, complex centre, p + 1 coefficients, and the
      memo tables M2M uses. */
  class MultipoleExpansion {
    var p: int
    var center: Complex
    var coeffs: seq<Complex>
    const binomialTable: BinomialTable
    const expTable: ExponentialTable

    ghost predicate Valid()
      reads this, binomialTable, expTable
    {
      p >= -1 && |coeffs| == p + 1 && binomialTable.Valid() && expTable.Valid()
    }

    function Value(): Expansion
      reads this
    {
      Expansion(p, center, coeffs)
    }

    /** MultipoleExpansion(p, center): p + 1 zero coefficients. */
    constructor (p: int, center: Vector2)
      requires p >= -1
      ensures Valid() && fresh(binomialTable) && fresh(expTable)
      ensures Value() == ZeroExpansion(p, ToComplex(center))
    {
      this.p := p;
      this.center := ToComplex(center);
      this.coeffs := ZeroCoeffs(p + 1);
      binomialTable := new BinomialTable();
      expTable := new ExponentialTable();
    }

    /** MultipoleExpansion(center, coeffs): p is one less than the number of
        coefficients given. */
    constructor FromCoeffs(center: Vector2, coeffs: seq<Complex>)
      ensures Valid() && fresh(binomialTable) && fresh(expTable)
      ensures Value() == Expansion(|coeffs| - 1, ToComplex(center), coeffs)
    {
      this.coeffs := coeffs;
      this.p := |coeffs| - 1;
      this.center := ToComplex(center);
      binomialTable := new BinomialTable();
      expTable := new ExponentialTable();
    }

    /** clear(): p + 1 zeros again, order and centre kept. */
    method Clear()
      requires Valid()
      modifies this
      ensures Valid()
      ensures Value() == ZeroExpansion(old(p), old(center))
    {
      coeffs := ZeroCoeffs(p + 1);
    }

    /** operator+=: throws on a different order or centre, otherwise adds the
        coefficients; other may be this object itself. */
    method AddAssign(other: MultipoleExpansion) returns (status: Status)
      requires Valid() && other.Valid()
      modifies this
      ensures Valid()
      ensures match Accumulate(old(Value()), old(other.Value()), "Cannot add incompatible multipole expansions")
        case Ok(e) => status == Completed && Value() == e
        case Failure(m) => status == Threw(m) && Value() == old(Value())
    {
      if p != other.p || center != other.center {
        return Threw("Cannot add incompatible multipole expansions");
      }
      ghost var a, b := coeffs, other.coeffs;
      var k := 0;
      while k <= p
        invariant 0 <= k <= p + 1 && |coeffs| == p + 1
        invariant p == old(p) && center == old(center)
        invariant other == this || other.coeffs == b
        invariant forall j :: 0 <= j < k ==> coeffs[j] == Add(a[j], b[j])
        invariant forall j :: k <= j <= p ==> coeffs[j] == a[j]
      {
        coeffs := coeffs[k := Add(coeffs[k], other.coeffs[k])];
        k := k + 1;
      }
      status := Completed;
    }

    /** buildExpansion(sources): every source's contribution added in turn. */
    method BuildExpansion(sources: seq<Point>)
      requires Valid()
      requires p >= 0 || |sources| == 0
      modifies this
      ensures Valid()
      ensures p == old(p) && center == old(center)
      ensures coeffs == if |sources| == 0 then old(coeffs) else BuildCoeffs(old(coeffs), center, sources)
    {
      if |sources| == 0 {
        return;
      }
      var i := 0;
      while i < |sources|
        invariant 0 <= i <= |sources|
        invariant Valid() && p == old(p) && center == old(center) && p >= 0
        invariant coeffs == BuildCoeffs(old(coeffs), center, sources[..i])
      {
        AddSourceInPlace(sources[i]);
        assert sources[..i + 1][..i] == sources[..i];
        i := i + 1;
      }
      assert sources[..|sources|] == sources;
    }

    /** The body of buildExpansion's loop for one source: coeffs[0] += q, then
        coeffs[k] -= q z^k / k with z^k kept in a running power. */
    method AddSourceInPlace(source: Point)
      requires Valid() && p >= 0
      modifies this
      ensures Valid() && p == old(p) && center == old(center)
      ensures coeffs == AddSource(old(coeffs), center, source)
    {
      var z := Sub(ToComplex(source.position), center);
      coeffs := coeffs[0 := Add(coeffs[0], FromReal(source.strength))];
      var zPower := z;
      var k := 1;
      while k <= p
        invariant 1 <= k <= p + 1 && |coeffs| == p + 1
        invariant Valid() && p == old(p) && center == old(center)
        invariant zPower == Pow(z, k)
        invariant forall j :: 0 <= j < k ==> coeffs[j] == AddSource(old(coeffs), center, source)[j]
        invariant forall j :: k <= j <= p ==> coeffs[j] == old(coeffs)[j]
      {
        coeffs := coeffs[k := Sub(coeffs[k], DivReal(Scale(zPower, source.strength), k as real))];
        zPower := Mul(zPower, z);
        k := k + 1;
      }
    }

    /** M2M(shift): a new expansion about center - shift with the translated
        coefficients; this object's coefficients are untouched. */
    method M2M(shift: Complex) returns (r: MultipoleExpansion)
      requires Valid() && p >= 0
      modifies binomialTable, expTable
      ensures Valid() && unchanged(this)
      ensures fresh(r) && r.Valid()
      ensures r.Value() == Expansion(p, Sub(center, shift), M2MCoeffs(coeffs, shift))
    {
      var newCenter := Sub(center, shift);
      var newCoeffs := ZeroCoeffs(p + 1);
      newCoeffs := newCoeffs[0 := FromReal(coeffs[0].re)];
      var l := 1;
      while l <= p
        invariant 1 <= l <= p + 1 && |newCoeffs| == p + 1
        invariant Valid()
        invariant forall j :: 0 <= j < l ==> newCoeffs[j] == M2MCoeffs(coeffs, shift)[j]
      {
        var power := expTable.Exp(shift, l);
        newCoeffs := newCoeffs[l := DivReal(Scale(power, -coeffs[0].re), l as real)];
        var k := 1;
        while k <= l
          invariant 1 <= k <= l + 1 && |newCoeffs| == p + 1
          invariant Valid()
          invariant newCoeffs[l] == M2MSum(coeffs, shift, l, k - 1)
          invariant forall j :: 0 <= j < l ==> newCoeffs[j] == M2MCoeffs(coeffs, shift)[j]
        {
          var shiftPower := expTable.Exp(shift, l - k);
          var binomial := binomialTable.Binomial(l - 1, k - 1);
          newCoeffs := newCoeffs[l := Add(newCoeffs[l], Scale(Mul(coeffs[k], shiftPower), binomial as real))];
          k := k + 1;
        }
        l := l + 1;
      }
      r := new MultipoleExpansion.FromCoeffs(ToVector(newCenter), newCoeffs);
    }
  }
}
