/** The lower binomial transform of a coefficient sequence, entry m being
    sum_{i=0..m} C(m, i) s^(m-i) x_i.  Translating a multipole expansion is
    this transform on weighted coefficients (Multipoles.WeightedM2M), and the
    transform composes by adding steps (LowerBinomialCompose). */
module Transforms {

  import opened Complexes
  import opened Tables

  /** Entry m of the transform with step s, by Pascal's recurrence. */
  function LowerBinomial(x: seq<Complex>, s: Complex, m: nat): Complex
    requires m < |x|
  {
    if m == 0 then x[0]
    else Add(Mul(s, LowerBinomial(x, s, m - 1)), LowerBinomial(x[1..], s, m - 1))
  }

  function LowerBinomials(x: seq<Complex>, s: Complex): (r: seq<Complex>)
    ensures |r| == |x|
    ensures forall m :: 0 <= m < |x| ==> r[m] == LowerBinomial(x, s, m)
  {
    seq(|x|, m requires 0 <= m < |x| => LowerBinomial(x, s, m))
  }

  /** One term C(m, i) x_i s^(m-i) of the closed form. */
  function BinomialTerm(x: seq<Complex>, s: Complex, m: nat, i: nat): Complex
    requires i <= m < |x|
  {
    Scale(Mul(x[i], Pow(s, m - i)), Binom(m, i) as real)
  }

  /** The first K terms of the closed form of entry m. */
  function BinomialSum(x: seq<Complex>, s: Complex, m: nat, K: nat): Complex
    requires K <= m + 1 && m < |x|
  {
    if K == 0 then Zero else Add(BinomialSum(x, s, m, K - 1), BinomialTerm(x, s, m, K - 1))
  }

  /** z a + b, entry by entry. */
  function Combine(a: seq<Complex>, z: Complex, b: seq<Complex>): (r: seq<Complex>)
    requires |a| == |b|
    ensures |r| == |a|
  {
    seq(|a|, i requires 0 <= i < |a| => Add(Mul(z, a[i]), b[i]))
  }

  // ---------------------------------------------------------------------------
  // Ring identities for single steps

  lemma CombineStep(t: Complex, z: Complex, a: Complex, b: Complex, a1: Complex, b1: Complex)
    ensures Add(Mul(t, Add(Mul(z, a), b)), Add(Mul(z, a1), b1))
         == Add(Mul(z, Add(Mul(t, a), a1)), Add(Mul(t, b), b1))
  {
    MulAddLeft(t, Mul(z, a), b);
    MulAddLeft(z, Mul(t, a), a1);
    MulAssoc(t, z, a);
    MulAssoc(z, t, a);
    MulComm(t, z);
  }

  lemma ComposeStep(s: Complex, t: Complex, x: Complex, y: Complex)
    ensures Add(Mul(t, x), Add(Mul(s, x), y)) == Add(Mul(Add(s, t), x), y)
  {
    MulAddRight(s, t, x);
  }

  lemma TermStep(x: Complex, q: Complex, s: Complex, b1: real, b2: real)
    ensures Scale(Mul(x, Mul(q, s)), b1 + b2)
         == Add(Mul(s, Scale(Mul(x, q), b2)), Scale(Mul(x, Mul(q, s)), b1))
  {
    MulScale(s, Mul(x, q), b2);
    MulAssoc(x, q, s);
    MulComm(Mul(x, q), s);
    ScaleLaws(Mul(x, Mul(q, s)), Zero, b1, b2);
  }

  // ---------------------------------------------------------------------------
  // Properties of the transform

  /** Entry m depends only on the first m + 1 coefficients. */
  lemma {:induction false} LowerBinomialPrefix(x: seq<Complex>, s: Complex, m: nat, k: nat)
    requires m < k <= |x|
    ensures LowerBinomial(x[..k], s, m) == LowerBinomial(x, s, m)
  {
    if m > 0 {
      LowerBinomialPrefix(x, s, m - 1, k);
      assert x[..k][1..] == x[1..][..k - 1];
      LowerBinomialPrefix(x[1..], s, m - 1, k - 1);
    }
  }

  /** The transform is linear. */
  lemma {:induction false} LowerBinomialLinear(a: seq<Complex>, z: Complex, b: seq<Complex>, t: Complex, m: nat)
    requires |a| == |b| && m < |a|
    ensures LowerBinomial(Combine(a, z, b), t, m) == Add(Mul(z, LowerBinomial(a, t, m)), LowerBinomial(b, t, m))
  {
    if m > 0 {
      assert Combine(a, z, b)[1..] == Combine(a[1..], z, b[1..]);
      LowerBinomialLinear(a, z, b, t, m - 1);
      LowerBinomialLinear(a[1..], z, b[1..], t, m - 1);
      CombineStep(t, z, LowerBinomial(a, t, m - 1), LowerBinomial(b, t, m - 1),
                  LowerBinomial(a[1..], t, m - 1), LowerBinomial(b[1..], t, m - 1));
    }
  }

  /** Transforming by s and then by t is transforming by s + t. */
  lemma {:induction false} LowerBinomialCompose(x: seq<Complex>, s: Complex, t: Complex, m: nat)
    requires m < |x|
    ensures LowerBinomial(LowerBinomials(x, s), t, m) == LowerBinomial(x, Add(s, t), m)
  {
    if m > 0 {
      var n := |x|;
      var tx := LowerBinomials(x, s);
      var tx1 := LowerBinomials(x[1..], s);
      assert tx[1..] == Combine(tx[..n - 1], s, tx1) by {
        forall k | 0 <= k < n - 1
          ensures tx[1..][k] == Combine(tx[..n - 1], s, tx1)[k]
        {
          assert tx[k + 1] == LowerBinomial(x, s, k + 1);
        }
      }
      LowerBinomialLinear(tx[..n - 1], s, tx1, t, m - 1);
      LowerBinomialPrefix(tx, t, m - 1, n - 1);
      LowerBinomialCompose(x, s, t, m - 1);
      LowerBinomialCompose(x[1..], s, t, m - 1);
      ComposeStep(s, t, LowerBinomial(x, Add(s, t), m - 1), LowerBinomial(x[1..], Add(s, t), m - 1));
    }
  }

  /** Pascal's rule on one term of the closed form. */
  lemma PascalTerm(x: seq<Complex>, s: Complex, m: nat, i: nat)
    requires 1 <= i < m < |x|
    ensures BinomialTerm(x, s, m, i)
         == Add(Mul(s, BinomialTerm(x, s, m - 1, i)), BinomialTerm(x[1..], s, m - 1, i - 1))
  {
    var q := Pow(s, m - 1 - i);
    var b1, b2 := Binom(m - 1, i - 1), Binom(m - 1, i);
    assert Pow(s, m - i) == Mul(q, s);
    assert x[1..][i - 1] == x[i];
    assert Binom(m, i) as real == b1 as real + b2 as real;
    TermStep(x[i], q, s, b1 as real, b2 as real);
  }

  /** The first K terms of entry m, split along Pascal's rule. */
  lemma {:induction false} BinomialSumSplit(x: seq<Complex>, s: Complex, m: nat, K: nat)
    requires 1 <= K <= m < |x|
    ensures BinomialSum(x, s, m, K)
         == Add(Mul(s, BinomialSum(x, s, m - 1, K)), BinomialSum(x[1..], s, m - 1, K - 1))
  {
    if K == 1 {
      assert Pow(s, m) == Mul(Pow(s, m - 1), s);
      MulScale(s, Mul(x[0], Pow(s, m - 1)), 1.0);
      MulAssoc(x[0], Pow(s, m - 1), s);
      MulComm(Mul(x[0], Pow(s, m - 1)), s);
    } else {
      BinomialSumSplit(x, s, m, K - 1);
      PascalTerm(x, s, m, K - 1);
      MulAddLeft(s, BinomialSum(x, s, m - 1, K - 1), BinomialTerm(x, s, m - 1, K - 1));
    }
  }

  /** The recurrence computes the closed form sum_{i=0..m} C(m, i) s^(m-i) x_i. */
  lemma {:induction false} LowerBinomialClosedForm(x: seq<Complex>, s: Complex, m: nat)
    requires m < |x|
    ensures LowerBinomial(x, s, m) == BinomialSum(x, s, m, m + 1)
  {
    MulZero(x[m]);
    BinomDiagonal(m);
    if m > 0 {
      LowerBinomialClosedForm(x, s, m - 1);
      LowerBinomialClosedForm(x[1..], s, m - 1);
      BinomialSumSplit(x, s, m, m);
      BinomDiagonal(m - 1);
      assert x[1..][m - 1] == x[m];
    }
  }
}
