/** Local expansions (src/local.h, src/local.cpp): the near-field Taylor series
    sum_l c_l (z - center)^l, obtained from a multipole expansion (M2L) or from
    a parent's local expansion (L2L) and evaluated at a point. */
module Locals {

  import opened Complexes
  import opened Vectors
  import opened Outcomes
  import opened Tables
  import opened Series
  import opened Multipoles
  import opened Transforms

  // ---------------------------------------------------------------------------
  // Evaluation

  /** sum_{l < n} c_l z^l, accumulated in ascending order as evaluate does. */
  function PolySum(c: seq<Complex>, z: Complex, n: nat): Complex
    requires n <= |c|
  {
    if n == 0 then Zero else Add(PolySum(c, z, n - 1), Mul(c[n - 1], Pow(z, n - 1)))
  }

  /** The same polynomial in Horner form, c_0 + z (c_1 + z (c_2 + ...)). */
  function Horner(c: seq<Complex>, z: Complex): Complex {
    if |c| == 0 then Zero else Add(c[0], Mul(z, Horner(c[1..], z)))
  }

  /** The real part of the series at a point: what evaluate returns. */
  function LocalValue(e: Expansion, point: Vector2): real
    requires e.WellFormed()
  {
    PolySum(e.coeffs, Sub(ToComplex(point), e.center), |e.coeffs|).re
  }

  lemma PowOne(z: Complex)
    ensures Pow(z, 1) == z
  {
    MulZero(z);
  }

  /** Splitting off the constant term of the ascending sum. */
  lemma {:induction false} PolySumTail(c: seq<Complex>, z: Complex, n: nat)
    requires 1 <= n <= |c|
    ensures PolySum(c, z, n) == Add(c[0], Mul(z, PolySum(c[1..], z, n - 1)))
  {
    if n == 1 {
      MulZero(c[0]);
      MulZero(z);
    } else {
      PolySumTail(c, z, n - 1);
      var t, w, x := PolySum(c[1..], z, n - 2), Pow(z, n - 2), c[n - 1];
      assert c[1..][n - 2] == x;
      // z * (x * z^(n-2)) == x * z^(n-1)
      calc {
        Mul(z, Mul(x, w));
        { MulComm(z, Mul(x, w)); }
        Mul(Mul(x, w), z);
        { MulAssoc(x, w, z); }
        Mul(x, Mul(w, z));
      }
      MulAddLeft(z, t, Mul(x, w));
    }
  }

  /** The ascending sum evaluate computes is the Horner form of the polynomial. */
  lemma {:induction false} PolySumIsHorner(c: seq<Complex>, z: Complex)
    ensures PolySum(c, z, |c|) == Horner(c, z)
  {
    if |c| > 0 {
      PolySumTail(c, z, |c|);
      PolySumIsHorner(c[1..], z);
    }
  }

  /** At the expansion centre the series takes the value of its constant term. */
  lemma LocalValueAtCenter(e: Expansion)
    requires e.WellFormed() && e.p >= 0
    ensures LocalValue(e, ToVector(e.center)) == e.coeffs[0].re
  {
    assert ToComplex(ToVector(e.center)) == e.center;
    assert Sub(e.center, e.center) == Zero;
    PolySumIsHorner(e.coeffs, Zero);
    assert Horner(e.coeffs, Zero) == Add(e.coeffs[0], Mul(Zero, Horner(e.coeffs[1..], Zero)));
    MulZero(Horner(e.coeffs[1..], Zero));
  }

  lemma {:induction false} PolySumAdd(a: seq<Complex>, b: seq<Complex>, z: Complex, n: nat)
    requires |a| == |b| && n <= |a|
    ensures PolySum(AddCoeffs(a, b), z, n) == Add(PolySum(a, z, n), PolySum(b, z, n))
  {
    if n > 0 {
      PolySumAdd(a, b, z, n - 1);
      MulAddRight(a[n - 1], b[n - 1], Pow(z, n - 1));
    }
  }

  /** Adding two compatible local expansions adds the values they give at every point. */
  lemma LocalValueAdd(a: Expansion, b: Expansion, point: Vector2)
    requires a.WellFormed() && b.WellFormed() && Compatible(a, b)
    ensures Accumulate(a, b, "").Ok?
    ensures LocalValue(Accumulate(a, b, "").value, point) == LocalValue(a, point) + LocalValue(b, point)
  {
    PolySumAdd(a.coeffs, b.coeffs, Sub(ToComplex(point), a.center), |a.coeffs|);
  }

  // ---------------------------------------------------------------------------
  // L2L

  /** One pass of L2L's inner loop over the slots behind an already shifted
      suffix t: the new slot holds a - s t_0, each slot of t loses s times its
      successor, and the last slot stays. */
  function HornerStep(a: Complex, t: seq<Complex>, s: Complex): (r: seq<Complex>)
    requires |t| >= 1
    ensures |r| == |t| + 1
  {
    seq(|t| + 1, i requires 0 <= i <= |t| =>
      if i == 0 then Sub(a, Mul(s, t[0]))
      else if i < |t| then Sub(t[i - 1], Mul(s, t[i]))
      else t[|t| - 1])
  }

  /** The coefficients L2L computes: the passes for slots p-1, p-2, .., 0 in turn. */
  function TaylorShift(c: seq<Complex>, s: Complex): (r: seq<Complex>)
    ensures |r| == |c|
  {
    if |c| <= 1 then c else HornerStep(c[0], TaylorShift(c[1..], s), s)
  }

  /** The ring identity behind one pass. */
  lemma StepIdentity(a: Complex, t0: Complex, s: Complex, w: Complex, h: Complex)
    ensures Add(Sub(a, Mul(s, t0)), Mul(w, Add(t0, Mul(Sub(w, s), h))))
         == Add(a, Mul(Sub(w, s), Add(t0, Mul(w, h))))
  {
    var d := Sub(w, s);
    MulAddLeft(w, t0, Mul(d, h));
    MulAddLeft(d, t0, Mul(w, h));
    MulSubRight(w, s, t0);
    MulAssoc(w, d, h);
    MulComm(w, d);
    MulAssoc(d, w, h);
  }

  lemma HornerSingle(x: Complex, w: Complex)
    ensures Horner([x], w) == x
  {
    assert [x][1..] == [];
    MulZero(w);
  }

  /** A pass multiplies the shifted polynomial by (w - s) and adds a. */
  lemma {:induction false} HornerStepValue(a: Complex, t: seq<Complex>, s: Complex, w: Complex)
    requires |t| >= 1
    ensures Horner(HornerStep(a, t, s), w) == Add(a, Mul(Sub(w, s), Horner(t, w)))
    decreases |t|
  {
    var r := HornerStep(a, t, s);
    if |t| == 1 {
      assert r[1..] == [t[0]];
      HornerSingle(t[0], w);
      assert t == [t[0]];
      StepIdentity(a, t[0], s, w, Zero);
      MulZero(Sub(w, s));
      MulZero(w);
    } else {
      assert r[1..] == HornerStep(t[0], t[1..], s);
      HornerStepValue(t[0], t[1..], s, w);
      StepIdentity(a, t[0], s, w, Horner(t[1..], w));
    }
  }

  /** L2L is exact: the shifted coefficients, read about center - s, are the
      same polynomial as the original ones about center. */
  lemma {:induction false} TaylorShiftValue(c: seq<Complex>, s: Complex, w: Complex)
    ensures Horner(TaylorShift(c, s), w) == Horner(c, Sub(w, s))
  {
    if |c| == 1 {
      HornerSingle(c[0], w);
      HornerSingle(c[0], Sub(w, s));
      assert c == [c[0]];
    } else if |c| > 1 {
      TaylorShiftValue(c[1..], s, w);
      HornerStepValue(c[0], TaylorShift(c[1..], s), s, w);
    }
  }

  /** Evaluating the L2L result anywhere gives what the original gives there. */
  lemma L2LPreservesValue(e: Expansion, s: Complex, point: Vector2)
    requires e.WellFormed()
    ensures LocalValue(Expansion(e.p, Sub(e.center, s), TaylorShift(e.coeffs, s)), point) == LocalValue(e, point)
  {
    var w := Sub(ToComplex(point), Sub(e.center, s));
    assert Sub(w, s) == Sub(ToComplex(point), e.center);
    PolySumIsHorner(TaylorShift(e.coeffs, s), w);
    PolySumIsHorner(e.coeffs, Sub(w, s));
    TaylorShiftValue(e.coeffs, s, w);
  }

  /** A zero shift changes nothing, and any shift keeps the top coefficient. */
  lemma {:induction false} TaylorShiftZeroAndTop(c: seq<Complex>, s: Complex)
    ensures TaylorShift(c, Zero) == c
    ensures |c| >= 1 ==> TaylorShift(c, s)[|c| - 1] == c[|c| - 1]
  {
    if |c| > 1 {
      TaylorShiftZeroAndTop(c[1..], s);
      var t := TaylorShift(c[1..], Zero);
      forall i | 0 <= i < |t|
        ensures Mul(Zero, t[i]) == Zero
      {
        MulZero(t[i]);
      }
      assert HornerStep(c[0], t, Zero) == c;
    }
  }

  // ---------------------------------------------------------------------------
  // Composition and closed form of L2L

  /** a - z b, entry by entry. */
  function SubScaled(a: seq<Complex>, z: Complex, b: seq<Complex>): (r: seq<Complex>)
    requires |a| == |b|
    ensures |r| == |a|
  {
    seq(|a|, i requires 0 <= i < |a| => Sub(a[i], Mul(z, b[i])))
  }

  lemma LinearIdentity(x: Complex, y: Complex, u: Complex, v: Complex, z: Complex, s: Complex)
    ensures Sub(Sub(x, Mul(z, y)), Mul(s, Sub(u, Mul(z, v))))
         == Sub(Sub(x, Mul(s, u)), Mul(z, Sub(y, Mul(s, v))))
  {
    MulSubLeft(s, u, Mul(z, v));
    MulSubLeft(z, y, Mul(s, v));
    MulAssoc(s, z, v);
    MulAssoc(z, s, v);
    MulComm(s, z);
  }

  /** A pass commutes with taking a - z b. */
  lemma HornerStepLinear(a0: Complex, ta: seq<Complex>, b0: Complex, tb: seq<Complex>, z: Complex, s: Complex)
    requires |ta| == |tb| >= 1
    ensures HornerStep(Sub(a0, Mul(z, b0)), SubScaled(ta, z, tb), s)
         == SubScaled(HornerStep(a0, ta, s), z, HornerStep(b0, tb, s))
  {
    forall i | 0 <= i <= |ta|
      ensures HornerStep(Sub(a0, Mul(z, b0)), SubScaled(ta, z, tb), s)[i]
           == SubScaled(HornerStep(a0, ta, s), z, HornerStep(b0, tb, s))[i]
    {
      HornerStepLinearAt(a0, ta, b0, tb, z, s, i);
    }
  }

  lemma HornerStepLinearAt(a0: Complex, ta: seq<Complex>, b0: Complex, tb: seq<Complex>, z: Complex, s: Complex, i: nat)
    requires |ta| == |tb| >= 1 && i <= |ta|
    ensures HornerStep(Sub(a0, Mul(z, b0)), SubScaled(ta, z, tb), s)[i]
         == SubScaled(HornerStep(a0, ta, s), z, HornerStep(b0, tb, s))[i]
  {
    SubScaledAt(HornerStep(a0, ta, s), z, HornerStep(b0, tb, s), i);
    if i == 0 {
      LinearFirst(a0, ta, b0, tb, z, s);
    } else if i < |ta| {
      LinearMiddle(a0, ta, b0, tb, z, s, i);
    } else {
      LinearLast(a0, ta, b0, tb, z, s);
    }
  }

  lemma LinearFirst(a0: Complex, ta: seq<Complex>, b0: Complex, tb: seq<Complex>, z: Complex, s: Complex)
    requires |ta| == |tb| >= 1
    ensures HornerStep(Sub(a0, Mul(z, b0)), SubScaled(ta, z, tb), s)[0]
         == Sub(HornerStep(a0, ta, s)[0], Mul(z, HornerStep(b0, tb, s)[0]))
  {
    HornerStepFirst(Sub(a0, Mul(z, b0)), SubScaled(ta, z, tb), s);
    HornerStepFirst(a0, ta, s);
    HornerStepFirst(b0, tb, s);
    SubScaledAt(ta, z, tb, 0);
    LinearIdentity(a0, b0, ta[0], tb[0], z, s);
  }

  lemma LinearMiddle(a0: Complex, ta: seq<Complex>, b0: Complex, tb: seq<Complex>, z: Complex, s: Complex, i: nat)
    requires |ta| == |tb| && 0 < i < |ta|
    ensures HornerStep(Sub(a0, Mul(z, b0)), SubScaled(ta, z, tb), s)[i]
         == Sub(HornerStep(a0, ta, s)[i], Mul(z, HornerStep(b0, tb, s)[i]))
  {
    var d := SubScaled(ta, z, tb);
    HornerStepMiddle(Sub(a0, Mul(z, b0)), d, s, i);
    HornerStepMiddle(a0, ta, s, i);
    HornerStepMiddle(b0, tb, s, i);
    EntriesLinear(ta, tb, z, s, i);
  }

  lemma EntriesLinear(ta: seq<Complex>, tb: seq<Complex>, z: Complex, s: Complex, i: nat)
    requires |ta| == |tb| && 0 < i < |ta|
    ensures Sub(SubScaled(ta, z, tb)[i - 1], Mul(s, SubScaled(ta, z, tb)[i]))
         == Sub(Sub(ta[i - 1], Mul(s, ta[i])), Mul(z, Sub(tb[i - 1], Mul(s, tb[i]))))
  {
    SubScaledAt(ta, z, tb, i - 1);
    SubScaledAt(ta, z, tb, i);
    LinearIdentity(ta[i - 1], tb[i - 1], ta[i], tb[i], z, s);
  }

  lemma LinearLast(a0: Complex, ta: seq<Complex>, b0: Complex, tb: seq<Complex>, z: Complex, s: Complex)
    requires |ta| == |tb| >= 1
    ensures HornerStep(Sub(a0, Mul(z, b0)), SubScaled(ta, z, tb), s)[|ta|]
         == Sub(HornerStep(a0, ta, s)[|ta|], Mul(z, HornerStep(b0, tb, s)[|ta|]))
  {
    HornerStepLast(Sub(a0, Mul(z, b0)), SubScaled(ta, z, tb), s);
    HornerStepLast(a0, ta, s);
    HornerStepLast(b0, tb, s);
    SubScaledAt(ta, z, tb, |ta| - 1);
  }

  lemma SubScaledAt(a: seq<Complex>, z: Complex, b: seq<Complex>, i: nat)
    requires |a| == |b| && i < |a|
    ensures SubScaled(a, z, b)[i] == Sub(a[i], Mul(z, b[i]))
  {
  }

  /** The entries of a pass: the new slot, a slot of t, and the top slot. */
  lemma HornerStepFirst(a: Complex, t: seq<Complex>, s: Complex)
    requires 1 <= |t|
    ensures HornerStep(a, t, s)[0] == Sub(a, Mul(s, t[0]))
  {
  }

  lemma HornerStepMiddle(a: Complex, t: seq<Complex>, s: Complex, i: nat)
    requires 0 < i < |t|
    ensures HornerStep(a, t, s)[i] == Sub(t[i - 1], Mul(s, t[i]))
  {
  }

  lemma HornerStepLast(a: Complex, t: seq<Complex>, s: Complex)
    requires 1 <= |t|
    ensures HornerStep(a, t, s)[|t|] == t[|t| - 1]
  {
  }

  /** L2L is linear. */
  lemma {:induction false} TaylorShiftLinear(a: seq<Complex>, z: Complex, b: seq<Complex>, s: Complex)
    requires |a| == |b|
    ensures TaylorShift(SubScaled(a, z, b), s) == SubScaled(TaylorShift(a, s), z, TaylorShift(b, s))
    decreases |a|
  {
    if |a| > 1 {
      var d := SubScaled(a, z, b);
      assert d[1..] == SubScaled(a[1..], z, b[1..]);
      TaylorShiftLinear(a[1..], z, b[1..], s);
      HornerStepLinear(a[0], TaylorShift(a[1..], s), b[0], TaylorShift(b[1..], s), z, s);
    }
  }

  /** A pass over a suffix padded with a zero top coefficient is the pass padded. */
  lemma HornerStepPad(a: Complex, t: seq<Complex>, s: Complex)
    requires |t| >= 1
    ensures HornerStep(a, t + [Zero], s) == HornerStep(a, t, s) + [Zero]
  {
    MulZero(s);
  }

  /** A zero top coefficient stays zero and changes no other coefficient. */
  lemma {:induction false} TaylorShiftPad(x: seq<Complex>, s: Complex)
    requires |x| >= 1
    ensures TaylorShift(x + [Zero], s) == TaylorShift(x, s) + [Zero]
    decreases |x|
  {
    var y := x + [Zero];
    if |x| == 1 {
      assert y[1..] == [Zero];
      MulZero(s);
      assert x == [x[0]];
    } else {
      assert y[1..] == x[1..] + [Zero];
      TaylorShiftPad(x[1..], s);
      HornerStepPad(x[0], TaylorShift(x[1..], s), s);
    }
  }

  lemma ComposeIdentity(c: Complex, u: Complex, q: Complex, r: Complex, s1: Complex, s2: Complex)
    requires Sub(u, Mul(s2, r)) == q
    ensures Sub(Sub(c, Mul(s1, u)), Mul(s2, Sub(q, Mul(s1, r)))) == Sub(c, Mul(Add(s1, s2), q))
  {
    assert u == Add(q, Mul(s2, r));
    MulAddLeft(s1, q, Mul(s2, r));
    MulSubLeft(s2, q, Mul(s1, r));
    MulAssoc(s1, s2, r);
    MulAssoc(s2, s1, r);
    MulComm(s1, s2);
    MulAddRight(s1, s2, q);
  }

  /** The pass for the lowest slot of a composed shift, given that the pass over
      the second shift's suffix r reproduces q padded with zero. */
  lemma ComposeSteps(c0: Complex, u0: Complex, q: seq<Complex>, r: seq<Complex>, s1: Complex, s2: Complex)
    requires |q| == |r| >= 1
    requires HornerStep(u0, r, s2) == q + [Zero]
    ensures HornerStep(Sub(c0, Mul(s1, u0)), SubScaled(q, s1, r), s2) == HornerStep(c0, q, Add(s1, s2))
  {
    forall i | 0 <= i <= |q|
      ensures HornerStep(Sub(c0, Mul(s1, u0)), SubScaled(q, s1, r), s2)[i] == HornerStep(c0, q, Add(s1, s2))[i]
    {
      assert HornerStep(u0, r, s2)[i] == (q + [Zero])[i];
      if i == 0 {
        HornerStepFirst(u0, r, s2);
        ComposeFirst(c0, u0, q, r, s1, s2);
      } else if i < |q| {
        HornerStepMiddle(u0, r, s2, i);
        ComposeMiddleAt(c0, u0, q, r, s1, s2, i);
      } else {
        HornerStepLast(u0, r, s2);
        ComposeLast(c0, u0, q, r, s1, s2);
      }
    }
  }

  lemma ComposeFirst(c0: Complex, u0: Complex, q: seq<Complex>, r: seq<Complex>, s1: Complex, s2: Complex)
    requires |q| == |r| >= 1 && Sub(u0, Mul(s2, r[0])) == q[0]
    ensures HornerStep(Sub(c0, Mul(s1, u0)), SubScaled(q, s1, r), s2)[0] == HornerStep(c0, q, Add(s1, s2))[0]
  {
    HornerStepFirst(Sub(c0, Mul(s1, u0)), SubScaled(q, s1, r), s2);
    HornerStepFirst(c0, q, Add(s1, s2));
    SubScaledAt(q, s1, r, 0);
    ComposeIdentity(c0, u0, q[0], r[0], s1, s2);
  }

  lemma ComposeMiddleAt(c0: Complex, u0: Complex, q: seq<Complex>, r: seq<Complex>, s1: Complex, s2: Complex, i: nat)
    requires |q| == |r| && 0 < i < |q| && Sub(r[i - 1], Mul(s2, r[i])) == q[i]
    ensures HornerStep(Sub(c0, Mul(s1, u0)), SubScaled(q, s1, r), s2)[i] == HornerStep(c0, q, Add(s1, s2))[i]
  {
    HornerStepMiddle(Sub(c0, Mul(s1, u0)), SubScaled(q, s1, r), s2, i);
    HornerStepMiddle(c0, q, Add(s1, s2), i);
    ComposeMiddle(q, r, s1, s2, i);
  }

  lemma ComposeLast(c0: Complex, u0: Complex, q: seq<Complex>, r: seq<Complex>, s1: Complex, s2: Complex)
    requires |q| == |r| >= 1 && r[|q| - 1] == Zero
    ensures HornerStep(Sub(c0, Mul(s1, u0)), SubScaled(q, s1, r), s2)[|q|] == HornerStep(c0, q, Add(s1, s2))[|q|]
  {
    HornerStepLast(Sub(c0, Mul(s1, u0)), SubScaled(q, s1, r), s2);
    HornerStepLast(c0, q, Add(s1, s2));
    SubScaledAt(q, s1, r, |q| - 1);
    MulZero(s1);
  }

  lemma ComposeMiddle(q: seq<Complex>, r: seq<Complex>, s1: Complex, s2: Complex, i: nat)
    requires |q| == |r| && 0 < i < |q|
    requires Sub(r[i - 1], Mul(s2, r[i])) == q[i]
    ensures Sub(SubScaled(q, s1, r)[i - 1], Mul(s2, SubScaled(q, s1, r)[i]))
         == Sub(q[i - 1], Mul(Add(s1, s2), q[i]))
  {
    SubScaledAt(q, s1, r, i - 1);
    SubScaledAt(q, s1, r, i);
    ComposeIdentity(q[i - 1], r[i - 1], q[i], r[i], s1, s2);
  }

  /** Two L2L shifts in a row are one shift by their sum. */
  lemma {:induction false} TaylorShiftCompose(c: seq<Complex>, s1: Complex, s2: Complex)
    ensures TaylorShift(TaylorShift(c, s1), s2) == TaylorShift(c, Add(s1, s2))
    decreases |c|
  {
    if |c| > 1 {
      var u := TaylorShift(c[1..], s1);
      var v := TaylorShift(c, s1);
      var pad := u[1..] + [Zero];
      ShiftedTail(c, s1);
      assert v[0] == Sub(c[0], Mul(s1, u[0]));
      assert TaylorShift(v, s2) == HornerStep(v[0], TaylorShift(v[1..], s2), s2);
      TaylorShiftLinear(u, s1, pad, s2);
      PaddedPass(u, s2);
      TaylorShiftCompose(c[1..], s1, s2);
      ComposeSteps(c[0], u[0], TaylorShift(u, s2), TaylorShift(pad, s2), s1, s2);
    }
  }

  /** After one shift, the coefficients above the lowest are u - s1 (u[1..] + [0]),
      with u the shifted suffix. */
  lemma ShiftedTail(c: seq<Complex>, s1: Complex)
    requires |c| > 1
    ensures TaylorShift(c, s1)[1..]
         == SubScaled(TaylorShift(c[1..], s1), s1, TaylorShift(c[1..], s1)[1..] + [Zero])
  {
    var u := TaylorShift(c[1..], s1);
    var pad := u[1..] + [Zero];
    assert TaylorShift(c, s1) == HornerStep(c[0], u, s1);
    forall j | 0 <= j < |u|
      ensures HornerStep(c[0], u, s1)[j + 1] == SubScaled(u, s1, pad)[j]
    {
      ShiftedTailAt(c[0], u, s1, j);
    }
  }

  lemma ShiftedTailAt(a: Complex, u: seq<Complex>, s1: Complex, j: nat)
    requires j < |u|
    ensures HornerStep(a, u, s1)[j + 1] == SubScaled(u, s1, u[1..] + [Zero])[j]
  {
    var pad := u[1..] + [Zero];
    SubScaledAt(u, s1, pad, j);
    if j == |u| - 1 {
      HornerStepLast(a, u, s1);
      MulZero(s1);
    } else {
      HornerStepMiddle(a, u, s1, j + 1);
      assert pad[j] == u[j + 1];
    }
  }

  /** The pass for slot 0 over a zero-padded suffix gives the padded shift. */
  lemma PaddedPass(u: seq<Complex>, s: Complex)
    requires |u| >= 1
    ensures HornerStep(u[0], TaylorShift(u[1..] + [Zero], s), s) == TaylorShift(u, s) + [Zero]
  {
    TaylorShiftPad(u, s);
    var y := u + [Zero];
    assert y[1..] == u[1..] + [Zero];
    assert TaylorShift(y, s) == HornerStep(y[0], TaylorShift(y[1..], s), s);
  }

  /** One term C(k, l) (-s)^(k-l) c_k of the closed form of L2L's coefficient l. */
  function ShiftTerm(c: seq<Complex>, s: Complex, l: nat, k: nat): Complex
    requires l <= k < |c|
  {
    Scale(Mul(c[k], Pow(Neg(s), k - l)), Binom(k, l) as real)
  }

  /** The terms k = l .. hi - 1 of the closed form of coefficient l. */
  function ShiftSum(c: seq<Complex>, s: Complex, l: nat, hi: nat): Complex
    requires hi <= |c|
  {
    if hi <= l then Zero else Add(ShiftSum(c, s, l, hi - 1), ShiftTerm(c, s, l, hi - 1))
  }

  lemma NegTermIdentity(x: Complex, q: Complex, s: Complex, b1: real, b2: real)
    ensures Scale(Mul(x, Mul(q, Neg(s))), b1 + b2)
         == Sub(Scale(Mul(x, Mul(q, Neg(s))), b1), Mul(s, Scale(Mul(x, q), b2)))
  {
    var y := Scale(Mul(x, q), b2);
    TermStep(x, q, Neg(s), b1, b2);
    MulNeg(s, y);
  }

  /** Pascal's rule on one term: the term of c for l, k splits into the terms of
      c[1..] for l - 1 and l at k - 1. */
  lemma ShiftTermStep(c: seq<Complex>, s: Complex, l: nat, k: nat)
    requires l < k < |c|
    ensures ShiftTerm(c, s, l, k)
         == Sub(if l == 0 then Zero else ShiftTerm(c[1..], s, l - 1, k - 1), Mul(s, ShiftTerm(c[1..], s, l, k - 1)))
  {
    var q := Pow(Neg(s), k - 1 - l);
    assert Pow(Neg(s), k - l) == Mul(q, Neg(s));
    assert c[1..][k - 1] == c[k];
    if l == 0 {
      NegTermIdentity(c[k], q, s, 0.0, 1.0);
      assert Scale(Mul(c[k], Mul(q, Neg(s))), 0.0) == Zero;
    } else {
      var b1, b2 := Binom(k - 1, l - 1), Binom(k - 1, l);
      assert Binom(k, l) as real == b1 as real + b2 as real;
      NegTermIdentity(c[k], q, s, b1 as real, b2 as real);
    }
  }

  /** The closed form follows L2L's recurrence: coefficient l of c is the lower
      slot's coefficient l - 1 (or c0) less s times coefficient l, both of c[1..]. */
  lemma {:induction false} ShiftSumSplit(c: seq<Complex>, s: Complex, l: nat, hi: nat)
    requires 1 <= hi <= |c|
    ensures ShiftSum(c, s, l, hi)
         == Sub(if l == 0 then c[0] else ShiftSum(c[1..], s, l - 1, hi - 1), Mul(s, ShiftSum(c[1..], s, l, hi - 1)))
  {
    var c1 := c[1..];
    MulZero(s);
    if hi <= l {
    } else if hi == 1 {
      MulZero(c[0]);
    } else {
      var k := hi - 1;
      ShiftSumSplit(c, s, l, hi - 1);
      if k == l {
        MulZero(c[k]);
        BinomDiagonal(l);
        BinomDiagonal(l - 1);
        assert c1[k - 1] == c[k];
      } else {
        ShiftTermStep(c, s, l, k);
        MulAddLeft(s, ShiftSum(c1, s, l, k - 1), ShiftTerm(c1, s, l, k - 1));
      }
    }
  }

  /** The closed form of every coefficient, as a sequence. */
  function ShiftSums(c: seq<Complex>, s: Complex): (r: seq<Complex>)
    ensures |r| == |c|
    ensures forall l :: 0 <= l < |c| ==> r[l] == ShiftSum(c, s, l, |c|)
  {
    seq(|c|, l requires 0 <= l < |c| => ShiftSum(c, s, l, |c|))
  }

  /** L2L's coefficient l is sum_{k=l..p} C(k, l) (-s)^(k-l) c_k. */
  lemma {:induction false} TaylorShiftClosedForm(c: seq<Complex>, s: Complex)
    ensures TaylorShift(c, s) == ShiftSums(c, s)
  {
    if |c| == 1 {
      MulZero(c[0]);
      BinomDiagonal(0);
      assert ShiftSums(c, s)[0] == ShiftSum(c, s, 0, 1) == Add(Zero, ShiftTerm(c, s, 0, 0));
    } else if |c| > 1 {
      TaylorShiftClosedForm(c[1..], s);
      ShiftSumsStep(c, s);
    }
  }

  /** The closed form obeys one pass of L2L's recurrence. */
  lemma ShiftSumsStep(c: seq<Complex>, s: Complex)
    requires |c| > 1
    ensures ShiftSums(c, s) == HornerStep(c[0], ShiftSums(c[1..], s), s)
  {
    var t := ShiftSums(c[1..], s);
    forall l | 0 <= l < |c|
      ensures ShiftSums(c, s)[l] == HornerStep(c[0], t, s)[l]
    {
      if l == 0 {
        ClosedFormFirst(c, s, t);
      } else if l < |c| - 1 {
        ClosedFormMiddle(c, s, t, l);
      } else {
        ClosedFormLast(c, s, t, l);
      }
    }
  }

  lemma ClosedFormFirst(c: seq<Complex>, s: Complex, t: seq<Complex>)
    requires 1 < |c| && |t| == |c| - 1
    requires t[0] == ShiftSum(c[1..], s, 0, |c[1..]|)
    ensures HornerStep(c[0], t, s)[0] == ShiftSum(c, s, 0, |c|)
  {
    HornerStepFirst(c[0], t, s);
    ShiftSumSplit(c, s, 0, |c|);
  }

  lemma ClosedFormMiddle(c: seq<Complex>, s: Complex, t: seq<Complex>, l: nat)
    requires 0 < l < |c| - 1 && |t| == |c| - 1
    requires t[l - 1] == ShiftSum(c[1..], s, l - 1, |c[1..]|)
    requires t[l] == ShiftSum(c[1..], s, l, |c[1..]|)
    ensures HornerStep(c[0], t, s)[l] == ShiftSum(c, s, l, |c|)
  {
    HornerStepMiddle(c[0], t, s, l);
    ShiftSumSplit(c, s, l, |c|);
  }

  lemma ClosedFormLast(c: seq<Complex>, s: Complex, t: seq<Complex>, l: nat)
    requires 0 < l && l == |c| - 1 && |t| == l
    requires t[l - 1] == ShiftSum(c[1..], s, l - 1, |c[1..]|)
    ensures HornerStep(c[0], t, s)[l] == ShiftSum(c, s, l, |c|)
  {
    var n := |c|;
    HornerStepLast(c[0], t, s);
    ShiftSumSplit(c, s, n - 1, n);
    assert ShiftSum(c[1..], s, n - 1, n - 1) == Zero;
    MulZero(s);
  }

  // ---------------------------------------------------------------------------
  // M2L

  /** (k % 2 == 0) ? 1 : -1. */
  function Sign(k: nat): int {
    if k % 2 == 0 then 1 else -1
  }

  /** The k-th term sign * m_k * s^-k. */
  function M2LTerm(m: seq<Complex>, s: Complex, k: nat): Complex
    requires 1 <= k < |m| && s != Zero
  {
    Mul(Scale(m[k], Sign(k) as real), InvPow(s, k))
  }

  /** coeffs[0] after its first K terms: m_0 log(-s) + sum_{k=1..K} sign m_k s^-k. */
  function M2LHead(m: seq<Complex>, s: Complex, clog: Complex -> Complex, K: nat): Complex
    requires K < |m| && (s != Zero || K == 0)
  {
    if K == 0 then Mul(m[0], clog(Neg(s)))
    else Add(M2LHead(m, s, clog, K - 1), M2LTerm(m, s, K))
  }

  /** coeffs[l] before the final scaling, after its first K terms:
      -m_0 / l + sum_{k=1..K} sign m_k s^-k C(l+k-1, k-1). */
  function M2LBody(m: seq<Complex>, s: Complex, l: nat, K: nat): Complex
    requires l >= 1 && K < |m| && (s != Zero || K == 0)
  {
    if K == 0 then DivReal(Neg(m[0]), l as real)
    else Add(M2LBody(m, s, l, K - 1), Scale(M2LTerm(m, s, K), Binom(l + K - 1, K - 1) as real))
  }

  /** M2L's p + 1 coefficients (Lemma 2.2.2) for a multipole m whose centre is
      s away from this centre. */
  function M2LCoeffs(m: seq<Complex>, s: Complex, p: nat, clog: Complex -> Complex): (r: seq<Complex>)
    requires p < |m| && (s != Zero || p == 0)
    ensures |r| == p + 1
  {
    seq(p + 1, l requires 0 <= l <= p =>
      if l == 0 then M2LHead(m, s, clog, p) else Mul(M2LBody(m, s, l, p), InvPow(s, l)))
  }

  lemma {:induction false} M2LSumsLinear(a: seq<Complex>, b: seq<Complex>, s: Complex,
                                          clog: Complex -> Complex, l: nat, K: nat)
    requires |a| == |b| && K < |a| && (s != Zero || K == 0) && l >= 1
    ensures M2LHead(AddCoeffs(a, b), s, clog, K) == Add(M2LHead(a, s, clog, K), M2LHead(b, s, clog, K))
    ensures M2LBody(AddCoeffs(a, b), s, l, K) == Add(M2LBody(a, s, l, K), M2LBody(b, s, l, K))
  {
    var sum := AddCoeffs(a, b);
    if K == 0 {
      MulAddRight(a[0], b[0], clog(Neg(s)));
      DivRealLaws(Neg(a[0]), Neg(b[0]), l as real);
    } else {
      M2LSumsLinear(a, b, s, clog, l, K - 1);
      var sign, w := Sign(K) as real, InvPow(s, K);
      ScaleLaws(a[K], b[K], sign, 0.0);
      MulAddRight(Scale(a[K], sign), Scale(b[K], sign), w);
      assert M2LTerm(sum, s, K) == Add(M2LTerm(a, s, K), M2LTerm(b, s, K));
      ScaleLaws(M2LTerm(a, s, K), M2LTerm(b, s, K), Binom(l + K - 1, K - 1) as real, 0.0);
    }
  }

  /** M2L is linear in the multipole coefficients: converting a sum of
      multipoles is adding their conversions. */
  lemma M2LLinear(a: seq<Complex>, b: seq<Complex>, s: Complex, p: nat, clog: Complex -> Complex)
    requires |a| == |b| && p < |a| && (s != Zero || p == 0)
    ensures M2LCoeffs(AddCoeffs(a, b), s, p, clog) == AddCoeffs(M2LCoeffs(a, s, p, clog), M2LCoeffs(b, s, p, clog))
  {
    var sum := AddCoeffs(a, b);
    forall l | 0 <= l <= p
      ensures M2LCoeffs(sum, s, p, clog)[l] == AddCoeffs(M2LCoeffs(a, s, p, clog), M2LCoeffs(b, s, p, clog))[l]
    {
      M2LSumsLinear(a, b, s, clog, if l == 0 then 1 else l, p);
      if l > 0 {
        MulAddRight(M2LBody(a, s, l, p), M2LBody(b, s, l, p), InvPow(s, l));
      }
    }
  }

  // ---------------------------------------------------------------------------
  // The object

  /** LocalExpansion: order p, complex centre, p + 1 coefficients, and the memo
      tables M2L uses. */
  class LocalExpansion {
    var p: int
    var center: Complex
    var coeffs: seq<Complex>
    const invExpTable: InverseExponentialTable
    const binomialTable: BinomialTable

    ghost predicate Valid()
      reads this, invExpTable, binomialTable
    {
      p >= -1 && |coeffs| == p + 1 && invExpTable.Valid() && binomialTable.Valid()
    }

    function Value(): Expansion
      reads this
    {
      Expansion(p, center, coeffs)
    }

    /** LocalExpansion(p, center): p + 1 zero coefficients. */
    constructor (p: int, center: Vector2)
      requires p >= -1
      ensures Valid() && fresh(invExpTable) && fresh(binomialTable)
      ensures Value() == ZeroExpansion(p, ToComplex(center))
    {
      this.p := p;
      this.center := ToComplex(center);
      this.coeffs := ZeroCoeffs(p + 1);
      invExpTable := new InverseExponentialTable();
      binomialTable := new BinomialTable();
    }

    /** LocalExpansion(center, coeffs): p is one less than the number of
        coefficients given. */
    constructor FromCoeffs(center: Vector2, coeffs: seq<Complex>)
      ensures Valid() && fresh(invExpTable) && fresh(binomialTable)
      ensures Value() == Expansion(|coeffs| - 1, ToComplex(center), coeffs)
    {
      this.coeffs := coeffs;
      this.p := |coeffs| - 1;
      this.center := ToComplex(center);
      invExpTable := new InverseExponentialTable();
      binomialTable := new BinomialTable();
    }

    /** clear(): p + 1 zeros again, order and centre kept. */
    method Clear()
      requires Valid()
      modifies this
      ensures Valid()
      ensures Value() == ZeroExpansion(old(p), old(center))
    {
      coeffs := ZeroCoeffs(p + 1);
    }

    /** operator+=: throws on a different order or centre, otherwise adds the
        coefficients; other may be this object itself. */
    method AddAssign(other: LocalExpansion) returns (status: Status)
      requires Valid() && other.Valid()
      modifies this
      ensures Valid()
      ensures match Accumulate(old(Value()), old(other.Value()), "Cannot add incompatible local expansions")
        case Ok(e) => status == Completed && Value() == e
        case Failure(m) => status == Threw(m) && Value() == old(Value())
    {
      if p != other.p || center != other.center {
        return Threw("Cannot add incompatible local expansions");
      }
      ghost var a, b := coeffs, other.coeffs;
      var k := 0;
      while k <= p
        invariant 0 <= k <= p + 1 && |coeffs| == p + 1
        invariant p == old(p) && center == old(center)
        invariant other == this || other.coeffs == b
        invariant forall j :: 0 <= j < k ==> coeffs[j] == Add(a[j], b[j])
        invariant forall j :: k <= j <= p ==> coeffs[j] == a[j]
      {
        coeffs := coeffs[k := Add(coeffs[k], other.coeffs[k])];
        k := k + 1;
      }
      status := Completed;
    }

    /** evaluate(point): Re(sum_l c_l z^l) with z = point - center. */
    method Evaluate(point: Vector2) returns (r: real)
      requires Valid()
      ensures r == LocalValue(Value(), point)
    {
      var z := Sub(ToComplex(point), center);
      var result := Zero;
      var zPower := One;
      var l := 0;
      while l <= p
        invariant 0 <= l <= p + 1
        invariant result == PolySum(coeffs, z, l)
        invariant zPower == Pow(z, l)
      {
        result := Add(result, Mul(coeffs[l], zPower));
        zPower := Mul(zPower, z);
        l := l + 1;
      }
      r := result.re;
    }

    /** M2L(multipole): overwrite all p + 1 coefficients with the conversion of
        the multipole expansion; the old coefficients play no part. */
    method M2L(multipole: MultipoleExpansion, clog: Complex -> Complex)
      requires Valid() && multipole.Value().WellFormed()
      requires p >= 0 && multipole.p >= p
      requires p == 0 || multipole.center != center
      modifies this, invExpTable, binomialTable
      ensures Valid() && p == old(p) && center == old(center)
      ensures coeffs == M2LCoeffs(multipole.coeffs, Sub(multipole.center, center), p, clog)
    {
      var shift := Sub(multipole.center, center);
      var head := M2LHeadLoop(multipole.coeffs, shift, clog);
      coeffs := coeffs[0 := head];
      var l := 1;
      while l <= p
        invariant 1 <= l <= p + 1 && |coeffs| == p + 1
        invariant Valid() && p == old(p) && center == old(center)
        invariant forall j :: 0 <= j < l ==> coeffs[j] == M2LCoeffs(multipole.coeffs, shift, p, clog)[j]
      {
        var body := M2LBodyLoop(multipole.coeffs, shift, l);
        var inverse := invExpTable.InvExp(shift, l);
        coeffs := coeffs[l := Mul(body, inverse)];
        l := l + 1;
      }
    }

    /** The first loop of M2L: coeffs[0] = m_0 log(-shift), then the p terms
        sign m_k shift^-k added to it. */
    method M2LHeadLoop(m: seq<Complex>, shift: Complex, clog: Complex -> Complex) returns (head: Complex)
      requires Valid() && p >= 0 && p < |m| && (shift != Zero || p == 0)
      modifies invExpTable, binomialTable
      ensures Valid()
      ensures head == M2LHead(m, shift, clog, p)
    {
      head := Mul(m[0], clog(Neg(shift)));
      var k := 1;
      while k <= p
        invariant 1 <= k <= p + 1
        invariant Valid()
        invariant head == M2LHead(m, shift, clog, k - 1)
      {
        var sign := if k % 2 == 0 then 1 else -1;
        var inverse := invExpTable.InvExp(shift, k);
        head := Add(head, Mul(Scale(m[k], sign as real), inverse));
        k := k + 1;
      }
    }

    /** The inner loop of M2L for one l >= 1: coeffs[l] = -m_0 / l, then the p
        binomially weighted terms added to it (before the final scaling by shift^-l). */
    method M2LBodyLoop(m: seq<Complex>, shift: Complex, l: nat) returns (body: Complex)
      requires Valid() && 1 <= l && 0 <= p < |m| && (shift != Zero || p == 0)
      modifies invExpTable, binomialTable
      ensures Valid()
      ensures body == M2LBody(m, shift, l, p)
    {
      body := DivReal(Neg(m[0]), l as real);
      var k := 1;
      while k <= p
        invariant 1 <= k <= p + 1
        invariant Valid()
        invariant body == M2LBody(m, shift, l, k - 1)
      {
        var sign := if k % 2 == 0 then 1 else -1;
        var inverse := invExpTable.InvExp(shift, k);
        var binomial := binomialTable.Binomial(l + k - 1, k - 1);
        body := Add(body, Scale(Mul(Scale(m[k], sign as real), inverse), binomial as real));
        k := k + 1;
      }
    }

    /** L2L(shift): a new expansion about center - shift; the passes run on a
        copy, so this object's coefficients are untouched. */
    method L2L(shift: Complex) returns (r: LocalExpansion)
      requires Valid()
      ensures fresh(r) && r.Valid()
      ensures r.Value() == Expansion(p, Sub(center, shift), TaylorShift(coeffs, shift))
    {
      var newCenter := Sub(center, shift);
      var newCoeffs := coeffs;
      if p >= 1 {
        var j := 0;
        while j < p
          invariant 0 <= j <= p && |newCoeffs| == p + 1
          invariant newCoeffs[..p - j] == coeffs[..p - j]
          invariant newCoeffs[p - j..] == TaylorShift(coeffs[p - j..], shift)
        {
          var o := p - j - 1;
          ghost var before := newCoeffs;
          assert before[o] == before[..p - j][o] == coeffs[o];
          assert before[..o] == before[..p - j][..o] == coeffs[..p - j][..o] == coeffs[..o];
          newCoeffs := ShiftPass(newCoeffs, o, shift);
          assert coeffs[o..][0] == coeffs[o] && coeffs[o..][1..] == coeffs[p - j..];
          assert TaylorShift(coeffs[o..], shift) == HornerStep(coeffs[o], TaylorShift(coeffs[p - j..], shift), shift);
          assert newCoeffs[o..] == TaylorShift(coeffs[o..], shift);
          assert newCoeffs[..o] == coeffs[..o];
          j := j + 1;
        }
        assert coeffs[0..] == coeffs && newCoeffs[0..] == newCoeffs;
      }
      r := new LocalExpansion.FromCoeffs(ToVector(newCenter), newCoeffs);
    }
  }

  /** One pass of L2L's nested loop, on the copy: for k = o .. p-1,
      c[k] -= shift * c[k+1], where c[k+1] still holds its value from before the pass. */
  method ShiftPass(c: seq<Complex>, o: nat, shift: Complex) returns (r: seq<Complex>)
    requires o + 1 < |c|
    ensures |r| == |c| && r[..o] == c[..o]
    ensures r[o..] == HornerStep(c[o], c[o + 1..], shift)
  {
    var t := c[o + 1..];
    var p := |c| - 1;
    r := c;
    var k := o;
    while k < p
      invariant o <= k <= p && |r| == p + 1
      invariant r[..o] == c[..o]
      invariant forall i :: o <= i < k ==> r[i] == HornerStep(c[o], t, shift)[i - o]
      invariant forall i :: k <= i <= p ==> r[i] == c[i]
    {
      if k == o {
        HornerStepFirst(c[o], t, shift);
      } else {
        HornerStepMiddle(c[o], t, shift, k - o);
      }
      r := r[k := Sub(r[k], Mul(shift, r[k + 1]))];
      k := k + 1;
    }
    HornerStepLast(c[o], t, shift);
    SuffixFromEntries(r, o, HornerStep(c[o], t, shift));
  }

  lemma SuffixFromEntries(r: seq<Complex>, o: nat, h: seq<Complex>)
    requires o + |h| == |r|
    requires forall i :: o <= i < |r| ==> r[i] == h[i - o]
    ensures r[o..] == h
  {
    assert forall j :: 0 <= j < |h| ==> r[o..][j] == r[o + j];
  }
}
