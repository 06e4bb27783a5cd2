/** The memo tables of src/tables.h: caches of the powers z^i and z^-i of the
    last base asked for, and the last Pascal row asked for. */
module Tables {

  import opened Complexes

  /** t holds the powers z^0 .. z^(|t|-1). */
  predicate ArePowers(z: Complex, t: seq<Complex>) {
    forall i :: 0 <= i < |t| ==> t[i] == Pow(z, i)
  }

  /** t holds the inverse powers z^0 .. z^-(|t|-1); z may be zero only when |t| <= 1. */
  predicate AreInversePowers(z: Complex, t: seq<Complex>) {
    (z == Zero ==> |t| <= 1) && forall i :: 0 <= i < |t| ==> t[i] == InvPow(z, i)
  }

  /** ExponentialTable: table[i] == base^i for every cached i. */
  class ExponentialTable {
    var base: Complex
    var table: seq<Complex>

    ghost predicate Valid()
      reads this
    {
      ArePowers(base, table)
    }

    constructor ()
      ensures Valid()
      ensures base == Zero && table == []
    {
      base := Zero;
      table := [];
    }

    /** exp(z, n) returns z^n. The table is rebuilt for a new base, extended
        when n is past its end, and otherwise left as it is. */
    method Exp(z: Complex, n: nat) returns (r: Complex)
      requires Valid()
      modifies this
      ensures Valid()
      ensures r == Pow(z, n)
      ensures base == z
      ensures |table| >= n + 1
      ensures if z == old(base) && n < old(|table|) then table == old(table) else |table| == n + 1
    {
      if z != base {
        BuildTable(z, 0, n);
        base := z;
      } else if n >= |table| {
        BuildTable(z, |table|, n);
      }
      r := table[n];
    }

    /** buildTable(base, start, end): restart at [1] when start is 0, resize to
        end + 1 and fill table[start..end] by the recurrence table[i] = table[i-1] * base. */
    method BuildTable(z: Complex, start: nat, end: nat)
      requires start == 0 || (start == |table| <= end && ArePowers(z, table))
      modifies this
      ensures |table| == end + 1 && ArePowers(z, table)
      ensures base == old(base)
    {
      var first := start;
      if first == 0 {
        table := [One];
        first := 1;
      }
      table := Resize(table, end + 1);
      var i := first;
      while i <= end
        invariant 1 <= first <= i <= end + 1
        invariant |table| == end + 1
        invariant forall k :: 0 <= k < i ==> table[k] == Pow(z, k)
        invariant base == old(base)
      {
        table := table[i := Mul(table[i - 1], z)];
        i := i + 1;
      }
    }
  }

  /** InverseExponentialTable: table[i] == base^-i for every cached i. A zero base
      only ever holds table == [] or [1]: any further entry divides by zero. */
  class InverseExponentialTable {
    var base: Complex
    var table: seq<Complex>

    ghost predicate Valid()
      reads this
    {
      AreInversePowers(base, table)
    }

    constructor ()
      ensures Valid()
      ensures base == Zero && table == []
    {
      base := Zero;
      table := [];
    }

    /** inv_exp(z, n) returns z^-n; z must be non-zero unless n is 0. */
    method InvExp(z: Complex, n: nat) returns (r: Complex)
      requires Valid()
      requires z != Zero || n == 0
      modifies this
      ensures Valid()
      ensures r == InvPow(z, n)
      ensures base == z
      ensures |table| >= n + 1
      ensures if z == old(base) && n < old(|table|) then table == old(table) else |table| == n + 1
    {
      if z != base {
        BuildTable(z, 0, n);
        base := z;
      } else if n >= |table| {
        BuildTable(z, |table|, n);
      }
      r := table[n];
    }

    /** buildTable(base, start, end), with table[i] = table[i-1] / base. */
    method BuildTable(z: Complex, start: nat, end: nat)
      requires z != Zero || end == 0
      requires start == 0 || (start == |table| <= end && AreInversePowers(z, table))
      modifies this
      ensures |table| == end + 1 && AreInversePowers(z, table)
      ensures base == old(base)
    {
      var first := start;
      if first == 0 {
        table := [One];
        first := 1;
      }
      table := Resize(table, end + 1);
      var i := first;
      while i <= end
        invariant 1 <= first <= i <= end + 1
        invariant |table| == end + 1
        invariant forall k :: 0 <= k < i ==> table[k] == InvPow(z, k)
        invariant base == old(base)
      {
        table := table[i := Div(table[i - 1], z)];
        i := i + 1;
      }
    }
  }

  /** std::vector::resize: truncate, or pad with value-initialised (zero) entries. */
  function Resize(s: seq<Complex>, m: nat): (r: seq<Complex>)
    ensures |r| == m
    ensures forall k :: 0 <= k < m && k < |s| ==> r[k] == s[k]
    ensures forall k :: |s| <= k < m ==> r[k] == Zero
  {
    if m <= |s| then s[..m] else s + seq(m - |s|, _ => Zero)
  }

  // ---------------------------------------------------------------------------
  // Binomial coefficients

  /** C(n, k) by Pascal's rule; zero when k > n. */
  function Binom(n: nat, k: nat): nat {
    if k == 0 then 1
    else if n == 0 then 0
    else Binom(n - 1, k - 1) + Binom(n - 1, k)
  }

  /** Pascal row n: C(n, 0) .. C(n, n). */
  function PascalRow(n: nat): (row: seq<int>)
    ensures |row| == n + 1
  {
    seq(n + 1, k requires 0 <= k => Binom(n, k) as int)
  }

  function Factorial(n: nat): nat {
    if n == 0 then 1 else n * Factorial(n - 1)
  }

  lemma {:induction false} BinomAboveRowIsZero(n: nat, k: nat)
    requires k > n
    ensures Binom(n, k) == 0
  {
    if n > 0 {
      BinomAboveRowIsZero(n - 1, k - 1);
      BinomAboveRowIsZero(n - 1, k);
    }
  }

  lemma BinomDiagonal(n: nat)
    ensures Binom(n, n) == 1
  {
    if n > 0 {
      BinomDiagonal(n - 1);
      BinomAboveRowIsZero(n - 1, n);
    }
  }

  /** The closed form: C(n, k) * k! * (n-k)! == n!. */
  lemma {:induction false} BinomFactorial(n: nat, k: nat)
    requires k <= n
    ensures Binom(n, k) * Factorial(k) * Factorial(n - k) == Factorial(n)
  {
    if k == 0 {
    } else if k == n {
      BinomDiagonal(n);
    } else {
      BinomFactorial(n - 1, k - 1);
      BinomFactorial(n - 1, k);
      PascalStep(Binom(n - 1, k - 1), Binom(n - 1, k), k, n - k,
                 Factorial(n - 1), Factorial(k - 1), Factorial(n - k - 1));
    }
  }

  /** The arithmetic of one Pascal step of the closed form, with m = n - k:
      if a (k-1)! m! == (n-1)! and b k! (m-1)! == (n-1)!, then (a + b) k! m! == n (n-1)!. */
  lemma PascalStep(a: int, b: int, k: int, m: int, f: int, fk1: int, fm1: int)
    requires a * fk1 * (m * fm1) == f
    requires b * (k * fk1) * fm1 == f
    ensures (a + b) * (k * fk1) * (m * fm1) == (k + m) * f
  {
    var kf, mf := k * fk1, m * fm1;
    calc {
      (a + b) * kf * mf;
      a * kf * mf + b * kf * mf;
      { assert a * kf * mf == k * (a * fk1 * mf); }
      k * (a * fk1 * mf) + b * kf * mf;
      { assert b * kf * mf == m * (b * kf * fm1); }
      k * f + m * (b * kf * fm1);
      k * f + m * f;
    }
  }

  lemma {:induction false} FactorialPositive(n: nat)
    ensures Factorial(n) > 0
  {
    if n > 0 {
      FactorialPositive(n - 1);
    }
  }

  /** Absorption: n C(n-1, k-1) == k C(n, k), from the closed form of both sides. */
  lemma BinomAbsorption(n: nat, k: nat)
    requires 1 <= k <= n
    ensures n * Binom(n - 1, k - 1) == k * Binom(n, k)
  {
    BinomFactorial(n, k);
    BinomFactorial(n - 1, k - 1);
    FactorialPositive(k - 1);
    FactorialPositive(n - k);
    AbsorptionStep(Binom(n, k), Binom(n - 1, k - 1), n, k,
                   Factorial(n - 1), Factorial(k - 1), Factorial(n - k));
  }

  /** Absorption, over the reals. */
  lemma BinomAbsorptionReal(n: nat, k: nat)
    requires 1 <= k <= n
    ensures (Binom(n - 1, k - 1) as real) * (n as real) == (k as real) * (Binom(n, k) as real)
  {
    var b, d := Binom(n - 1, k - 1), Binom(n, k);
    calc {
      (b as real) * (n as real);
      { CastProduct(n, b); }
      ((n * b) as real);
      { BinomAbsorption(n, k); }
      ((k * d) as real);
      { CastProduct(k, d); }
      (k as real) * (d as real);
    }
  }

  lemma CastProduct(a: int, b: int)
    ensures ((a * b) as real) == (a as real) * (b as real)
  {
  }

  /** The arithmetic of absorption: if b k! m! == n f and a (k-1)! m! == f, then n a == k b. */
  lemma AbsorptionStep(b: int, a: int, n: int, k: int, f: int, fk1: int, fm: int)
    requires fk1 > 0 && fm > 0
    requires b * (k * fk1) * fm == n * f
    requires a * fk1 * fm == f
    ensures n * a == k * b
  {
    var g := fk1 * fm;
    assert (k * b) * g == b * (k * fk1) * fm;
    assert (n * a) * g == n * (a * fk1 * fm);
    assert (k * b) * g == (n * a) * g;
  }

  /** BinomialTable: table holds Pascal row n. */
  class BinomialTable {
    var n: int
    var table: seq<int>

    ghost predicate Valid()
      reads this
    {
      n >= 0 && table == PascalRow(n)
    }

    /** The initial state n = 0, table = {1} is already row 0. */
    constructor ()
      ensures Valid()
      ensures n == 0 && table == [1]
    {
      n := 0;
      table := [1];
    }

    /** binomial(n, k): 0 outside 0 <= k <= n; otherwise C(n, k), rebuilding the
        row only when n differs from the cached one. */
    method Binomial(n: int, k: int) returns (r: int)
      requires Valid()
      modifies this
      ensures Valid()
      ensures r == if 0 <= k <= n then Binom(n, k) as int else 0
      ensures k < 0 || k > n || n == old(this.n) ==> this.n == old(this.n) && table == old(table)
      ensures 0 <= k <= n ==> this.n == n
    {
      if k < 0 || k > n {
        return 0;
      }
      if n != this.n {
        BuildTable(n);
      }
      r := table[k];
    }

    /** buildTable(n): start from 1, 0, .., 0 and apply i rounds of the in-place
        descending update table[j] += table[j-1], so that after round i the
        table holds row i. */
    method BuildTable(n: nat)
      modifies this
      ensures this.n == n && table == PascalRow(n)
    {
      table := seq(n + 1, _ => 0);
      table := table[0 := 1];
      var i := 1;
      while i <= n
        invariant 1 <= i <= n + 1
        invariant |table| == n + 1
        invariant forall t :: 0 <= t <= n ==> table[t] == Binom(i - 1, t) as int
      {
        var j := i;
        while j >= 1
          invariant 0 <= j <= i
          invariant |table| == n + 1
          invariant forall t :: 0 <= t <= n ==>
            table[t] == if j < t <= i then Binom(i, t) as int else Binom(i - 1, t) as int
        {
          table := table[j := table[j] + table[j - 1]];
          j := j - 1;
        }
        forall t | i < t <= n
          ensures Binom(i - 1, t) == Binom(i, t)
        {
          BinomAboveRowIsZero(i - 1, t);
          BinomAboveRowIsZero(i, t);
        }
        i := i + 1;
      }
      this.n := n;
    }
  }
}
