/**
 * src/ops/factorial.mjs and src/ops/choose.mjs: the bigint factorial loop
 * and the binomial coefficient computed from three factorials.
 */
module Ops {
  import opened BigIntArith

  /** n!: the product 2*3*...*n, and 1 when n <= 1 (negative n included). */
  function Fact(n: int): (r: int)
    ensures r >= 1
    decreases n
  {
    if n <= 1 then 1
    else
      MulLowerBound(n, Fact(n - 1));
      n * Fact(n - 1)
  }

  /**
   * factorial(n): starting from 1n, multiply by i for i = n, n-1, ..., 2.
   * What is still to be multiplied in is always Fact(i).
   */
  method Factorial(n: int) returns (prod: int)
    ensures prod == Fact(n)
  {
    prod := 1;
    var i := n;
    while i > 1
      invariant prod * Fact(i) == Fact(n)
      decreases i
    {
      var f := Fact(i - 1);
      assert Fact(i) == i * f;
      MulAssoc(prod, i, f);
      prod := prod * i;
      i := i - 1;
    }
  }

  lemma MulAssoc(a: int, b: int, c: int)
    ensures a * (b * c) == (a * b) * c
  {
  }

  /** Fact never decreases, and grows strictly from 1 onwards. */
  lemma {:induction false} FactMonotone(a: int, b: int)
    requires a <= b
    ensures Fact(a) <= Fact(b)
    ensures 1 <= a < b ==> Fact(a) < Fact(b)
    decreases b - a
  {
    if a < b {
      FactMonotone(a, b - 1);
      if b > 1 {
        MulLowerBound(b - 1, Fact(b - 1));
        assert Fact(b) == (b - 1) * Fact(b - 1) + Fact(b - 1);
      }
    }
  }

  /** The binomial coefficient by Pascal's rule, for 0 <= k <= n. */
  function Binom(n: nat, k: nat): nat
    requires k <= n
  {
    if k == 0 || k == n then 1 else Binom(n - 1, k - 1) + Binom(n - 1, k)
  }

  /** k! (n-k)! C(n, k) = n! */
  lemma {:induction false} BinomFactorials(n: nat, k: nat)
    requires k <= n
    ensures Fact(k) * Fact(n - k) * Binom(n, k) == Fact(n)
  {
    if k == 0 || k == n {
    } else {
      var b1, b2 := Binom(n - 1, k - 1), Binom(n - 1, k);
      var f := Fact(n - 1);
      var fk1, fk, fnk, fnk1 := Fact(k - 1), Fact(k), Fact(n - k), Fact(n - 1 - k);
      BinomFactorials(n - 1, k - 1);
      BinomFactorials(n - 1, k);
      assert fk1 * fnk * b1 == f;
      assert fk * fnk1 * b2 == f;
      assert fk == k * fk1;
      assert fnk == (n - k) * fnk1;
      PascalStep(n, k, b1, b2, f, fk1, fnk1);
      assert Fact(n) == n * f;
    }
  }

  /** The arithmetic of one Pascal step, with the factorials as plain numbers. */
  lemma PascalStep(n: int, k: int, b1: int, b2: int, f: int, fk1: int, fnk1: int)
    requires fk1 * ((n - k) * fnk1) * b1 == f
    requires (k * fk1) * fnk1 * b2 == f
    ensures (k * fk1) * ((n - k) * fnk1) * (b1 + b2) == n * f
  {
    var x := fk1 * fnk1;
    assert fk1 * ((n - k) * fnk1) * b1 == (n - k) * (x * b1);
    assert (k * fk1) * fnk1 * b2 == k * (x * b2);
    assert (k * fk1) * ((n - k) * fnk1) * (b1 + b2)
        == k * ((n - k) * (x * b1)) + (n - k) * (k * (x * b2));
    assert k * ((n - k) * (x * b1)) == k * f;
    assert (n - k) * (k * (x * b2)) == (n - k) * f;
  }

  /** A truncating division by a positive divisor of one of its multiples is exact. */
  lemma TruncDivExact(q: int, d: int)
    requires d > 0 && q >= 0
    ensures TruncDiv(q * d, d) == q
  {
    var t := TruncDiv(q * d, d);
    MulSub(q, t, d);
    SmallMultiple(q - t, d);
  }

  /** choose at bigint: factorial(n) / (factorial(k) * factorial(n - k)), truncating. */
  function Choose(n: int, k: int): (r: int)
    ensures r >= 0
  {
    var d := Fact(k) * Fact(n - k);
    MulLowerBound(Fact(k), Fact(n - k));
    TruncDiv(Fact(n), d)
  }

  /** choose at NumInt: the same quotient, converted to a Number. */
  function ChooseNumber(n: int, k: int): (r: real)
    ensures r >= 0.0 && r.Floor == Choose(n, k)
  {
    Choose(n, k) as real
  }

  /** For 0 <= k <= n, choose is the binomial coefficient of Pascal's triangle. */
  lemma ChooseIsBinomial(n: nat, k: nat)
    requires k <= n
    ensures Choose(n, k) == Binom(n, k)
  {
    var fk, fnk := Fact(k), Fact(n - k);
    var d := fk * fnk;
    var b := Binom(n, k);
    BinomFactorials(n, k);
    MulLowerBound(fk, fnk);
    assert d * b == Fact(n);
    assert b * d == Fact(n);
    TruncDivExact(b, d);
    assert Choose(n, k) == TruncDiv(Fact(n), d);
  }

  /** factorial(4) = 24n and factorial(7n) = 5040n. */
  method FactorialExamples() returns (f4: int, f7: int)
    ensures f4 == 24 && f7 == 5040
  {
    f4 := Factorial(4);
    f7 := Factorial(7);
  }

  /** choose(6, 3) = 20 and choose(21n, 2n) = 210n. */
  lemma ChooseExamples()
    ensures ChooseNumber(6, 3) == 20.0
    ensures Choose(21, 2) == 210
  {
    assert Fact(3) == 6;
    assert Fact(6) == 120 * Fact(3);
    MulLowerBound(Fact(3), Fact(3));
    TruncDivExact(20, Fact(3) * Fact(3));
    var f := Fact(19);
    assert Fact(21) == 210 * (2 * f);
    assert Fact(2) == 2;
    TruncDivExact(210, 2 * f);
  }
}
