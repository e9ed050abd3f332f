/**
 * The generic mod, gcd and lcm of src/generic instantiated at bigint, the
 * way the bigint bundle installs them: mod over subtract, multiply and the
 * floor quotient; gcd as gcdType('bigint'); lcm over gcd and quotient.
 */
module BigIntGcd {
  import opened Wrappers
  import opened BigIntArith
  import opened Generic

  function IntSub(a: int, b: int): int { a - b }
  function IntMul(a: int, b: int): int { a * b }
  predicate IntIsZero(b: int) { b == 0 }
  function AbsNat(b: int): nat { Abs(b) }

  /**
   * src/generic/mod.mjs at bigint: a - m*quotient(a, m). With the floor
   * quotient the result lies between 0 and m (never equal to m), and with
   * the quotient's 0 for a zero divisor, mod(a, 0) is a itself.
   */
  function IntMod(a: int, m: int): (r: int)
    ensures m > 0 ==> 0 <= r < m
    ensures m < 0 ==> m < r <= 0
    ensures m == 0 ==> r == a
  {
    Mod(a, m, IntSub, IntMul, Quotient)
  }

  /** The remainder is a minus a multiple of m. */
  lemma IntModIsRemainder(a: int, m: int)
    ensures IntMod(a, m) == a - IntMul(Quotient(a, m), m)
  {
  }

  /** The bigint mod makes |b| strictly smaller: the loop of gcdType ends. */
  lemma IntModDecreasing()
    ensures DecreasingMod(IntMod, IntIsZero, AbsNat)
  {
    forall a, b | !IntIsZero(b)
      ensures AbsNat(IntMod(a, b)) < AbsNat(b)
    {
    }
  }

  /** d divides n: n is an integer multiple of d (so only 0 is divisible by 0). */
  ghost predicate IntDivides(d: int, n: int) {
    exists k :: IntMul(k, d) == n
  }

  /** Common divisors of x and y divide x - q*y and x + q*y. */
  lemma DividesCombination(d: int, x: int, y: int, q: int)
    requires IntDivides(d, x) && IntDivides(d, y)
    ensures IntDivides(d, x - q * y) && IntDivides(d, x + q * y)
  {
    var kx :| IntMul(kx, d) == x;
    var ky :| IntMul(ky, d) == y;
    var m := q * ky;
    assert m * d == q * y by {
      assert (q * ky) * d == q * (ky * d);
    }
    MulSub(kx, m, d);
    MulAdd(kx, m, d);
    assert IntMul(kx - m, d) == x - q * y;
    assert IntMul(kx + m, d) == x + q * y;
  }

  lemma IntModKeepsDivisors()
    ensures ModKeepsDivisors(IntMod, IntIsZero, IntDivides)
    ensures ZeroDivisible(IntIsZero, IntDivides)
  {
    forall d, x, y | !IntIsZero(y)
      ensures IntDivides(d, x) && IntDivides(d, y) <==> IntDivides(d, y) && IntDivides(d, IntMod(x, y))
    {
      var q := Quotient(x, y);
      var r := IntMod(x, y);
      IntModIsRemainder(x, y);
      if IntDivides(d, x) && IntDivides(d, y) {
        DividesCombination(d, x, y, q);
      }
      if IntDivides(d, y) && IntDivides(d, r) {
        DividesCombination(d, r, y, q);
        assert r + q * y == x;
      }
    }
    forall d, y | IntIsZero(y)
      ensures IntDivides(d, y)
    {
      assert IntMul(0, d) == y;
    }
  }

  /**
   * gcdType('bigint'): the Euclid loop over the bigint mod. Its result
   * divides both arguments, and every common divisor divides it.
   */
  function IntGcd(a: int, b: int): (g: int)
    ensures IntDivides(g, a) && IntDivides(g, b)
    ensures forall d :: IntDivides(d, a) && IntDivides(d, b) ==> IntDivides(d, g)
  {
    IntModDecreasing();
    IntModKeepsDivisors();
    var g := EuclidGcd(a, b, IntMod, IntIsZero, AbsNat);
    assert forall x :: IntDivides(x, x) by {
      forall x ensures IntDivides(x, x) {
        assert IntMul(1, x) == x;
      }
    }
    EuclidDividesBoth(a, b, IntMod, IntIsZero, AbsNat, IntDivides);
    forall d | IntDivides(d, a) && IntDivides(d, b)
      ensures IntDivides(d, g)
    {
      EuclidCommonDivisors(a, b, IntMod, IntIsZero, AbsNat, IntDivides, d);
    }
    g
  }

  /** The method gcdType builds, run at bigint, computes the same value. */
  method IntGcdLoop(a: int, b: int) returns (g: int)
    ensures g == IntGcd(a, b)
    ensures IntDivides(g, a) && IntDivides(g, b)
  {
    IntModDecreasing();
    g := GcdLoop(a, b, IntMod, IntIsZero, AbsNat);
  }

  /** If b is zero initially, a is returned unchanged. */
  lemma IntGcdZero(a: int)
    ensures IntGcd(a, 0) == a
  {
  }

  /** src/generic/lcm.mjs at bigint: quotient(a, gcd(a, b)) * b. */
  function IntLcm(a: int, b: int): int {
    Lcm(a, b, IntMul, Quotient, IntGcd)
  }

  /** A zero argument gives 0, including lcm(0, 0). */
  lemma IntLcmZero(a: int, b: int)
    requires a == 0 || b == 0
    ensures IntLcm(a, b) == 0
  {
    var g := IntGcd(a, b);
    if a == 0 && g != 0 {
      QuotientExact(0, g);
    }
  }

  /** With a = k*g and b = j*g for a non-zero g, lcm(a, b) = k*b = j*a. */
  lemma LcmFromCofactors(a: int, b: int, g: int, k: int, j: int)
    requires g != 0 && a == k * g && b == j * g
    ensures Quotient(a, g) * b == k * b == j * a
  {
    QuotientExact(k, g);
    assert k * b == k * (j * g);
    assert k * (j * g) == j * (k * g);
  }

  /** lcm(a, b) is a common multiple of a and b. */
  lemma IntLcmCommonMultiple(a: int, b: int)
    ensures IntDivides(a, IntLcm(a, b)) && IntDivides(b, IntLcm(a, b))
  {
    var g := IntGcd(a, b);
    var l := IntLcm(a, b);
    assert l == Quotient(a, g) * b;
    var k :| IntMul(k, g) == a;
    var j :| IntMul(j, g) == b;
    if g == 0 {
      assert l == 0;
      assert IntMul(0, a) == l && IntMul(0, b) == l;
    } else {
      LcmFromCofactors(a, b, g, k, j);
      assert IntMul(k, b) == l;
      assert IntMul(j, a) == l;
    }
  }

  /** One turn of the Euclid loop. */
  lemma IntGcdStep(a: int, b: int)
    requires b != 0
    ensures IntGcd(a, b) == IntGcd(b, IntMod(a, b))
  {
    IntModDecreasing();
  }

  /** The tests' values: gcd(105n, 70n) = 35n, lcm(105n, 70n) = 210n, lcm(15n, 60n) = 60n. */
  lemma GcdLcmExamples()
    ensures IntGcd(105, 70) == 35
    ensures IntLcm(105, 70) == 210
    ensures IntLcm(15, 60) == 60
    ensures IntLcm(0, 0) == 0
  {
    assert IntMod(105, 70) == 35 by {
      QuotientIsFloor(105, 70);
    }
    assert IntMod(70, 35) == 0 by {
      QuotientExact(2, 35);
    }
    IntGcdStep(105, 70);
    IntGcdStep(70, 35);
    assert IntGcd(105, 70) == 35;
    QuotientExact(3, 35);
    assert IntMod(15, 60) == 15 by {
      QuotientIsFloor(15, 60);
    }
    assert IntMod(60, 15) == 0 by {
      QuotientExact(4, 15);
    }
    IntGcdStep(15, 60);
    IntGcdStep(60, 15);
    assert IntGcd(15, 60) == 15;
    QuotientExact(1, 15);
    IntLcmZero(0, 0);
  }

  /** lcm at bigint as the step of the reducing fold that lcm uses for more than two arguments. */
  function IntLcmDefined(a: int, b: int): Option<int> { Some(IntLcm(a, b)) }

  /** lcm(2n, 3n) = 6n and lcm(6n, 4n) = 12n, so folding lcm over [2n, 3n, 4n] gives 12n. */
  lemma LcmFoldExample()
    ensures Reducing([Some(2), Some(3), Some(4)], IntLcmDefined) == Ok(Some(12))
  {
    LcmOfTwoAndThree();
    LcmOfSixAndFour();
  }

  lemma LcmOfTwoAndThree()
    ensures IntLcm(2, 3) == 6
  {
    assert IntGcd(2, 3) == 1 by {
      assert IntMod(2, 3) == 2 by { QuotientIsFloor(2, 3); }
      assert IntMod(3, 2) == 1 by { QuotientIsFloor(3, 2); }
      assert IntMod(2, 1) == 0 by { QuotientExact(2, 1); }
      IntGcdStep(2, 3);
      IntGcdStep(3, 2);
      IntGcdStep(2, 1);
    }
    QuotientExact(2, 1);
  }

  lemma LcmOfSixAndFour()
    ensures IntLcm(6, 4) == 12
  {
    assert IntGcd(6, 4) == 2 by {
      assert IntMod(6, 4) == 2 by { QuotientIsFloor(6, 4); }
      assert IntMod(4, 2) == 0 by { QuotientExact(2, 2); }
      IntGcdStep(6, 4);
      IntGcdStep(4, 2);
    }
    QuotientExact(3, 2);
  }
}
