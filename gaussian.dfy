/**
 * Complex<bigint>, the Gaussian integers: the generic complex operations of
 * src/complex instantiated with bigint components, the rounding division of
 * roundquotient.mjs (which is also complex quotient), the generic mod and
 * the Euclid loop of gcdType at Complex, gcd.mjs's normalisation and
 * associate.mjs's test for equality up to a unit.
 */
module Gaussian {
  import opened Complex
  import opened BigIntArith
  import opened Generic
  import opened Wrappers

  type Gauss = Complex<int>

  function IntAdd(a: int, b: int): int { a + b }
  function IntSub(a: int, b: int): int { a - b }
  function IntMul(a: int, b: int): int { a * b }
  function IntNeg(a: int): int { -a }
  predicate IntIsZero(a: int) { a == 0 }
  predicate IntEq(a: int, b: int) { a == b }

  const Zero: Gauss := Complex(0, 0)
  const One: Gauss := Complex(1, 0)
  const I: Gauss := Complex(0, 1)

  function GAdd(w: Gauss, z: Gauss): Gauss { Add(w, z, IntAdd) }
  function GNeg(z: Gauss): Gauss { Negate(z, IntNeg) }
  function GSub(w: Gauss, z: Gauss): Gauss { GAdd(w, GNeg(z)) }
  function GConj(z: Gauss): Gauss { Conjugate(z, IntNeg) }
  function GMul(w: Gauss, z: Gauss): Gauss { Multiply(w, z, IntAdd, IntSub, IntMul) }
  predicate GIsZero(z: Gauss) { IsZero(z, IntIsZero) }
  predicate GEqual(w: Gauss, z: Gauss) { Equal(w, z, IntEq) }

  lemma SquareFacts(k: int)
    ensures Square(k) >= 0
    ensures Square(k) == 0 <==> k == 0
  {
    AbsMul(k, k);
    MulLowerBound(Abs(k), Abs(k));
  }

  /** absquare: the squared norm, never negative and zero only at zero. */
  function GAbsquare(z: Gauss): (r: int)
    ensures r >= 0
    ensures r == 0 <==> z == Zero
  {
    SquareFacts(z.re);
    SquareFacts(z.im);
    Absquare(z, IntAdd, Square)
  }

  function GAbsquareNat(z: Gauss): nat { GAbsquare(z) }

  /** isZero and equalTT at bigint components are zero test and equality. */
  lemma GIsZeroEqual(w: Gauss, z: Gauss)
    ensures GIsZero(z) <==> z == Zero
    ensures GEqual(w, z) <==> w == z
  {
  }

  /** Negation and conjugation are involutions; conjugation fixes exactly the real values. */
  lemma GNegConjProperties(z: Gauss)
    ensures GNeg(GNeg(z)) == z && GConj(GConj(z)) == z
    ensures GConj(z) == z <==> z.im == 0
    ensures GAbsquare(GNeg(z)) == GAbsquare(z) && GAbsquare(GConj(z)) == GAbsquare(z)
  {
    NegateConjugateInvolutions(z, IntNeg);
  }

  /** Multiplying by i rotates a quarter turn: (a, b) becomes (-b, a). */
  lemma GMulByI(z: Gauss)
    ensures GMul(z, I) == Complex(-z.im, z.re)
    ensures GMul(GMul(z, I), I) == GNeg(z)
  {
  }

  /** add(2n, complex(0n, 3n)) = complex(2n, 3n), with 2n converted to complex(2n, 0n); negate(complex(3n, 8n)).im = -8n. */
  lemma GAddNegExamples()
    ensures GAdd(Complex(2, 0), Complex(0, 3)) == Complex(2, 3)
    ensures GNeg(Complex(3, 8)).im == -8
  {
  }

  // ---------------------------------------------------------------------
  // Ring laws of the product, component by component

  /** The product's parts as plain integer arithmetic. */
  lemma GMulParts(w: Gauss, z: Gauss)
    ensures GMul(w, z) == Complex(w.re * z.re - w.im * z.im, w.re * z.im + w.im * z.re)
  {
  }

  lemma GMulCommutes(w: Gauss, z: Gauss)
    ensures GMul(w, z) == GMul(z, w)
  {
  }

  lemma GMulAssociates(x: Gauss, y: Gauss, z: Gauss)
    ensures GMul(GMul(x, y), z) == GMul(x, GMul(y, z))
  {
    var a, b, c, d, e, f := x.re, x.im, y.re, y.im, z.re, z.im;
    var xy, yz := GMul(x, y), GMul(y, z);
    GMulParts(x, y);
    GMulParts(y, z);
    GMulParts(xy, z);
    GMulParts(x, yz);
    AssociateParts(a, b, c, d, e, f, xy.re, xy.im, yz.re, yz.im);
  }

  /** The parts of (x y) z and x (y z), with the parts of x y and y z named. */
  lemma AssociateParts(a: int, b: int, c: int, d: int, e: int, f: int, p: int, q: int, r: int, t: int)
    requires p == a * c - b * d && q == a * d + b * c
    requires r == c * e - d * f && t == c * f + d * e
    ensures p * e - q * f == a * r - b * t && p * f + q * e == a * t + b * r
  {
    ProductRegroup(a, b, c, d, e, f);
    ProductRegroupIm(a, b, c, d, e, f);
  }

  /** The imaginary part of (x y) z against x (y z), multiplied out. */
  lemma ProductRegroupIm(a: int, b: int, c: int, d: int, e: int, f: int)
    ensures (a * c - b * d) * f + (a * d + b * c) * e == a * (c * f + d * e) + b * (c * e - d * f)
  {
    assert (a * c - b * d) * f == a * c * f - b * d * f;
    assert (a * d + b * c) * e == a * d * e + b * c * e;
    assert a * (c * f + d * e) == a * c * f + a * d * e;
    assert b * (c * e - d * f) == b * c * e - b * d * f;
  }

  /** The real part of (x y) z against x (y z), multiplied out. */
  lemma ProductRegroup(a: int, b: int, c: int, d: int, e: int, f: int)
    ensures (a * c - b * d) * e - (a * d + b * c) * f == a * (c * e - d * f) - b * (c * f + d * e)
  {
    assert (a * c - b * d) * e == a * c * e - b * d * e;
    assert (a * d + b * c) * f == a * d * f + b * c * f;
    assert a * (c * e - d * f) == a * c * e - a * d * f;
    assert b * (c * f + d * e) == b * c * f + b * d * e;
  }

  lemma GMulDistributes(x: Gauss, y: Gauss, z: Gauss)
    ensures GMul(GSub(x, y), z) == GSub(GMul(x, z), GMul(y, z))
    ensures GMul(GAdd(x, y), z) == GAdd(GMul(x, z), GMul(y, z))
  {
    GMulDistributesSub(x, y, z);
    GMulDistributesAdd(x, y, z);
  }

  lemma GMulDistributesSub(x: Gauss, y: Gauss, z: Gauss)
    ensures GMul(GSub(x, y), z) == GSub(GMul(x, z), GMul(y, z))
  {
    GMulParts(GSub(x, y), z);
    GMulParts(x, z);
    GMulParts(y, z);
    DistributeParts(x.re, x.im, y.re, y.im, z.re, z.im);
  }

  lemma GMulDistributesAdd(x: Gauss, y: Gauss, z: Gauss)
    ensures GMul(GAdd(x, y), z) == GAdd(GMul(x, z), GMul(y, z))
  {
    GMulParts(GAdd(x, y), z);
    GMulParts(x, z);
    GMulParts(y, z);
    DistributeParts(x.re, x.im, y.re, y.im, z.re, z.im);
  }

  /** The parts of (x - y) z and (x + y) z against those of x z and y z. */
  lemma DistributeParts(a: int, b: int, c: int, d: int, e: int, f: int)
    ensures (a - c) * e - (b - d) * f == (a * e - b * f) - (c * e - d * f)
    ensures (a - c) * f + (b - d) * e == (a * f + b * e) - (c * f + d * e)
    ensures (a + c) * e - (b + d) * f == (a * e - b * f) + (c * e - d * f)
    ensures (a + c) * f + (b + d) * e == (a * f + b * e) + (c * f + d * e)
  {
    Distribute(a, c, e);
    Distribute(a, c, f);
    Distribute(b, d, e);
    Distribute(b, d, f);
  }

  /** Multiplication distributes over a sum and a difference. */
  lemma Distribute(a: int, c: int, e: int)
    ensures (a - c) * e == a * e - c * e && (a + c) * e == a * e + c * e
  {
  }

  /** Lagrange's identity: the norm of a product of any two values is the product of their norms. */
  lemma NormProduct(p: int, s: int, a: int, b: int)
    ensures (p * p + s * s) * (a * a + b * b) == (p * a + s * b) * (p * a + s * b) + (s * a - p * b) * (s * a - p * b)
  {
  }

  lemma GAbsquareMultiplicative(w: Gauss, z: Gauss)
    ensures GAbsquare(GMul(w, z)) == GAbsquare(w) * GAbsquare(z)
  {
    NormProduct(w.re, -w.im, z.re, z.im);
  }

  // ---------------------------------------------------------------------
  // src/complex/roundquotient.mjs (and quotient.mjs, which calls it)

  /**
   * A zero divisor is returned as it is; otherwise both parts of
   * n * conj(d) are divided by absquare(d) with the bigint roundquotient.
   */
  function GRoundQuotient(n: Gauss, d: Gauss): Gauss {
    if GIsZero(d) then d
    else
      var c := GMul(n, GConj(d));
      var norm := GAbsquare(d);
      Complex(RoundQuotient(c.re, norm), RoundQuotient(c.im, norm))
  }

  /** (n - d q) conj(d) = n conj(d) - absquare(d) q, component by component. */
  lemma RemainderTimesConj(n: Gauss, d: Gauss, q: Gauss)
    ensures var r := GSub(n, GMul(d, q));
            var c := GMul(n, GConj(d));
            GMul(r, GConj(d)) == Complex(c.re - GAbsquare(d) * q.re, c.im - GAbsquare(d) * q.im)
  {
    var x, y, a, b, u, v := n.re, n.im, d.re, d.im, q.re, q.im;
    GMulParts(d, q);
    GMulParts(n, GConj(d));
    GMulParts(GSub(n, GMul(d, q)), GConj(d));
    RemainderPartRe(x, y, a, b, u, v);
    RemainderPartIm(x, y, a, b, u, v);
  }

  /** The real part of RemainderTimesConj as an integer identity. */
  lemma RemainderPartRe(x: int, y: int, a: int, b: int, u: int, v: int)
    ensures (x - (a * u - b * v)) * a - (y - (a * v + b * u)) * (-b) == (x * a - y * (-b)) - (a * a + b * b) * u
  {
    assert (x - (a * u - b * v)) * a == x * a - a * a * u + a * b * v;
    assert (y - (a * v + b * u)) * (-b) == -(y * b) + a * b * v + b * b * u;
  }

  /** The imaginary part of RemainderTimesConj as an integer identity. */
  lemma RemainderPartIm(x: int, y: int, a: int, b: int, u: int, v: int)
    ensures (x - (a * u - b * v)) * (-b) + (y - (a * v + b * u)) * a == (x * (-b) + y * a) - (a * a + b * b) * v
  {
    assert (x - (a * u - b * v)) * (-b) == -(x * b) + a * b * u - b * b * v;
    assert (y - (a * v + b * u)) * a == y * a - a * a * v - a * b * u;
  }

  /** A part t with -N < 2t <= N has 4t^2 <= N^2. */
  lemma HalfWindowSquare(t: int, norm: int)
    requires -norm < 2 * t <= norm
    ensures 4 * (t * t) <= norm * norm
  {
    SquareMonotone(Abs(2 * t), norm);
    AbsMul(2 * t, 2 * t);
  }

  /** R * N = t1^2 + t2^2 with both parts in the half window gives 2R <= N. */
  lemma BoundFromParts(rNorm: int, norm: int, t1: int, t2: int)
    requires norm > 0 && rNorm * norm == t1 * t1 + t2 * t2
    requires -norm < 2 * t1 <= norm && -norm < 2 * t2 <= norm
    ensures 2 * rNorm <= norm
  {
    HalfWindowSquare(t1, norm);
    HalfWindowSquare(t2, norm);
    assert (2 * rNorm) * norm <= norm * norm;
    MulSub(2 * rNorm, norm, norm);
    if 2 * rNorm > norm {
      MulLowerBound(2 * rNorm - norm, norm);
    }
  }

  /** The remainder a - m * roundquotient(a, m) has at most half the norm of a non-zero m. */
  /** The bigint roundquotient's remainder window, for a positive divisor. */
  lemma RoundWindow(n: int, norm: int)
    requires norm > 0
    ensures -norm < 2 * (n - norm * RoundQuotient(n, norm)) <= norm
  {
    var q := RoundQuotient(n, norm);
    assert Abs(norm) == norm;
    assert q * norm == norm * q;
  }

  lemma RemainderBound(a: Gauss, m: Gauss)
    requires m != Zero
    ensures 2 * GAbsquare(Mod(a, m, GSub, GMul, GRoundQuotient)) <= GAbsquare(m)
  {
    var q := GRoundQuotient(a, m);
    var r := Mod(a, m, GSub, GMul, GRoundQuotient);
    assert r == GSub(a, GMul(m, q));
    var norm := GAbsquare(m);
    var c := GMul(a, GConj(m));
    assert q == Complex(RoundQuotient(c.re, norm), RoundQuotient(c.im, norm));
    var t1, t2 := c.re - norm * q.re, c.im - norm * q.im;
    RemainderTimesConj(a, m, q);
    assert GMul(r, GConj(m)) == Complex(t1, t2);
    GAbsquareMultiplicative(r, GConj(m));
    GNegConjProperties(m);
    assert GAbsquare(Complex(t1, t2)) == t1 * t1 + t2 * t2;
    assert GAbsquare(r) * norm == t1 * t1 + t2 * t2;
    RoundWindow(c.re, norm);
    RoundWindow(c.im, norm);
    BoundFromParts(GAbsquare(r), norm, t1, t2);
  }

  /**
   * The mod of src/generic/mod.mjs at Complex: a - m * quotient(a, m), where
   * the complex quotient is the rounding division. A zero modulus leaves a
   * unchanged; otherwise the remainder has at most half the modulus' norm.
   */
  function GMod(a: Gauss, m: Gauss): (r: Gauss)
    ensures m == Zero ==> r == a
    ensures m != Zero ==> 2 * GAbsquare(r) <= GAbsquare(m)
  {
    if m != Zero then
      RemainderBound(a, m);
      Mod(a, m, GSub, GMul, GRoundQuotient)
    else
      Mod(a, m, GSub, GMul, GRoundQuotient)
  }

  /** If d divides n exactly, the rounding division returns the exact quotient. */
  lemma GRoundQuotientExact(q: Gauss, d: Gauss)
    requires d != Zero
    ensures GRoundQuotient(GMul(d, q), d) == q
  {
    var norm := GAbsquare(d);
    var c := GMul(GMul(d, q), GConj(d));
    assert c.re == q.re * norm && c.im == q.im * norm by {
      RemainderTimesConj(GMul(d, q), d, q);
      assert GSub(GMul(d, q), GMul(d, q)) == Zero;
      GMulParts(Zero, GConj(d));
    }
    RoundQuotientExact(q.re, norm);
    RoundQuotientExact(q.im, norm);
  }

  // ---------------------------------------------------------------------
  // src/complex/gcd.mjs

  /** The Gaussian mod halves the norm: the Euclid loop at Complex ends. */
  lemma GModDecreasing()
    ensures DecreasingMod(GMod, GIsZero, GAbsquareNat)
  {
    forall a, b | !GIsZero(b)
      ensures GAbsquareNat(GMod(a, b)) < GAbsquareNat(b)
    {
    }
  }

  /** gcdComplexRaw: gcdType('Complex'). */
  function GcdRaw(z: Gauss, m: Gauss): Gauss {
    GModDecreasing();
    EuclidGcd(z, m, GMod, GIsZero, GAbsquareNat)
  }

  /** gcd: the raw gcd when its real part has sign one, its negation otherwise. */
  function GGcd(z: Gauss, m: Gauss): (g: Gauss)
    ensures g.re >= 0
    ensures g == GcdRaw(z, m) || g == GNeg(GcdRaw(z, m))
    ensures GAbsquare(g) == GAbsquare(GcdRaw(z, m))
  {
    var raw := GcdRaw(z, m);
    GNegConjProperties(raw);
    if Sign(raw.re) == 1 then raw else GNeg(raw)
  }

  /** d divides n in the Gaussian integers. */
  ghost predicate GDivides(d: Gauss, n: Gauss) {
    exists k :: GMul(k, d) == n
  }

  /** (k d) q = (k q) d */
  lemma GMulRegroup(k: Gauss, d: Gauss, q: Gauss)
    ensures GMul(GMul(k, d), q) == GMul(GMul(k, q), d)
  {
    GMulAssociates(k, d, q);
    GMulCommutes(d, q);
    GMulAssociates(k, q, d);
  }

  lemma GDividesSumDifference(d: Gauss, x: Gauss, y: Gauss)
    requires GDivides(d, x) && GDivides(d, y)
    ensures GDivides(d, GSub(x, y)) && GDivides(d, GAdd(x, y))
  {
    var kx :| GMul(kx, d) == x;
    var ky :| GMul(ky, d) == y;
    GMulDistributes(kx, ky, d);
  }

  lemma GDividesMultiple(d: Gauss, y: Gauss, q: Gauss)
    requires GDivides(d, y)
    ensures GDivides(d, GMul(y, q))
  {
    var ky :| GMul(ky, d) == y;
    GMulRegroup(ky, d, q);
  }

  /** A common divisor of x and y is one of y and x mod y, and conversely. */
  lemma GModDivisor(d: Gauss, x: Gauss, y: Gauss)
    requires !GIsZero(y)
    ensures GDivides(d, x) && GDivides(d, y) <==> GDivides(d, y) && GDivides(d, GMod(x, y))
  {
    var p := GMul(y, GRoundQuotient(x, y));
    var r := GMod(x, y);
    assert r == GSub(x, p);
    if GDivides(d, y) {
      GDividesMultiple(d, y, GRoundQuotient(x, y));
      if GDivides(d, x) {
        GDividesSumDifference(d, x, p);
      }
      if GDivides(d, r) {
        GDividesSumDifference(d, r, p);
        GSubAddBack(x, p);
      }
    }
  }

  /** (x - p) + p = x. */
  lemma GSubAddBack(x: Gauss, p: Gauss)
    ensures GAdd(GSub(x, p), p) == x
  {
  }

  lemma GModKeepsDivisors()
    ensures ModKeepsDivisors(GMod, GIsZero, GDivides)
    ensures ZeroDivisible(GIsZero, GDivides)
  {
    forall d, x, y | !GIsZero(y)
      ensures GDivides(d, x) && GDivides(d, y) <==> GDivides(d, y) && GDivides(d, GMod(x, y))
    {
      GModDivisor(d, x, y);
    }
    forall d, y | GIsZero(y)
      ensures GDivides(d, y)
    {
      assert GMul(Zero, d) == y;
    }
  }

  lemma GMulNeg(k: Gauss, d: Gauss)
    ensures GMul(GNeg(k), GNeg(d)) == GMul(k, d)
    ensures GMul(GNeg(k), d) == GNeg(GMul(k, d))
  {
    var a, b, c, e := k.re, k.im, d.re, d.im;
    GMulParts(GNeg(k), GNeg(d));
    GMulParts(GNeg(k), d);
    GMulParts(k, d);
    assert (-a) * (-c) == a * c && (-b) * (-e) == b * e && (-a) * (-e) == a * e && (-b) * (-c) == b * c;
    assert (-a) * c == -(a * c) && (-b) * e == -(b * e) && (-a) * e == -(a * e) && (-b) * c == -(b * c);
  }

  lemma GDividesByNeg(d: Gauss, n: Gauss)
    requires GDivides(d, n)
    ensures GDivides(GNeg(d), n) && GDivides(d, GNeg(n))
  {
    var k :| GMul(k, d) == n;
    GMulNeg(k, d);
    assert GMul(GNeg(k), GNeg(d)) == n;
    assert GMul(GNeg(k), d) == GNeg(n);
  }

  /** A value and its negation have the same divisors and the same multiples. */
  lemma GDividesNeg(d: Gauss, n: Gauss)
    ensures GDivides(d, n) <==> GDivides(GNeg(d), n)
    ensures GDivides(d, n) <==> GDivides(d, GNeg(n))
  {
    GNegConjProperties(d);
    GNegConjProperties(n);
    if GDivides(d, n) {
      GDividesByNeg(d, n);
    }
    if GDivides(GNeg(d), n) {
      GDividesByNeg(GNeg(d), n);
    }
    if GDivides(d, GNeg(n)) {
      GDividesByNeg(d, GNeg(n));
    }
  }

  /**
   * The normalised gcd divides both arguments, and every common divisor
   * divides it: a greatest common divisor, fixed up to its unit by the sign
   * of the real part.
   */
  lemma GGcdIsGcd(z: Gauss, m: Gauss)
    ensures GDivides(GGcd(z, m), z) && GDivides(GGcd(z, m), m)
    ensures forall d :: GDivides(d, z) && GDivides(d, m) ==> GDivides(d, GGcd(z, m))
  {
    GModDecreasing();
    GModKeepsDivisors();
    var raw := GcdRaw(z, m);
    var g := GGcd(z, m);
    assert forall x :: GDivides(x, x) by {
      forall x ensures GDivides(x, x) {
        assert GMul(One, x) == x;
      }
    }
    EuclidDividesBoth(z, m, GMod, GIsZero, GAbsquareNat, GDivides);
    GDividesNeg(raw, z);
    GDividesNeg(raw, m);
    forall d | GDivides(d, z) && GDivides(d, m)
      ensures GDivides(d, g)
    {
      EuclidCommonDivisors(z, m, GMod, GIsZero, GAbsquareNat, GDivides, d);
      GDividesNeg(d, raw);
    }
  }

  /** One turn of the Euclid loop at Complex. */
  lemma GcdRawStep(a: Gauss, b: Gauss)
    requires b != Zero
    ensures GcdRaw(a, b) == GcdRaw(b, GMod(a, b))
  {
    GModDecreasing();
  }

  lemma GcdRawZero(a: Gauss)
    ensures GcdRaw(a, Zero) == a
  {
    GModDecreasing();
  }

  /** A quotient candidate whose parts leave remainders in the half window is the rounding quotient. */
  lemma GRoundQuotientAt(n: Gauss, d: Gauss, q: Gauss)
    requires d != Zero
    requires var c := GMul(n, GConj(d));
             var norm := GAbsquare(d);
             -norm < 2 * (c.re - q.re * norm) <= norm && -norm < 2 * (c.im - q.im * norm) <= norm
    ensures GRoundQuotient(n, d) == q
    ensures GMod(n, d) == GSub(n, GMul(d, q))
  {
    var c := GMul(n, GConj(d));
    var norm := GAbsquare(d);
    assert Abs(norm) == norm;
    RoundUnique(c.re, norm, RoundQuotient(c.re, norm), q.re);
    RoundUnique(c.im, norm, RoundQuotient(c.im, norm), q.im);
  }

  /** gcd(53n + 56n i, 47n - 13n i) = 4n + 5n i: the raw gcd is -4 - 5i, which is negated. */
  lemma GcdExample()
    ensures GGcd(Complex(53, 56), Complex(47, -13)) == Complex(4, 5)
  {
    GcdExampleFirst();
    GcdExampleSecond();
    GcdExampleThird();
    GcdRawZero(Complex(-4, -5));
  }

  /** 53 + 56i = (1 + i)(47 - 13i) + (-7 + 22i). */
  lemma GcdExampleFirst()
    ensures GcdRaw(Complex(53, 56), Complex(47, -13)) == GcdRaw(Complex(47, -13), Complex(-7, 22))
  {
    GRoundQuotientAt(Complex(53, 56), Complex(47, -13), Complex(1, 1));
    GcdRawStep(Complex(53, 56), Complex(47, -13));
  }

  /** 47 - 13i = (-1 - 2i)(-7 + 22i) + (-4 - 5i). */
  lemma GcdExampleSecond()
    ensures GcdRaw(Complex(47, -13), Complex(-7, 22)) == GcdRaw(Complex(-7, 22), Complex(-4, -5))
  {
    GRoundQuotientAt(Complex(47, -13), Complex(-7, 22), Complex(-1, -2));
    GcdRawStep(Complex(47, -13), Complex(-7, 22));
  }

  /** -7 + 22i = (-2 - 3i)(-4 - 5i), with remainder zero. */
  lemma GcdExampleThird()
    ensures GcdRaw(Complex(-7, 22), Complex(-4, -5)) == GcdRaw(Complex(-4, -5), Zero)
  {
    GRoundQuotientAt(Complex(-7, 22), Complex(-4, -5), Complex(-2, -3));
    GcdRawStep(Complex(-7, 22), Complex(-4, -5));
  }

  // ---------------------------------------------------------------------
  // src/generic/lcm.mjs at Complex, and src/complex/associate.mjs

  /** lcm at Complex: quotient(a, gcd(a, b)) * b, the quotient being the rounding division. */
  function GLcm(a: Gauss, b: Gauss): Gauss {
    Lcm(a, b, GMul, GRoundQuotient, GGcd)
  }

  function GLcmDefined(a: Gauss, b: Gauss): Option<Gauss> { Some(GLcm(a, b)) }

  /**
   * associate(w, z): w equals z or -z, or, failing that, z*i or -(z*i),
   * where i is built as complex(zero(z.re), one(z.im)).
   */
  predicate Associate(w: Gauss, z: Gauss) {
    if GEqual(w, z) || GEqual(w, GNeg(z)) then true
    else
      var ti := GMul(z, Complex(0, 1));
      GEqual(w, ti) || GEqual(w, GNeg(ti))
  }

  /** The units of the Gaussian integers. */
  const Units: set<Gauss> := {Complex(1, 0), Complex(-1, 0), Complex(0, 1), Complex(0, -1)}

  /** associate holds exactly when w is z times a unit. */
  lemma AssociateIsUnitMultiple(w: Gauss, z: Gauss)
    ensures Associate(w, z) <==> exists u :: u in Units && w == GMul(z, u)
  {
    GMulParts(z, Complex(1, 0));
    GMulParts(z, Complex(-1, 0));
    GMulParts(z, Complex(0, 1));
    GMulParts(z, Complex(0, -1));
    if Associate(w, z) {
      if w == z {
        assert w == GMul(z, Complex(1, 0));
      } else if w == GNeg(z) {
        assert w == GMul(z, Complex(-1, 0));
      } else if w == GMul(z, I) {
        assert w == GMul(z, Complex(0, 1));
      } else {
        assert w == GMul(z, Complex(0, -1));
      }
    }
  }

  /** associate is symmetric, because the inverse of a unit is a unit. */
  lemma AssociateSymmetric(w: Gauss, z: Gauss)
    ensures Associate(w, z) <==> Associate(z, w)
  {
    GMulParts(z, I);
    GMulParts(w, I);
  }

  /** gcd(2n + i, 1n + i) = -i: the raw result i has a zero real part, so it is negated. */
  lemma GcdFirstStep()
    ensures GGcd(Complex(2, 1), Complex(1, 1)) == Complex(0, -1)
  {
    GRoundQuotientAt(Complex(2, 1), Complex(1, 1), Complex(1, -1));
    GRoundQuotientAt(Complex(1, 1), Complex(0, 1), Complex(1, -1));
    GcdRawStep(Complex(2, 1), Complex(1, 1));
    GcdRawStep(Complex(1, 1), Complex(0, 1));
    GcdRawZero(Complex(0, 1));
  }

  /** lcm(2n + i, 1n + i) = -3 + i. */
  lemma LcmFirstStep()
    ensures GLcm(Complex(2, 1), Complex(1, 1)) == Complex(-3, 1)
  {
    GcdFirstStep();
    GRoundQuotientAt(Complex(2, 1), Complex(0, -1), Complex(-1, 2));
  }

  /** lcm(-3n + i, i) = 3 - i, with gcd -i. */
  lemma LcmSecondStep()
    ensures GLcm(Complex(-3, 1), I) == Complex(3, -1)
  {
    GRoundQuotientAt(Complex(-3, 1), Complex(0, 1), Complex(1, 3));
    GcdRawStep(Complex(-3, 1), Complex(0, 1));
    GcdRawZero(Complex(0, 1));
    assert GGcd(Complex(-3, 1), Complex(0, 1)) == Complex(0, -1);
    GRoundQuotientAt(Complex(-3, 1), Complex(0, -1), Complex(-1, -3));
  }

  /** lcm(2n + i, 1n + i, i) through the reducing fold is 3 - i. */
  lemma LcmFoldExample()
    ensures Reducing([Some(Complex(2, 1)), Some(Complex(1, 1)), Some(I)], GLcmDefined) == Ok(Some(Complex(3, -1)))
  {
    var args := [Some(Complex(2, 1)), Some(Complex(1, 1)), Some(I)];
    ReducingIsFold(args, GLcmDefined);
    assert args[1..] == [Some(Complex(1, 1)), Some(I)];
    LcmFirstStep();
    var mid := Step(Some(Complex(2, 1)), Some(Complex(1, 1)), GLcmDefined);
    assert mid == Some(Complex(-3, 1));
    LcmSecondStep();
    var last := Step(mid, Some(I), GLcmDefined);
    assert last == Some(Complex(3, -1));
    assert FoldSteps(last, [], GLcmDefined) == last;
    assert [Some(I)][1..] == [];
    assert FoldSteps(mid, [Some(I)], GLcmDefined) == last;
    assert FoldSteps(Some(Complex(2, 1)), args[1..], GLcmDefined) == FoldSteps(mid, [Some(I)], GLcmDefined);
  }

  /** 3 - i is an associate of 1 + 3i: it is -((1 + 3i) * i). */
  lemma AssociateExample()
    ensures Associate(Complex(3, -1), Complex(1, 3))
    ensures !Associate(Complex(3, 1), Complex(1, 3))
  {
    GMulParts(Complex(1, 3), Complex(0, 1));
  }
}
