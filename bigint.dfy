/**
 * The bigint implementations of sign, compare, quotient, roundquotient,
 * divide and sqrt (the files under src/bigint). JavaScript's `/` on bigint truncates
 * toward zero and throws RangeError on a zero divisor; Dafny's `/` is
 * Euclidean, so truncation is written out as `TruncDiv`.
 */
module BigIntArith {
  import opened Wrappers
  import opened Complex

  function Abs(x: int): (r: int)
    ensures r >= 0 && (r == x || r == -x)
  {
    if x < 0 then -x else x
  }

  function Square(k: int): int { k * k }

  // ---------------------------------------------------------------------
  // Small facts about products, each instantiated by the proofs below

  lemma MulSub(a: int, b: int, d: int)
    ensures (a - b) * d == a * d - b * d
  {
  }

  lemma MulAdd(a: int, b: int, d: int)
    ensures (a + b) * d == a * d + b * d
  {
  }

  lemma MulNegRight(t: int, b: int)
    ensures t * (-b) == -(t * b)
  {
  }

  lemma AbsMul(k: int, d: int)
    ensures Abs(k * d) == Abs(k) * Abs(d)
  {
    if k < 0 && d < 0 {
      assert k * d == (-k) * (-d);
    } else if k < 0 {
      assert k * d == -((-k) * d);
    } else if d < 0 {
      MulNegRight(k, d);
    }
  }

  lemma MulLowerBound(x: int, y: int)
    requires x >= 0 && y >= 0
    ensures x == 0 || x * y >= y
  {
    if x > 0 {
      MulAdd(x - 1, 1, y);
    }
  }

  /** A multiple of d smaller in size than d is zero. */
  lemma SmallMultiple(k: int, d: int)
    requires d != 0 && Abs(k * d) < Abs(d)
    ensures k == 0
  {
    AbsMul(k, d);
    MulLowerBound(Abs(k), Abs(d));
  }

  // ---------------------------------------------------------------------
  // Division

  /** `n / d` on JavaScript bigints: the quotient rounded toward zero, so the remainder has n's sign. */
  function TruncDiv(n: int, d: int): (q: int)
    requires d != 0
    ensures Abs(n - q * d) < Abs(d)
    ensures n >= 0 ==> n - q * d >= 0
    ensures n <= 0 ==> n - q * d <= 0
  {
    var a, b := Abs(n), Abs(d);
    var t := a / b;
    var q := if (n >= 0) == (d > 0) then t else -t;
    DivRemainder(a, b);
    TruncRemainder(n, d, t, q);
    var r := a - t * b;
    assert 0 <= r < b && n - q * d == (if n >= 0 then r else -r);
    q
  }

  /** Euclidean division by a positive divisor leaves a remainder in [0, b). */
  lemma DivRemainder(a: int, b: int)
    requires b > 0
    ensures 0 <= a - (a / b) * b < b
  {
  }

  /** The remainder of a truncating division is that of |n| by |d|, with n's sign. */
  lemma TruncRemainder(n: int, d: int, t: int, q: int)
    requires d != 0 && q == (if (n >= 0) == (d > 0) then t else -t)
    ensures n - q * d == (if n >= 0 then Abs(n) - t * Abs(d) else -(Abs(n) - t * Abs(d)))
  {
    if d < 0 {
      MulNegRight(q, -d);
      MulNegRight(t, -d);
    }
    if q != t {
      MulNegRight(t, d);
      assert q * d == -(t * d);
    }
  }

  /** src/bigint/sign.mjs: sign(b) times b is |b|, sign(b) is one of -1, 0, 1, and it is 0 exactly at 0. */
  function Sign(b: int): (r: int)
    ensures -1 <= r <= 1
    ensures r * b == Abs(b)
    ensures r == 0 <==> b == 0
  {
    if b == 0 then 0
    else if b > 0 then 1
    else -1
  }

  lemma SignNegate(b: int)
    ensures Sign(-b) == -Sign(b)
  {
  }

  /** src/bigint/compare.mjs: the comparison is the sign of the difference. */
  function Compare(a: int, b: int): (r: int)
    ensures r == Sign(a - b)
  {
    if a == b then 0 else if a > b then 1 else -1
  }

  lemma CompareAntisymmetric(a: int, b: int)
    ensures Compare(a, b) == -Compare(b, a)
    ensures Compare(a, b) == 0 <==> a == b
  {
    SignNegate(a - b);
  }

  /**
   * src/bigint/quotient.mjs (and its TypeScript twin quotient.ts): the floor
   * of n/d, with 0 for a zero divisor. The remainder n - q*d lies in [0, d)
   * for a positive divisor and in (d, 0] for a negative one.
   */
  function Quotient(n: int, d: int): (q: int)
    ensures d == 0 ==> q == 0
    ensures d > 0 ==> 0 <= n - q * d < d
    ensures d < 0 ==> d < n - q * d <= 0
  {
    var dSgn := Sign(d);
    if dSgn == 0 then 0
    else if Sign(n) == dSgn then TruncDiv(n, d)
    else
      var quot := TruncDiv(n, d);
      if quot * d == n then quot
      else
        MulSub(quot, 1, d);
        quot - 1
  }

  /** An independent definition of the floor quotient through Dafny's Euclidean division. */
  function FloorDiv(n: int, d: int): int
    requires d != 0
  {
    if d > 0 then n / d else (-n) / (-d)
  }

  /** FloorDiv leaves its remainder in the same window as Quotient. */
  lemma FloorWindow(n: int, d: int)
    requires d != 0
    ensures d > 0 ==> 0 <= n - FloorDiv(n, d) * d < d
    ensures d < 0 ==> d < n - FloorDiv(n, d) * d <= 0
  {
    var f := FloorDiv(n, d);
    if d < 0 {
      MulNegRight(f, d);
    }
  }

  /** The remainder window determines the floor quotient uniquely. */
  lemma FloorUnique(n: int, d: int, q1: int, q2: int)
    requires d != 0
    requires d > 0 ==> 0 <= n - q1 * d < d && 0 <= n - q2 * d < d
    requires d < 0 ==> d < n - q1 * d <= 0 && d < n - q2 * d <= 0
    ensures q1 == q2
  {
    MulSub(q1, q2, d);
    SmallMultiple(q1 - q2, d);
  }

  /** The quotient is the floor the TypeScript doc comment promises, whatever the signs. */
  lemma QuotientIsFloor(n: int, d: int)
    requires d != 0
    ensures Quotient(n, d) == FloorDiv(n, d)
  {
    FloorWindow(n, d);
    FloorUnique(n, d, Quotient(n, d), FloorDiv(n, d));
  }

  /** Same-sign operands: the truncated quotient is returned unchanged. */
  lemma QuotientSameSign(n: int, d: int)
    requires d != 0 && Sign(n) == Sign(d)
    ensures Quotient(n, d) == TruncDiv(n, d)
  {
  }

  /** An exact division returns the exact quotient, whatever the signs. */
  lemma QuotientExact(k: int, d: int)
    requires d != 0
    ensures Quotient(k * d, d) == k
  {
    FloorUnique(k * d, d, Quotient(k * d, d), k);
  }

  /**
   * src/bigint/roundquotient.mjs: the nearest integer to n/d; the remainder
   * n - q*d lies in (-|d|/2, |d|/2], so an exact tie leaves +|d|/2.
   */
  function RoundQuotient(n: int, d: int): (q: int)
    ensures d == 0 ==> q == 0
    ensures d != 0 ==> -Abs(d) < 2 * (n - q * d) <= Abs(d)
  {
    var dSgn := Sign(d);
    if dSgn == 0 then 0
    else
      var candidate := TruncDiv(n, d);
      var rem := n - d * candidate;
      var absd := d * dSgn;
      if 2 * rem > absd then
        MulAdd(candidate, dSgn, d);
        candidate + dSgn
      else if -2 * rem >= absd then
        MulSub(candidate, dSgn, d);
        candidate - dSgn
      else candidate
  }

  /** The remainder window determines the rounded quotient uniquely. */
  lemma RoundUnique(n: int, d: int, q1: int, q2: int)
    requires d != 0
    requires -Abs(d) < 2 * (n - q1 * d) <= Abs(d)
    requires -Abs(d) < 2 * (n - q2 * d) <= Abs(d)
    ensures q1 == q2
  {
    MulSub(q1, q2, d);
    SmallMultiple(q1 - q2, d);
  }

  /** An exact division rounds to the exact quotient. */
  lemma RoundQuotientExact(k: int, d: int)
    requires d != 0
    ensures RoundQuotient(k * d, d) == k
  {
    RoundUnique(k * d, d, RoundQuotient(k * d, d), k);
  }

  /** With the truncated quotient q, q*d == n exactly when d divides n. */
  lemma ExactIffMod(n: int, d: int, q: int)
    requires d != 0 && Abs(n - q * d) < Abs(d)
    ensures q * d == n <==> n % d == 0
  {
    var e := n / d;
    MulSub(q, e, d);
    if q * d == n {
      SmallMultiple(q - e, d);
    }
    if n % d == 0 {
      SmallMultiple(q - e, d);
    }
  }

  /**
   * src/bigint/divide.mjs: in predictable mode the floor quotient; otherwise
   * the exact quotient, `undefined` (None) when d does not divide n, and the
   * RangeError JavaScript throws for a zero bigint divisor.
   */
  function Divide(n: int, d: int, predictable: bool): (r: Result<Option<int>>)
    ensures predictable ==> r == Ok(Some(Quotient(n, d)))
    ensures !predictable && d == 0 ==> r.Err? && r.error.RangeError?
    ensures !predictable && d != 0 ==> r.Ok? && (r.value.Some? <==> n % d == 0)
    ensures !predictable && r.Ok? && r.value.Some? ==> r.value.value * d == n
  {
    if predictable then Ok(Some(Quotient(n, d)))
    else if d == 0 then Err(RangeError("Division by zero"))
    else
      var q := TruncDiv(n, d);
      ExactIffMod(n, d, q);
      if q * d == n then Ok(Some(q)) else Ok(None)
  }

  /** The square-root library's contract: the root of the largest square not above b. */
  ghost predicate IsIsqrt(isqrt: int -> int) {
    forall b :: 0 <= b ==> 0 <= isqrt(b) && isqrt(b) * isqrt(b) <= b < (isqrt(b) + 1) * (isqrt(b) + 1)
  }

  lemma SquareMonotone(a: int, b: int)
    requires 0 <= a <= b
    ensures a * a <= b * b
  {
    assert a * a <= a * b <= b * b;
  }

  /** Between two consecutive squares there is no square. */
  lemma NoSquareBetween(r: nat, b: int, k: int)
    requires r * r < b < (r + 1) * (r + 1)
    ensures Square(k) != b
  {
    var a := Abs(k);
    assert Square(k) == a * a;
    if a <= r {
      SquareMonotone(a, r);
    } else {
      SquareMonotone(r + 1, a);
    }
  }

  lemma IsqrtUnique(b: int, r: nat, s: nat)
    requires r * r <= b < (r + 1) * (r + 1)
    requires s * s <= b < (s + 1) * (s + 1)
    ensures r == s
  {
    if r < s { SquareMonotone(r + 1, s); }
    if s < r { SquareMonotone(s + 1, r); }
  }

  /** The result of sqrt on a bigint: a bigint root, a Gaussian root, or undefined. */
  datatype Root = RealRoot(root: int) | ComplexRoot(z: Complex<int>) | NoRoot

  /**
   * src/bigint/sqrt.mjs, the closures chosen when `config.predictable` is set
   * or when no complex constructor is available: predictable mode returns the
   * library's integer square root, otherwise only a perfect square has a root.
   */
  function SqrtWithoutComplex(b: int, predictable: bool, isqrt: int -> int): (r: Root)
    requires IsIsqrt(isqrt)
    ensures predictable ==> r == RealRoot(isqrt(b))
    ensures !predictable ==> !r.ComplexRoot?
    ensures !predictable && r.RealRoot? ==> b >= 0 && r.root >= 0 && Square(r.root) == b
    ensures !predictable && r.NoRoot? ==> forall k :: Square(k) != b
  {
    if predictable then RealRoot(isqrt(b))
    else if b >= 0 && isqrt(b) * isqrt(b) == b then RealRoot(isqrt(b))
    else
      assert forall k :: Square(k) != b by {
        forall k ensures Square(k) != b {
          if b >= 0 { NoSquareBetween(isqrt(b), b, k); }
        }
      }
      NoRoot
  }

  /**
   * src/bigint/sqrt.mjs, the closure used when a complex constructor is
   * available: undefined stays undefined, a negative perfect square has the
   * root complex(0, √-b), and anything whose absolute value is not a perfect
   * square has none.
   */
  method SqrtWithComplex(input: Option<int>, isqrt: int -> int) returns (r: Root)
    requires IsIsqrt(isqrt)
    ensures input.None? ==> r == NoRoot
    ensures r.RealRoot? ==> input == Some(Square(r.root)) && r.root >= 0
    ensures r.ComplexRoot? ==> r.z.re == 0 && r.z.im >= 0 && input == Some(-Square(r.z.im)) && r.z.im != 0
    ensures r.NoRoot? && input.Some? ==> forall k :: Square(k) != Abs(input.value)
  {
    if input.None? {
      return NoRoot;
    }
    var b := input.value;
    var isReal := true;
    if b < 0 {
      b := -b;
      isReal := false;
    }
    var trial := isqrt(b);
    if trial * trial != b {
      forall k ensures Square(k) != b {
        NoSquareBetween(trial, b, k);
      }
      return NoRoot;
    }
    if isReal {
      return RealRoot(trial);
    }
    return ComplexRoot(Complex(0, trial));
  }

  /** sqrt(256n) = 16n and sqrt(-17n) is undefined when no complex constructor is present. */
  lemma SqrtWithoutComplexExamples(isqrt: int -> int)
    requires IsIsqrt(isqrt)
    ensures SqrtWithoutComplex(256, false, isqrt) == RealRoot(16)
    ensures SqrtWithoutComplex(-17, false, isqrt) == NoRoot
  {
    IsqrtUnique(256, isqrt(256), 16);
  }

  /** quotient and roundquotient of (1n..5n) by 3n, as the tuple tests state. */
  lemma QuotientExamples()
    ensures [Quotient(1, 3), Quotient(2, 3), Quotient(3, 3), Quotient(4, 3), Quotient(5, 3)] == [0, 0, 1, 1, 1]
    ensures [RoundQuotient(1, 3), RoundQuotient(2, 3), RoundQuotient(3, 3), RoundQuotient(4, 3), RoundQuotient(5, 3)]
         == [0, 1, 1, 1, 2]
    ensures Divide(15, 5, false) == Ok(Some(3)) && Divide(14, 5, false) == Ok(None)
    ensures Divide(-14, 5, true) == Ok(Some(-3)) && Divide(14, -5, true) == Ok(Some(-3))
    ensures Divide(-14, -5, true) == Ok(Some(2)) && Divide(14, 0, true) == Ok(Some(0))
  {
  }
}
