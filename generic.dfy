/**
 * Type-generic operations of src/generic: the Euclid loop that gcdType
 * builds for a type, `mod` and `lcm` written over the type's own
 * operations, and the variadic reductions of reducingOperation.mjs and
 * multiply.mjs. The operations a generic implementation receives as
 * dependencies (`mod(T,T)`, `isZero(T)`, `self`, ...) are parameters.
 */
module Generic {
  import opened Wrappers

  // ---------------------------------------------------------------------
  // src/generic/gcdType.mjs

  /** The mod operation shrinks its divisor's size whenever the divisor is non-zero. */
  ghost predicate DecreasingMod<T(!new)>(mod: (T, T) -> T, isZero: T -> bool, size: T -> nat) {
    forall a, b :: !isZero(b) ==> size(mod(a, b)) < size(b)
  }

  /** The reference definition of the Euclid loop: replace (a, b) by (b, a mod b) until b is zero. */
  function EuclidGcd<T(!new)>(a: T, b: T, mod: (T, T) -> T, isZero: T -> bool, ghost size: T -> nat): T
    requires DecreasingMod(mod, isZero, size)
    decreases size(b)
  {
    if isZero(b) then a else EuclidGcd(b, mod(a, b), mod, isZero, size)
  }

  /**
   * The function gcdType(type) produces: the source's while loop. It ends
   * because each step replaces b by a value of smaller size.
   */
  method GcdLoop<T(!new)>(a0: T, b0: T, mod: (T, T) -> T, isZero: T -> bool, ghost size: T -> nat) returns (g: T)
    requires DecreasingMod(mod, isZero, size)
    ensures g == EuclidGcd(a0, b0, mod, isZero, size)
  {
    var a, b := a0, b0;
    while !isZero(b)
      invariant EuclidGcd(a, b, mod, isZero, size) == EuclidGcd(a0, b0, mod, isZero, size)
      decreases size(b)
    {
      var r := mod(a, b);
      a := b;
      b := r;
    }
    return a;
  }

  /** A remainder keeps the common divisors: d divides x and y iff it divides y and x mod y. */
  ghost predicate ModKeepsDivisors<T(!new)>(mod: (T, T) -> T, isZero: T -> bool, divides: (T, T) -> bool) {
    forall d, x, y :: !isZero(y) ==> (divides(d, x) && divides(d, y) <==> divides(d, y) && divides(d, mod(x, y)))
  }

  /** Everything divides zero. */
  ghost predicate ZeroDivisible<T(!new)>(isZero: T -> bool, divides: (T, T) -> bool) {
    forall d, y :: isZero(y) ==> divides(d, y)
  }

  /**
   * The common divisors of (a, b) are the loop invariant: the divisors of
   * the result are exactly the common divisors of the inputs.
   */
  lemma {:induction false} EuclidCommonDivisors<T(!new)>(a: T, b: T, mod: (T, T) -> T, isZero: T -> bool,
                                                  size: T -> nat, divides: (T, T) -> bool, d: T)
    requires DecreasingMod(mod, isZero, size)
    requires ModKeepsDivisors(mod, isZero, divides) && ZeroDivisible(isZero, divides)
    ensures divides(d, EuclidGcd(a, b, mod, isZero, size)) <==> divides(d, a) && divides(d, b)
    decreases size(b)
  {
    if !isZero(b) {
      EuclidCommonDivisors(b, mod(a, b), mod, isZero, size, divides, d);
    }
  }

  /** With a reflexive divisibility, the result divides both inputs. */
  lemma EuclidDividesBoth<T(!new)>(a: T, b: T, mod: (T, T) -> T, isZero: T -> bool,
                             size: T -> nat, divides: (T, T) -> bool)
    requires DecreasingMod(mod, isZero, size)
    requires ModKeepsDivisors(mod, isZero, divides) && ZeroDivisible(isZero, divides)
    requires forall x :: divides(x, x)
    ensures var g := EuclidGcd(a, b, mod, isZero, size); divides(g, a) && divides(g, b)
  {
    var g := EuclidGcd(a, b, mod, isZero, size);
    EuclidCommonDivisors(a, b, mod, isZero, size, divides, g);
  }

  // ---------------------------------------------------------------------
  // src/generic/mod.mjs and src/generic/lcm.mjs, over the type's operations

  /** mod(a, m) = a - m * quotient(a, m). */
  function Mod<T>(a: T, m: T, sub: (T, T) -> T, mul: (T, T) -> T, quot: (T, T) -> T): T {
    sub(a, mul(m, quot(a, m)))
  }

  /** lcm(a, b) = quotient(a, gcd(a, b)) * b. */
  function Lcm<T>(a: T, b: T, mul: (T, T) -> T, quot: (T, T) -> T, gcd: (T, T) -> T): T {
    mul(quot(a, gcd(a, b)), b)
  }

  // ---------------------------------------------------------------------
  // src/generic/reducingOperation.mjs and src/generic/multiply.mjs
  // Arguments are Option values: None is JavaScript's undefined.

  /** One application of `self` on two arguments: undefined on either side gives undefined. */
  function Step<T>(x: Option<T>, y: Option<T>, op: (T, T) -> Option<T>): Option<T> {
    if x.None? then None          // the 'undefined,...any' signature
    else if y.None? then None     // the 'any,undefined' signature
    else op(x.value, y.value)     // the operation's own signature for the two values
  }

  /** The left fold through `self`: acc is combined with each remaining argument in turn, left to right. */
  function FoldSteps<T>(acc: Option<T>, rest: seq<Option<T>>, op: (T, T) -> Option<T>): Option<T>
    decreases |rest|
  {
    if rest == [] then acc else FoldSteps(Step(acc, rest[0], op), rest[1..], op)
  }

  /** The plain left fold of a total binary operation. */
  function FoldLeft<T>(acc: T, xs: seq<T>, f: (T, T) -> T): T {
    if xs == [] then acc else FoldLeft(f(acc, xs[0]), xs[1..], f)
  }

  predicate AllDefined<T>(args: seq<Option<T>>) {
    forall i :: 0 <= i < |args| ==> args[i].Some?
  }

  function Values<T>(args: seq<Option<T>>): (vs: seq<T>)
    requires AllDefined(args)
    ensures |vs| == |args| && forall i :: 0 <= i < |args| ==> args[i] == Some(vs[i])
  {
    if args == [] then [] else [args[0].value] + Values(args[1..])
  }

  /** Once undefined, the fold stays undefined. */
  lemma {:induction false} FoldFromUndefined<T>(rest: seq<Option<T>>, op: (T, T) -> Option<T>)
    ensures FoldSteps(None, rest, op) == None
  {
    if rest != [] {
      FoldFromUndefined(rest[1..], op);
    }
  }

  /** An undefined argument anywhere makes the fold undefined. */
  lemma {:induction false} FoldUndefined<T>(acc: Option<T>, rest: seq<Option<T>>, op: (T, T) -> Option<T>)
    requires acc.None? || exists i :: 0 <= i < |rest| && rest[i].None?
    ensures FoldSteps(acc, rest, op) == None
    decreases |rest|
  {
    if acc.None? {
      FoldFromUndefined(rest, op);
    } else {
      var i :| 0 <= i < |rest| && rest[i].None?;
      if i == 0 {
        FoldFromUndefined(rest[1..], op);
      } else {
        assert rest[1..][i - 1].None?;
        FoldUndefined(Step(acc, rest[0], op), rest[1..], op);
      }
    }
  }

  /** With a total operation and no undefined argument, the fold is the plain left fold of the values. */
  lemma {:induction false} FoldDefined<T>(acc: T, rest: seq<Option<T>>, f: (T, T) -> T, op: (T, T) -> Option<T>)
    requires forall x, y :: op(x, y) == Some(f(x, y))
    requires AllDefined(rest)
    ensures FoldSteps(Some(acc), rest, op) == Some(FoldLeft(acc, Values(rest), f))
  {
    if rest != [] {
      assert Values(rest)[1..] == Values(rest[1..]);
      FoldDefined(f(acc, rest[0].value), rest[1..], f, op);
    }
  }

  /**
   * reducingOperation: a lone argument is returned as it is, an undefined
   * first argument (or an undefined second of two) gives undefined, and two
   * or more arguments are folded from the left; no arguments match no signature.
   */
  function Reducing<T>(args: seq<Option<T>>, op: (T, T) -> Option<T>): (r: Result<Option<T>>)
    ensures r.Err? <==> |args| == 0
    ensures r.Err? ==> r.error.TypeError?
    ensures |args| == 1 ==> r == Ok(args[0])
  {
    if |args| == 0 then Err(TypeError("Too few arguments"))
    else if args[0].None? then Ok(None)                   // 'undefined', 'undefined,...any'
    else if |args| == 1 then Ok(args[0])                  // any
    else if |args| == 2 && args[1].None? then Ok(None)    // 'any,undefined'
    else Ok(FoldSteps(args[0], args[1..], op))            // 'any,any,...any'
  }

  /** Every signature of reducingOperation agrees with the left fold of `self`. */
  lemma ReducingIsFold<T>(args: seq<Option<T>>, op: (T, T) -> Option<T>)
    requires |args| >= 1
    ensures Reducing(args, op) == Ok(FoldSteps(args[0], args[1..], op))
  {
    if args[0].None? {
      FoldFromUndefined(args[1..], op);
    } else if |args| == 2 && args[1].None? {
      assert args[1..][0].None?;
      FoldUndefined(args[0], args[1..], op);
    }
  }

  /** Undefined anywhere gives undefined; otherwise a total operation gives the fold of the values. */
  lemma ReducingDefinedness<T>(args: seq<Option<T>>, f: (T, T) -> T, op: (T, T) -> Option<T>)
    requires |args| >= 1
    requires forall x, y :: op(x, y) == Some(f(x, y))
    ensures !AllDefined(args) ==> Reducing(args, op) == Ok(None)
    ensures AllDefined(args) ==> Reducing(args, op) == Ok(Some(FoldLeft(Values(args)[0], Values(args)[1..], f)))
  {
    ReducingIsFold(args, op);
    if !AllDefined(args) {
      var i :| 0 <= i < |args| && args[i].None?;
      if i > 0 {
        assert args[1..][i - 1].None?;
      }
      FoldUndefined(args[0], args[1..], op);
    } else {
      assert Values(args)[1..] == Values(args[1..]);
      FoldDefined(args[0].value, args[1..], f, op);
    }
  }

  /**
   * The generic multiply: like reducingOperation, except that no signature
   * takes a single defined argument, so that call is a TypeError.
   */
  function MultiplyFold<T>(args: seq<Option<T>>, op: (T, T) -> Option<T>): (r: Result<Option<T>>)
    ensures r.Err? <==> |args| == 0 || (|args| == 1 && args[0].Some?)
    ensures r.Err? ==> r.error.TypeError?
    ensures r.Ok? ==> r == Reducing(args, op)
  {
    if |args| == 0 then Err(TypeError("Too few arguments"))
    else if args[0].None? then Ok(None)                   // 'undefined', 'undefined,...any'
    else if |args| == 1 then Err(TypeError("Unexpected type of argument"))
    else if |args| == 2 && args[1].None? then Ok(None)    // 'any,undefined'
    else Ok(FoldSteps(args[0], args[1..], op))            // 'any,any,...any'
  }

  function AddInts(x: int, y: int): int { x + y }
  function AddDefined(x: int, y: int): Option<int> { Some(x + y) }

  /** add(15n, 25n, 35n) = 75n through the reducing operation. */
  lemma ReducingAddExample()
    ensures Reducing([Some(15), Some(25), Some(35)], AddDefined) == Ok(Some(75))
    ensures Reducing([Some(15), None, Some(35)], AddDefined) == Ok(None)
  {
    ReducingIsFold([Some(15), None, Some(35)], AddDefined);
    FoldUndefined(Some(15), [None, Some(35)], AddDefined);
  }
}
