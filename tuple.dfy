/**
 * The Tuple<T> template of src/tuple/Types/Tuple.mjs and its element-wise
 * operations (src/tuple/equalTT.mjs, src/tuple/isZero.mjs). A tuple is the
 * object {elts: [...]}; its elements are a sequence, and the operation on
 * elements (the source's `self(T)` / `self(T,T)`) is a function parameter.
 */
module Tuples {
  import opened Wrappers
  import opened JsValues
  import opened Complex

  // ---------------------------------------------------------------------
  // The type tests and conversions, on JavaScript values

  /** The base Tuple test: a truthy object whose `elts` is an array. */
  predicate IsTuple(v: Value)
    ensures IsTuple(v) <==> v.Object? && "elts" in v.props && v.props["elts"].Array?
  {
    Truthy(v) && TypeOf(v) == "object" && HasKey(v, "elts") && v.props["elts"].Array?
  }

  function TupleValue(elts: seq<Value>): (v: Value)
    ensures IsTuple(v) && v.props["elts"].elts == elts
  {
    Object(map["elts" := Array(elts)])
  }

  function Elts(v: Value): seq<Value>
    requires IsTuple(v)
  {
    v.props["elts"].elts
  }

  /** The Tuple<T> test, given T's test: every element passes it (so an empty tuple passes). */
  predicate TupleOf(testT: Value -> bool, v: Value)
    requires IsTuple(v)
  {
    forall e :: e in Elts(v) ==> testT(e)
  }

  lemma TupleOfIndexwise(testT: Value -> bool, v: Value)
    requires IsTuple(v)
    ensures TupleOf(testT, v) <==> forall i :: 0 <= i < |Elts(v)| ==> testT(Elts(v)[i])
    ensures Elts(v) == [] ==> TupleOf(testT, v)
  {
    if !TupleOf(testT, v) {
      var e :| e in Elts(v) && !testT(e);
      var i :| 0 <= i < |Elts(v)| && Elts(v)[i] == e;
    }
  }

  /** The conversion Tuple<U> -> Tuple<T>: the element conversion applied in place, in order. */
  function FromTupleU(convert: Value -> Value, tu: Value): (r: Value)
    requires IsTuple(tu)
    ensures IsTuple(r) && |Elts(r)| == |Elts(tu)|
    ensures forall i :: 0 <= i < |Elts(tu)| ==> Elts(r)[i] == convert(Elts(tu)[i])
  {
    TupleValue(MapElements(Elts(tu), convert))
  }

  /** The conversion T -> Tuple<T>: singleton promotion. */
  function FromT(t: Value): (r: Value)
    ensures IsTuple(r) && Elts(r) == [t]
  {
    TupleValue([t])
  }

  /** The conversion U -> Tuple<T>: convert, then promote to a singleton. */
  function FromU(convert: Value -> Value, u: Value): (r: Value)
    ensures IsTuple(r) && Elts(r) == [convert(u)]
  {
    TupleValue([convert(u)])
  }

  /** Converting a singleton tuple element-wise is the same as converting then promoting. */
  lemma FromConversionsAgree(convert: Value -> Value, u: Value)
    ensures FromTupleU(convert, FromT(u)) == FromU(convert, u)
  {
    assert MapElements([u], convert) == [convert(u)];
  }

  // ---------------------------------------------------------------------
  // promoteUnary

  /** promoteUnary: the operation applied to every element. */
  function MapElements<T, U>(s: seq<T>, f: T -> U): (r: seq<U>)
    ensures |r| == |s|
    ensures forall i :: 0 <= i < |s| ==> r[i] == f(s[i])
  {
    if s == [] then [] else [f(s[0])] + MapElements(s[1..], f)
  }

  /** Mapping distributes over concatenation. */
  lemma MapElementsAppend<T, U>(s: seq<T>, t: seq<T>, f: T -> U)
    ensures MapElements(s + t, f) == MapElements(s, f) + MapElements(t, f)
  {
  }

  /** Mapping twice is mapping the composition once. */
  lemma MapElementsCompose<T, U, V>(s: seq<T>, f: T -> U, g: U -> V)
    ensures MapElements(MapElements(s, f), g) == MapElements(s, x => g(f(x)))
  {
  }

  // ---------------------------------------------------------------------
  // promoteBinaryUnary: pairs on the common prefix, the unary operation on the longer tail

  function Max(a: int, b: int): int { if a >= b then a else b }

  /** The element at index k of promoteBinaryUnary's result. */
  function ZipTailAt<T>(s: seq<T>, t: seq<T>, k: nat, meB: (T, T) -> T, meU: T -> T): T
    requires k < Max(|s|, |t|)
  {
    if k < |s| && k < |t| then meB(s[k], t[k])
    else if k < |s| then meU(s[k])
    else meU(t[k])
  }

  /** The reference definition: pair the heads while both tuples last, then map the rest. */
  function ZipWithTail<T>(s: seq<T>, t: seq<T>, meB: (T, T) -> T, meU: T -> T): seq<T> {
    if s == [] then MapElements(t, meU)
    else if t == [] then MapElements(s, meU)
    else [meB(s[0], t[0])] + ZipWithTail(s[1..], t[1..], meB, meU)
  }

  /** The result has the longer length, with the pairs first and the unary images of the tail after. */
  lemma {:induction false} ZipWithTailIndex<T>(s: seq<T>, t: seq<T>, meB: (T, T) -> T, meU: T -> T)
    ensures |ZipWithTail(s, t, meB, meU)| == Max(|s|, |t|)
    ensures forall k :: 0 <= k < Max(|s|, |t|) ==> ZipWithTail(s, t, meB, meU)[k] == ZipTailAt(s, t, k, meB, meU)
  {
    if s != [] && t != [] {
      ZipWithTailIndex(s[1..], t[1..], meB, meU);
      var z := ZipWithTail(s, t, meB, meU);
      forall k | 0 <= k < Max(|s|, |t|)
        ensures z[k] == ZipTailAt(s, t, k, meB, meU)
      {
        if k > 0 {
          assert z[k] == ZipWithTail(s[1..], t[1..], meB, meU)[k - 1];
        }
      }
    }
  }

  /** When both tuples have the same length, promoteBinaryUnary never uses the unary operation. */
  lemma ZipWithTailSameLength<T>(s: seq<T>, t: seq<T>, meB: (T, T) -> T, meU: T -> T, meU2: T -> T)
    requires |s| == |t|
    ensures ZipWithTail(s, t, meB, meU) == ZipWithTail(s, t, meB, meU2)
  {
  }

  /**
   * promoteBinaryUnary, with the source's loop: the index runs until it
   * passes both lengths; below both it pairs, below one it applies the
   * unary operation to the longer tuple's element.
   */
  method PromoteBinaryUnary<T>(s: seq<T>, t: seq<T>, meB: (T, T) -> T, meU: T -> T) returns (result: seq<T>)
    ensures result == ZipWithTail(s, t, meB, meU)
  {
    var lim := Max(|s|, |t|);
    var i := -1;
    result := [];
    while true
      invariant -1 <= i < lim || i == -1
      invariant |result| == i + 1
      invariant forall k :: 0 <= k <= i ==> result[k] == ZipTailAt(s, t, k, meB, meU)
      decreases lim - i
    {
      i := i + 1;
      if i < |s| {
        if i < |t| {
          result := result + [meB(s[i], t[i])];
        } else {
          result := result + [meU(s[i])];
        }
        continue;
      }
      if i < |t| {
        result := result + [meU(t[i])];
      } else {
        break;
      }
    }
    ZipWithTailIndex(s, t, meB, meU);
  }

  // ---------------------------------------------------------------------
  // promoteBinary: missing elements of the shorter tuple are `undefined`

  function Head<T>(s: seq<T>): Option<T> {
    if s == [] then None else Some(s[0])
  }

  function Tail<T>(s: seq<T>): seq<T> {
    if s == [] then [] else s[1..]
  }

  /** s.elts[k] in JavaScript: the element, or undefined past the end. */
  function At<T>(s: seq<T>, k: nat): Option<T> {
    if k < |s| then Some(s[k]) else None
  }

  /** The reference definition: pair heads (undefined once a tuple runs out) until both run out. */
  function ZipPadded<T, U>(s: seq<T>, t: seq<T>, meB: (Option<T>, Option<T>) -> U): seq<U>
    decreases |s| + |t|
  {
    if s == [] && t == [] then [] else [meB(Head(s), Head(t))] + ZipPadded(Tail(s), Tail(t), meB)
  }

  lemma {:induction false} ZipPaddedIndex<T, U>(s: seq<T>, t: seq<T>, meB: (Option<T>, Option<T>) -> U)
    ensures |ZipPadded(s, t, meB)| == Max(|s|, |t|)
    ensures forall k :: 0 <= k < Max(|s|, |t|) ==> ZipPadded(s, t, meB)[k] == meB(At(s, k), At(t, k))
    decreases |s| + |t|
  {
    if s != [] || t != [] {
      ZipPaddedIndex(Tail(s), Tail(t), meB);
      var z := ZipPadded(s, t, meB);
      forall k | 0 <= k < Max(|s|, |t|)
        ensures z[k] == meB(At(s, k), At(t, k))
      {
        if k > 0 {
          assert z[k] == ZipPadded(Tail(s), Tail(t), meB)[k - 1];
          assert At(Tail(s), k - 1) == At(s, k) && At(Tail(t), k - 1) == At(t, k);
        }
      }
    }
  }

  /** promoteBinary, with the source's counting loop up to the longer length. */
  method PromoteBinary<T, U>(s: seq<T>, t: seq<T>, meB: (Option<T>, Option<T>) -> U) returns (result: seq<U>)
    ensures result == ZipPadded(s, t, meB)
  {
    var lim := Max(|s|, |t|);
    result := [];
    for i := 0 to lim
      invariant |result| == i
      invariant forall k :: 0 <= k < i ==> result[k] == meB(At(s, k), At(t, k))
    {
      result := result + [meB(At(s, i), At(t, i))];
    }
    ZipPaddedIndex(s, t, meB);
  }

  // ---------------------------------------------------------------------
  // promoteBinaryStrict: equal lengths or a RangeError

  /** The reference definition of the same-length pairwise result. */
  function Zip<T, U>(s: seq<T>, t: seq<T>, meB: (T, T) -> U): (r: seq<U>)
    requires |s| == |t|
    ensures |r| == |s|
  {
    if s == [] then [] else [meB(s[0], t[0])] + Zip(s[1..], t[1..], meB)
  }

  lemma {:induction false} ZipIndex<T, U>(s: seq<T>, t: seq<T>, meB: (T, T) -> U)
    requires |s| == |t|
    ensures forall k :: 0 <= k < |s| ==> Zip(s, t, meB)[k] == meB(s[k], t[k])
  {
    if s != [] {
      ZipIndex(s[1..], t[1..], meB);
      var z := Zip(s, t, meB);
      forall k | 0 < k < |s|
        ensures z[k] == meB(s[k], t[k])
      {
        assert z[k] == Zip(s[1..], t[1..], meB)[k - 1];
      }
    }
  }

  /** On same-length tuples the lenient and the strict promotions agree. */
  lemma {:induction false} ZipWithTailIsZip<T>(s: seq<T>, t: seq<T>, meB: (T, T) -> T, meU: T -> T)
    requires |s| == |t|
    ensures ZipWithTail(s, t, meB, meU) == Zip(s, t, meB)
  {
    if s != [] {
      ZipWithTailIsZip(s[1..], t[1..], meB, meU);
    }
  }

  /** promoteBinaryStrict: a RangeError for tuples of different lengths, else the pairwise result. */
  method PromoteBinaryStrict<T, U>(s: seq<T>, t: seq<T>, meB: (T, T) -> U) returns (r: Result<seq<U>>)
    ensures r.Err? <==> |s| != |t|
    ensures r.Err? ==> r.error == RangeError("Tuple length mismatch")
    ensures r.Ok? ==> |s| == |t| && r.value == Zip(s, t, meB)
  {
    if |s| != |t| {
      return Err(RangeError("Tuple length mismatch"));
    }
    var result := [];
    for i := 0 to |s|
      invariant |result| == i
      invariant forall k :: 0 <= k < i ==> result[k] == meB(s[k], t[k])
    {
      result := result + [meB(s[i], t[i])];
    }
    ZipIndex(s, t, meB);
    return Ok(result);
  }

  // ---------------------------------------------------------------------
  // equalTT and isZero

  /** Tuple equality: same length and every index-wise pair equal under the element equality. */
  predicate Elementwise<T>(s: seq<T>, t: seq<T>, me: (T, T) -> bool) {
    |s| == |t| && forall i :: 0 <= i < |s| ==> me(s[i], t[i])
  }

  /** equalTT, with the source's loop that stops at the first unequal pair. */
  method EqualTT<T>(s: seq<T>, t: seq<T>, me: (T, T) -> bool) returns (r: bool)
    ensures r <==> Elementwise(s, t, me)
  {
    if |s| != |t| {
      return false;
    }
    for i := 0 to |s|
      invariant forall k :: 0 <= k < i ==> me(s[k], t[k])
    {
      if !me(s[i], t[i]) {
        return false;
      }
    }
    return true;
  }

  /** Tuple equality inherits reflexivity and symmetry from the element equality. */
  lemma ElementwiseEquivalence<T>(s: seq<T>, t: seq<T>, me: (T, T) -> bool)
    requires forall x, y :: me(x, y) == me(y, x)
    requires forall x :: me(x, x)
    ensures Elementwise(s, s, me)
    ensures Elementwise(s, t, me) == Elementwise(t, s, me)
  {
  }

  /** Tuples of different lengths are unequal; two empty tuples are equal. */
  lemma ElementwiseLengths<T>(s: seq<T>, t: seq<T>, me: (T, T) -> bool)
    ensures |s| != |t| ==> !Elementwise(s, t, me)
    ensures Elementwise([], [], me)
  {
  }

  /** Tuple isZero: every element is zero under the element test. */
  predicate AllZero<T>(s: seq<T>, isZero: T -> bool) {
    forall i :: 0 <= i < |s| ==> isZero(s[i])
  }

  /** The empty tuple is zero, and zero-ness of a concatenation is zero-ness of both parts. */
  lemma AllZeroAppend<T>(s: seq<T>, t: seq<T>, isZero: T -> bool)
    ensures AllZero([], isZero)
    ensures AllZero(s + t, isZero) <==> AllZero(s, isZero) && AllZero(t, isZero)
  {
    if AllZero(s + t, isZero) {
      forall i | 0 <= i < |s|
        ensures isZero(s[i])
      {
        assert (s + t)[i] == s[i];
      }
      forall i | 0 <= i < |t|
        ensures isZero(t[i])
      {
        assert (s + t)[|s| + i] == t[i];
      }
    }
  }

  /** A tuple is zero exactly when the all-zero tuple of its length equals it element-wise. */
  lemma AllZeroIsEqualZero<T>(s: seq<T>, zero: T, isZero: T -> bool, eq: (T, T) -> bool)
    requires forall x :: isZero(x) <==> eq(x, zero)
    ensures AllZero(s, isZero) <==> Elementwise(s, seq(|s|, _ => zero), eq)
  {
  }

  // ---------------------------------------------------------------------
  // Worked cases from the tuple tests, over exact reals and bigints

  /** isZero(tuple(0,1)) is false, isZero(tuple(0n,0n,0n,0n)) is true, and tuple(0, complex(0,0)) is zero. */
  lemma IsZeroExamples()
    ensures !AllZero([0.0, 1.0], RealIsZero)
    ensures AllZero([0, 0, 0, 0], (n: int) => n == 0)
    ensures AllZero([Complex(0.0, 0.0), Complex(0.0, 0.0)], (z: Complex<real>) => IsZero(z, RealIsZero))
  {
    assert !RealIsZero([0.0, 1.0][1]);
  }

  /** (3.25,4.5,5) + (3,3) = (6.25,7.5,5): the longer tail passes through the unary operation. */
  lemma AddExample()
    ensures ZipWithTail([3.25, 4.5, 5.0], [3.0, 3.0], RealAdd, RealIdentity) == [6.25, 7.5, 5.0]
  {
  }

  /** subtract(tuple(5,6), tuple(7)) throws: the strict promotion compares lengths first. */
  method SubtractMismatchExample() returns (r: Result<seq<int>>)
    ensures r == Err(RangeError("Tuple length mismatch"))
  {
    r := PromoteBinaryStrict([5, 6], [7], (a: int, b: int) => a - b);
  }
}
