/**
 * src/generic/relational.mjs: equal, unequal, larger, largerEq, smaller and
 * smallerEq, each written over the type's `compare`, `isZero` and `one`,
 * which arrive as parameters; and the `undefined` cases of compare and
 * isZero defined in the same file.
 */
module Relational {
  import opened JsValues
  import opened Signatures
  import opened BigIntArith

  /** equal: the comparison is zero. */
  predicate Equal<T, C>(x: T, y: T, cmp: (T, T) -> C, isZero: C -> bool) {
    isZero(cmp(x, y))
  }

  /** unequal, with its dependency on the two-argument equal. */
  predicate Unequal<T>(x: T, y: T, eq: (T, T) -> bool) {
    !eq(x, y)
  }

  /** larger: the comparison is one (of y's type). */
  predicate Larger<T, C(==)>(x: T, y: T, cmp: (T, T) -> C, one: T -> C) {
    cmp(x, y) == one(y)
  }

  /** largerEq: the comparison is zero or one. */
  predicate LargerEq<T, C(==)>(x: T, y: T, cmp: (T, T) -> C, one: T -> C, isZero: C -> bool) {
    var c := cmp(x, y);
    isZero(c) || c == one(y)
  }

  /** smaller: the comparison is neither zero nor one. */
  predicate Smaller<T, C(==)>(x: T, y: T, cmp: (T, T) -> C, one: T -> C, isZero: C -> bool) {
    var c := cmp(x, y);
    !isZero(c) && c != one(y)
  }

  /** smallerEq: the comparison is not one. */
  predicate SmallerEq<T, C(==)>(x: T, y: T, cmp: (T, T) -> C, one: T -> C) {
    cmp(x, y) != one(y)
  }

  /**
   * Whatever compare returns, largerEq is the negation of smaller and
   * smallerEq the negation of larger; largerEq is "larger or equal", and so
   * is smallerEq "smaller or equal" once one is not zero.
   */
  lemma RelationalComplements<T, C>(x: T, y: T, cmp: (T, T) -> C, one: T -> C, isZero: C -> bool)
    ensures LargerEq(x, y, cmp, one, isZero) == !Smaller(x, y, cmp, one, isZero)
    ensures SmallerEq(x, y, cmp, one) == !Larger(x, y, cmp, one)
    ensures LargerEq(x, y, cmp, one, isZero) <==> Larger(x, y, cmp, one) || Equal(x, y, cmp, isZero)
    ensures !isZero(one(y)) ==>
              (SmallerEq(x, y, cmp, one) <==> Smaller(x, y, cmp, one, isZero) || Equal(x, y, cmp, isZero))
  {
  }

  /** With one not zero, exactly one of smaller, equal and larger holds. */
  lemma Trichotomy<T, C>(x: T, y: T, cmp: (T, T) -> C, one: T -> C, isZero: C -> bool)
    requires !isZero(one(y))
    ensures Smaller(x, y, cmp, one, isZero) || Equal(x, y, cmp, isZero) || Larger(x, y, cmp, one)
    ensures !(Smaller(x, y, cmp, one, isZero) && Equal(x, y, cmp, isZero))
    ensures !(Smaller(x, y, cmp, one, isZero) && Larger(x, y, cmp, one))
    ensures !(Equal(x, y, cmp, isZero) && Larger(x, y, cmp, one))
  {
  }

  // ---------------------------------------------------------------------
  // At bigint: compare is src/bigint/compare.mjs, one(y) is 1n

  predicate IntIsZero(c: int) { c == 0 }
  function IntOne(y: int): int { 1 }

  /** Over bigint the derived operators are the usual order relations. */
  lemma BigIntRelations(x: int, y: int)
    ensures Equal(x, y, Compare, IntIsZero) <==> x == y
    ensures Unequal(x, y, (a, b) => Equal(a, b, Compare, IntIsZero)) <==> x != y
    ensures Larger(x, y, Compare, IntOne) <==> x > y
    ensures LargerEq(x, y, Compare, IntOne, IntIsZero) <==> x >= y
    ensures Smaller(x, y, Compare, IntOne, IntIsZero) <==> x < y
    ensures SmallerEq(x, y, Compare, IntOne) <==> x <= y
  {
    CompareAntisymmetric(x, y);
  }

  /** larger(7n, 3n) is true. */
  lemma LargerExample()
    ensures Larger(7, 3, Compare, IntOne) && !Larger(3, 7, Compare, IntOne)
  {
  }

  // ---------------------------------------------------------------------
  // The `undefined` signatures of compare and isZero

  /** compare(undefined, undefined) is the number 0. */
  function UndefinedCompare(x: Value, y: Value): Value {
    Number(0.0)
  }

  /** isZero at undefined: strict equality with the number 0. */
  predicate UndefinedIsZero(u: Value) {
    u == Number(0.0)
  }

  /**
   * Hence equal(undefined, undefined) holds through the generic equal,
   * while isZero(undefined) itself is false.
   */
  lemma UndefinedRelations()
    ensures Equal(Undefined, Undefined, UndefinedCompare, UndefinedIsZero)
    ensures !UndefinedIsZero(Undefined)
  {
  }

  // ---------------------------------------------------------------------
  // The dependency unequal declares

  /** A separator-free trimmed signature is a one-entry type list. */
  lemma SingleEntry(sig: string)
    requires !AllSpace(sig) && IsTrimmed(sig) && NoSep(sig, IsComma)
    ensures TypeListOfSignature(sig) == [sig]
  {
    TrimIdempotent(sig);
    SplitFree(sig, IsComma);
  }

  /**
   * As written, unequal asks for 'equal(T.T)': the signature "T.T" has no
   * comma, so it names a one-argument equal, not the two-argument one that
   * unequal's own signature 'T,T' needs.
   */
  lemma UnequalDependencyAsWritten()
    ensures TypeListOfSignature("T.T") == ["T.T"]
    ensures |TypeListOfSignature("T.T")| != |TypeListOfSignature("T,T")|
  {
    assert "T.T"[0] == 'T';
    assert !IsSpace('T') && !IsSpace('.');
    assert NoSep("T.T", IsComma);
    SingleEntry("T.T");
    UnequalDependency();
  }

  /** Two comma-free strings joined by a comma split back into the two. */
  lemma SplitPair(a: string, b: string)
    requires NoSep(a, IsComma) && NoSep(b, IsComma)
    ensures Split(a + "," + b, IsComma) == [a, b]
  {
    var cb := [','] + b;
    assert a + "," + b == a + cb;
    SplitFree(b, IsComma);
    assert cb[1..] == b;
    assert Split(cb, IsComma) == ["", b];
    SplitPrefix(a, cb, IsComma);
    assert a + "" == a;
  }

  /** Two trimmed, comma-free, non-empty types joined by a comma are a two-entry type list. */
  lemma TwoEntries(a: string, b: string)
    requires a != [] && b != [] && IsTrimmed(a) && IsTrimmed(b)
    requires NoSep(a, IsComma) && NoSep(b, IsComma)
    ensures TypeListOfSignature(a + "," + b) == [a, b]
  {
    var s := a + "," + b;
    SplitPair(a, b);
    assert s[0] == a[0] && s[|s| - 1] == b[|b| - 1];
    assert !AllSpace(s) by {
      assert !IsSpace(s[0]);
    }
    TrimIdempotent(s);
    TrimIdempotent(a);
    TrimIdempotent(b);
    var t := TypeListOfSignature(s);
    TypeListInOrder(s, 0);
    TypeListInOrder(s, 1);
  }

  /**
   * The intended dependency 'equal(T,T)' has the same two-entry type list
   * as unequal's own signature; with it unequal is the negation of equal.
   */
  lemma UnequalDependency()
    ensures TypeListOfSignature("T,T") == ["T", "T"]
  {
    var t := "T";
    assert t + "," + t == "T,T";
    assert !IsSpace(t[0]) && NoSep(t, IsComma);
    TwoEntries(t, t);
  }
}
