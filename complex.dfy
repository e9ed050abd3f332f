/**
 * Complex numbers over an arbitrary component type T (the files under src/complex).
 * The source's implementations call `self(T,T)`, `negate(T)`, `add(T,T)` and
 * so on for the components; here those component operations are parameters,
 * so one definition serves Complex<bigint>, Complex<number> and nested
 * complexes such as quaternions.
 */
module Complex {
  import opened Wrappers
  import opened JsValues

  datatype Complex<T> = Complex(re: T, im: T)

  // ---------------------------------------------------------------------
  // src/complex/Types/Complex.mjs: the type test and the conversions into it

  /** The Complex type test: a truthy object with both `re` and `im` keys. */
  predicate IsComplex(v: Value)
    ensures IsComplex(v) <==> v.Object? && "re" in v.props && "im" in v.props
  {
    Truthy(v) && TypeOf(v) == "object" && HasKey(v, "re") && HasKey(v, "im")
  }

  /** The test for Complex<number>: complex with both components numbers. */
  predicate NumComplex(v: Value)
    ensures NumComplex(v) <==> IsComplex(v) && v.props["re"].Number? && v.props["im"].Number?
  {
    IsComplex(v) && TypeOf(v.props["re"]) == "number" && TypeOf(v.props["im"]) == "number"
  }

  function ComplexValue(re: Value, im: Value): Value {
    Object(map["re" := re, "im" := im])
  }

  /** The conversion number -> Complex: {re: x, im: 0}. */
  function FromNumber(x: real): Value {
    ComplexValue(Number(x), Number(0.0))
  }

  /** The conversion bigint -> Complex: {re: x, im: 0n}. */
  function FromBigInt(x: int): Value {
    ComplexValue(BigInt(x), BigInt(0))
  }

  /** Both conversions produce values the Complex test accepts, keeping x as the real part. */
  lemma ConversionsAreComplex(x: real, n: int)
    ensures IsComplex(FromNumber(x)) && NumComplex(FromNumber(x))
    ensures FromNumber(x).props["re"] == Number(x) && FromNumber(x).props["im"] == Number(0.0)
    ensures IsComplex(FromBigInt(n)) && !NumComplex(FromBigInt(n))
    ensures FromBigInt(n).props["re"] == BigInt(n) && FromBigInt(n).props["im"] == BigInt(0)
  {
  }

  // ---------------------------------------------------------------------
  // src/complex/complex.mjs: the `complex` constructor on JavaScript values

  /**
   * complex(x) with one argument: undefined stays undefined, a complex is
   * returned unchanged, a number or bigint goes through the conversion into
   * Complex, and any other value matches no signature.
   */
  function ComplexOf1(x: Value): (r: Result<Value>)
    ensures x == Undefined ==> r == Ok(Undefined)
    ensures IsComplex(x) ==> r == Ok(x)
    ensures x.Number? ==> r == Ok(FromNumber(x.x)) && r == Ok(ComplexOf2(x, Number(0.0)))
    ensures x.BigInt? ==> r == Ok(FromBigInt(x.n)) && r == Ok(ComplexOf2(x, BigInt(0)))
    ensures r.Err? <==> !(x == Undefined || IsComplex(x) || x.Number? || x.BigInt?)
    ensures r.Ok? && r.value != Undefined ==> IsComplex(r.value)
  {
    if x == Undefined then Ok(Undefined)
    else if IsComplex(x) then Ok(x)
    else if x.Number? then Ok(FromNumber(x.x))
    else if x.BigInt? then Ok(FromBigInt(x.n))
    else Err(TypeError("Unexpected type of argument in function complex"))
  }

  /** complex(x, y): an undefined argument makes the result undefined, otherwise {re: x, im: y}. */
  function ComplexOf2(x: Value, y: Value): (r: Value)
    ensures x == Undefined || y == Undefined <==> r == Undefined
    ensures r != Undefined ==> IsComplex(r) && r.props["re"] == x && r.props["im"] == y
  {
    if x == Undefined then x
    else if y == Undefined then y
    else ComplexValue(x, y)
  }

  /** complex(2,3) = {re: 2, im: 3} and complex(2n) = complex(2n, 0n). */
  lemma ComplexConstructorExamples()
    ensures ComplexOf2(Number(2.0), Number(3.0)) == Object(map["re" := Number(2.0), "im" := Number(3.0)])
    ensures ComplexOf1(BigInt(2)) == Ok(ComplexOf2(BigInt(2), BigInt(0)))
    ensures ComplexOf1(Number(2.0)) == Ok(ComplexOf2(Number(2.0), Number(0.0)))
  {
  }

  // ---------------------------------------------------------------------
  // Component-wise operations, each taking the component operation it calls

  /** src/complex/add.mjs */
  function Add<T>(w: Complex<T>, z: Complex<T>, add: (T, T) -> T): Complex<T> {
    Complex(add(w.re, z.re), add(w.im, z.im))
  }

  /** src/complex/negate.mjs */
  function Negate<T>(z: Complex<T>, neg: T -> T): Complex<T> {
    Complex(neg(z.re), neg(z.im))
  }

  /** src/complex/conjugate.mjs */
  function Conjugate<T>(z: Complex<T>, neg: T -> T): Complex<T> {
    Complex(z.re, neg(z.im))
  }

  /** src/complex/multiply.mjs: (w.re z.re - w.im z.im) + (w.re z.im + w.im z.re) i. */
  function Multiply<T>(w: Complex<T>, z: Complex<T>, add: (T, T) -> T, sub: (T, T) -> T, mul: (T, T) -> T): Complex<T> {
    Complex(sub(mul(w.re, z.re), mul(w.im, z.im)), add(mul(w.re, z.im), mul(w.im, z.re)))
  }

  /** src/complex/multiply.ts: the conjugating (Cayley-Dickson) product. */
  function MultiplyConj<T>(w: Complex<T>, z: Complex<T>, add: (T, T) -> T, sub: (T, T) -> T,
                           mul: (T, T) -> T, conj: T -> T): Complex<T> {
    var realpart := sub(mul(w.re, z.re), mul(conj(w.im), z.im));
    var imagpart := add(mul(conj(w.re), z.im), mul(w.im, z.re));
    Complex(realpart, imagpart)
  }

  /** src/complex/absquare.mjs: square(re) + square(im), a value of the component type. */
  function Absquare<T>(z: Complex<T>, add: (T, T) -> T, square: T -> T): T {
    add(square(z.re), square(z.im))
  }

  /** src/complex/isZero.mjs */
  predicate IsZero<T>(z: Complex<T>, isZero: T -> bool) {
    isZero(z.re) && isZero(z.im)
  }

  /** src/complex/equalTT.mjs, Complex<T>,Complex<T> */
  predicate Equal<T>(w: Complex<T>, z: Complex<T>, eq: (T, T) -> bool) {
    eq(w.re, z.re) && eq(w.im, z.im)
  }

  /** src/complex/equalTT.mjs, Complex<T>,T */
  predicate EqualReal<T>(z: Complex<T>, x: T, eq: (T, T) -> bool, isZero: T -> bool) {
    eq(z.re, x) && isZero(z.im)
  }

  /** src/complex/equalTT.mjs, T,Complex<T> */
  predicate RealEqual<T>(x: T, z: Complex<T>, eq: (T, T) -> bool, isZero: T -> bool) {
    eq(z.re, x) && isZero(z.im)
  }

  // ---------------------------------------------------------------------
  // Properties of the generic operations

  /** Negation and conjugation are involutions when the component negation is. */
  lemma NegateConjugateInvolutions<T>(z: Complex<T>, neg: T -> T)
    requires forall x :: neg(neg(x)) == x
    ensures Negate(Negate(z, neg), neg) == z
    ensures Conjugate(Conjugate(z, neg), neg) == z
  {
  }

  /** When conjugation of the components is the identity, multiply.ts agrees with multiply.mjs. */
  lemma MultiplyConjAgrees<T>(w: Complex<T>, z: Complex<T>, add: (T, T) -> T, sub: (T, T) -> T,
                              mul: (T, T) -> T, conj: T -> T)
    requires forall x :: conj(x) == x
    ensures MultiplyConj(w, z, add, sub, mul, conj) == Multiply(w, z, add, sub, mul)
  {
  }

  /** The mixed equalities are symmetric to each other. */
  lemma EqualRealSymmetric<T>(z: Complex<T>, x: T, eq: (T, T) -> bool, isZero: T -> bool)
    ensures EqualReal(z, x, eq, isZero) == RealEqual(x, z, eq, isZero)
  {
  }

  /** A complex nested two deep is zero iff its four leaves are zero. */
  lemma IsZeroNested<T>(q: Complex<Complex<T>>, isZero: T -> bool)
    ensures IsZero(q, (z: Complex<T>) => IsZero(z, isZero))
        <==> isZero(q.re.re) && isZero(q.re.im) && isZero(q.im.re) && isZero(q.im.im)
  {
  }

  // ---------------------------------------------------------------------
  // Worked cases from the test suite, over exact reals

  function RealAdd(a: real, b: real): real { a + b }
  function RealSub(a: real, b: real): real { a - b }
  function RealMul(a: real, b: real): real { a * b }
  function RealNeg(a: real): real { -a }
  function RealIdentity(a: real): real { a }
  predicate RealEq(a: real, b: real) { a == b }
  predicate RealIsZero(a: real) { a == 0.0 }

  /** quaternion(r,i,j,k) = complex(complex(r,j), complex(i,k)) (src/complex/quaternion.mjs). */
  function Quaternion(r: real, i: real, j: real, k: real): Complex<Complex<real>> {
    Complex(Complex(r, j), Complex(i, k))
  }

  function CAdd(a: Complex<real>, b: Complex<real>): Complex<real> { Add(a, b, RealAdd) }
  function CSub(a: Complex<real>, b: Complex<real>): Complex<real> { Add(a, Negate(b, RealNeg), RealAdd) }
  function CMul(a: Complex<real>, b: Complex<real>): Complex<real> {
    MultiplyConj(a, b, RealAdd, RealSub, RealMul, RealIdentity)
  }
  function CConj(a: Complex<real>): Complex<real> { Conjugate(a, RealNeg) }

  /** The quaternion product from the complex tests: q0 q1 = quaternion(0.5, 1.25, 1.5, 0.25). */
  lemma QuaternionProduct()
    ensures MultiplyConj(Quaternion(1.0, 0.0, 1.0, 0.0), Quaternion(1.0, 0.5, 0.5, 0.75), CAdd, CSub, CMul, CConj)
         == Quaternion(0.5, 1.25, 1.5, 0.25)
    ensures Add(Quaternion(1.0, 0.0, 1.0, 0.0), Quaternion(1.0, 0.5, 0.5, 0.75), CAdd) == Quaternion(2.0, 0.5, 1.5, 0.75)
  {
  }

  /** complex(3,0) equals 3, complex(3,2) equals complex(3,2), complex(45,3) does not equal 45. */
  lemma EqualityExamples()
    ensures EqualReal(Complex(3.0, 0.0), 3.0, RealEq, RealIsZero)
    ensures Equal(Complex(3.0, 2.0), Complex(3.0, 2.0), RealEq)
    ensures !Equal(Complex(45.0, 3.0), Complex(45.0, -3.0), RealEq)
    ensures !EqualReal(Complex(45.0, 3.0), 45.0, RealEq, RealIsZero)
  {
  }
}
