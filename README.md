# pocomath in Dafny

pocomath is a proof-of-concept JavaScript math library. Every operation is
a typed-function assembled, on first use, from the signatures installed for
it. A `PocomathInstance` keeps three things:
- `_imps`: operation name -> signature -> [dependency list, implementation];
- `_affects`: dependency name -> the set of operations that use it;
- one property per operation. The property is either a lazy stand-in or the
  built typed-function.

Installing signatures invalidates the operation and, through `_affects`,
every operation that depends on it. Reading a stale operation bundles it:
each dependency is resolved by reading its property first.

Around the instance sit:
- the template machinery: signature strings, type extractors, `Returns`
  annotations and the `Tuple<T>` template;
- the generic operations: relational operators, `mod`, `lcm`, the Euclid
  loop of `gcdType`, variadic reductions;
- complex arithmetic over any component type, and its Gaussian-integer
  instance;
- the bigint operations: `sign`, `compare`, floor and rounding quotients,
  `divide`, `sqrt`;
- `factorial` and `choose`.

The model has these modules:

- `Wrappers` (wrappers.dfy): `Option`, `Result` and the JavaScript error kinds.
- `JsValues` (jsvalues.dfy): JavaScript values, `typeof` and truthiness, as the type tests use them.
- `Signatures` (signatures.dfy): `src/core/utils.mjs`.
- `Extractors` (extractors.dfy): `generateTypeExtractor` in `src/core/extractors.mjs`.
- `ReturnsAnnotation` (returns.dfy): `src/core/Returns.mjs`; a function object is a class with a mutable `returns` field.
- `BigIntArith` (bigint.dfy): `src/bigint/*`.
- `Ops` (ops.dfy): `src/ops/factorial.mjs` and `src/ops/choose.mjs`.
- `Generic` (generic.dfy): `gcdType`, `mod`, `lcm`, `reducingOperation` and `multiply` of `src/generic`, over operations given as parameters.
- `BigIntGcd` (intgcd.dfy): the generic `mod`, gcd and lcm at bigint.
- `Relational` (relational.dfy): `src/generic/relational.mjs`.
- `Complex` (complex.dfy): `src/complex/*`, generic in the component type.
- `Gaussian` (gaussian.dfy): `Complex<bigint>`: the rounding quotient, `mod`, gcd, lcm and `associate`.
- `Tuples` (tuple.dfy): `src/tuple/Types/Tuple.mjs` and the tuple `equalTT`/`isZero`.
- `RegistryState` (registry_state.dfy): the bookkeeping shared by both versions of `PocomathInstance`.
- `Registry` (registry.dfy): `src/core/PocomathInstance.mjs`, as the class `Registry.Instance`.
- `LegacyRegistry` (legacy_registry.dfy): the older `PocomathInstance.mjs` at the repository root, as the class `LegacyRegistry.Instance`.

## The instance

Both `Instance` classes hold `_imps`, `_affects` and the properties as
fields, and their methods follow the source's methods one for one. The main
invariant, `Valid`, is preserved by every state-changing method. It says:
- `_affects` holds exactly the edges of the stored signatures;
- every installed operation has a property, and every built operation was
  built from its current signatures and from the current builds of its
  dependencies.

The source walks the dependencies recursively ("assume acyclic for now").
The model asks for a ranking in which an operation ranks below the
operations it depends on. That ranking is what makes invalidation and
bundling terminate.

## Model

| member | source | states |
|---|---|---|
| Signatures.Trim | src/core/utils.mjs:11 | `trim` returns a string with no white space at either end, made only of characters of the input, and empty exactly when the input is all white space |
| Signatures.LeadingSpace | src/core/utils.mjs:11 | the part `trim` cuts from the front is all white space, and the character after it (if any) is not |
| Signatures.TrimMiddle | src/core/utils.mjs:11 | the trimmed string is the contiguous slice of the input that starts right after the leading white space, and only white space follows it |
| Signatures.TrimIdempotent | src/core/utils.mjs:13 | trimming an already trimmed entry changes nothing |
| Signatures.Split | src/core/utils.mjs:13 | `split` at a separator class gives one more piece than there are separators, and no piece holds a separator |
| Signatures.JoinSplit | src/core/utils.mjs:13 | joining the pieces of `split(',')` with ',' gives back the string |
| Signatures.SplitJoin | src/core/utils.mjs:13 | splitting a ','-join of separator-free pieces gives back the pieces in order |
| Signatures.SplitCovers | src/core/utils.mjs:18 | every non-separator character of the string lies in some piece of the split |
| Signatures.SplitHead | src/core/utils.mjs:18 | the first piece of a split runs from the start of the string to its first separator |
| Signatures.SplitTail | src/core/utils.mjs:18 | the later pieces of a split are exactly the separator-free slices that start right after a separator and end at a separator or the end |
| Signatures.SplitPieces | src/core/utils.mjs:18 | a string is a piece of the split exactly when it is a separator-free slice bounded on each side by a separator or an end of the string |
| Signatures.TypeListOfSignature | src/core/utils.mjs:10-14 | an all-white-space signature gives []; otherwise there is one entry per comma plus one, each trimmed and comma-free |
| Signatures.TypeListInOrder | src/core/utils.mjs:13 | entry i is the i-th comma-separated piece of the trimmed signature, trimmed |
| Signatures.TypeListExamples | src/core/utils.mjs:12 | the empty and the blank signature give the empty list |
| Signatures.TypesOfSignature | src/core/utils.mjs:17-19 | the set holds no empty name, and no name contains a non-word character |
| Signatures.TypesOfSignatureRuns | src/core/utils.mjs:18 | a name is in the set exactly when it is a maximal run of word characters of the signature: non-empty, only word characters, and bounded on each side by a non-word character or an end |
| Signatures.TypesOfSignatureExample | src/core/utils.mjs:18 | the types of 'a,b' are exactly {'a', 'b'}: the comma separates |
| Signatures.TypesOfSignatureCover | src/core/utils.mjs:18 | every word character of the signature lies in some returned type name |
| Signatures.TypesOfTemplate | src/core/utils.mjs:18 | the types of 'A<B>' for words A and B are exactly {A, B} |
| Signatures.SubsetOfKeys | src/core/utils.mjs:2-7 | the loop returns true if and only if every element of the set is a key of the object |
| Extractors.Normalize | src/core/extractors.mjs:25-28 | the normalised type (trimmed, a rest parameter's '...' dropped) has no white space at either end and is no longer than the input |
| Extractors.BaseOf | src/core/extractors.mjs:31 | `split('<', 1)[0]` is the longest '<'-free prefix; it is the whole type exactly when there is no '<' |
| Extractors.Extract | src/core/extractors.mjs:22-41 | the top typer exactly when the normalised type is the parameter; failure when there is no '<' or the base is not a known template; an inferring extractor only for a known base |
| Extractors.ExtractTemplate | src/core/extractors.mjs:33-40 | for a known template whose argument's extractor succeeds, the result infers through that template from the argument's extractor |
| Extractors.ExtractFailurePropagates | src/core/extractors.mjs:36 | a failing argument extractor makes the whole extraction fail |
| Extractors.ExtractRender | src/core/extractors.mjs:22-41 | extracting from the type name an extractor renders to gives that extractor back (round trip) |
| Extractors.ExtractUnknownTemplate | src/core/extractors.mjs:32 | a rendered template whose base is not among the templates gives failure |
| Extractors.RenderNormal | src/core/extractors.mjs:25-28 | a rendered type name is left unchanged by the normalisation |
| Extractors.ExtractTupleExample | src/core/extractors.mjs:29-40 | 'Tuple<T>' with parameter T infers through Tuple from the top typer |
| Extractors.ExtractPlainExample | src/core/extractors.mjs:30 | 'bigint' with parameter T has no template type to extract |
| ReturnsAnnotation.ReturnTypeOf | src/core/Returns.mjs:24-31 | 'any' when the function is unannotated, the annotation when it is a string, and the annotation applied to (signature, instance) when it is a function |
| ReturnsAnnotation.ReturnsAsWritten | src/core/Returns.mjs:8-22 | an unannotated function is annotated in place; an annotated one throws a ReferenceError (from `cloneFunction`) and keeps its old annotation |
| ReturnsAnnotation.Returns | src/core/Returns.mjs:18-22 | an unannotated function is annotated in place; an annotated one is left alone and a fresh clone with the same behaviour carries the new annotation |
| ReturnsAnnotation.ReannotateAsWritten | src/core/Returns.mjs:19 | annotating a function twice throws a ReferenceError and leaves the first return type |
| ReturnsAnnotation.Reannotate | src/core/Returns.mjs:19 | with cloning, the original keeps the old return type and the clone reports the new one |
| Relational.RelationalComplements | src/generic/relational.mjs:20-53 | largerEq is the negation of smaller and smallerEq that of larger; largerEq is larger or equal, and smallerEq is smaller or equal when one(y) is not zero |
| Relational.Trichotomy | src/generic/relational.mjs:9-47 | when one(y) is not zero, exactly one of smaller, equal and larger holds |
| Relational.BigIntRelations | src/generic/relational.mjs:9-53 | at bigint (compare and one = 1n) the six relations are =, !=, >, >=, < and <= |
| Relational.LargerExample | src/generic/relational.mjs:20-25 | larger(7n, 3n) holds and larger(3n, 7n) does not |
| Relational.UndefinedRelations | src/generic/relational.mjs:1-13 | equal(undefined, undefined) holds through the generic equal, although isZero(undefined) is false |
| Relational.UnequalDependencyAsWritten | src/generic/relational.mjs:17 | the dependency 'equal(T.T)' names a one-argument signature, whose type list differs in length from unequal's 'T,T' |
| Relational.UnequalDependency | src/generic/relational.mjs:17 | the intended dependency 'equal(T,T)' has the two-entry type list [T, T] |
| BigIntArith.Sign | src/bigint/sign.mjs:3-9 | sign(b) is -1, 0 or 1, sign(b) times b is abs(b), and sign(b) is 0 exactly when b is 0 |
| BigIntArith.SignNegate | src/bigint/sign.mjs:5-7 | sign(-b) = -sign(b) |
| BigIntArith.Compare | src/bigint/compare.mjs:4 | compare(a, b) is the sign of a - b |
| BigIntArith.CompareAntisymmetric | src/bigint/compare.mjs:4 | compare(a, b) = -compare(b, a), and it is 0 exactly when a = b |
| BigIntArith.TruncDiv | src/bigint/quotient.mjs:8 | bigint `/` truncates: the remainder is smaller than the divisor in size and has the sign of the dividend |
| BigIntArith.Quotient | src/bigint/quotient.mjs:4-13 | the quotient by 0 is 0; otherwise the remainder n - qd lies in [0, d) for d > 0 and in (d, 0] for d < 0 |
| BigIntArith.QuotientIsFloor | src/bigint/quotient.ts:9-21 | the quotient is the floor of n/d, as the TypeScript version documents |
| BigIntArith.FloorUnique | src/bigint/quotient.mjs:3 | only one q leaves a remainder in the floor window, so the quotient is determined |
| BigIntArith.QuotientSameSign | src/bigint/quotient.mjs:8 | when n and d have the same sign, the quotient is the truncating division |
| BigIntArith.QuotientExact | src/bigint/quotient.mjs:9-10 | an exact multiple divides back: quotient(kd, d) = k |
| BigIntArith.RoundQuotient | src/bigint/roundquotient.mjs:4-15 | the quotient by 0 is 0; otherwise twice the remainder lies in (-abs(d), abs(d)], so q is the nearest integer to n/d |
| BigIntArith.RoundUnique | src/bigint/roundquotient.mjs:3 | only one q satisfies that window |
| BigIntArith.RoundQuotientExact | src/bigint/roundquotient.mjs:8-13 | roundquotient(kd, d) = k |
| BigIntArith.Divide | src/bigint/divide.mjs:3-12 | in predictable mode, the floor quotient; otherwise division by 0n throws a RangeError, and the result is defined exactly when d divides n, and is then the exact quotient |
| BigIntArith.ExactIffMod | src/bigint/divide.mjs:7-8 | for a truncated quotient, q * d == n holds exactly when d divides n |
| BigIntArith.SqrtWithoutComplex | src/bigint/sqrt.mjs:10-24 | in predictable mode, isqrt(b); otherwise a non-negative root whose square is b, or undefined exactly when b is not a perfect square |
| BigIntArith.SqrtWithComplex | src/bigint/sqrt.mjs:25-36 | undefined stays undefined; a square gives its non-negative root, the negative of a square gives complex(0n, root), and anything else gives undefined |
| BigIntArith.IsqrtUnique | src/bigint/sqrt.mjs:19-20 | the integer square root is unique, so the trial root is determined |
| BigIntArith.NoSquareBetween | src/bigint/sqrt.mjs:20 | a number strictly between two consecutive squares is no square, so a failing trial means there is no root |
| BigIntArith.SqrtWithoutComplexExamples | test/bigint/_all.mjs:45-49 | sqrt(256n) = 16n and sqrt(-17n) is undefined without complex |
| BigIntArith.QuotientExamples | test/bigint/_all.mjs:9-17 | the quotients and rounded quotients of 1..5 by 3, and the divide cases of the bigint tests |
| Ops.Fact | src/ops/factorial.mjs:1-8 | the reference product n! is at least 1 |
| Ops.Factorial | src/ops/factorial.mjs:1-8 | the loop multiplying i = n, n-1, ..., 2 into 1n returns n! |
| Ops.FactMonotone | src/ops/factorial.mjs:4-6 | factorial does not decrease, and increases strictly from 1 on |
| Ops.BinomFactorials | src/ops/choose.mjs:11 | k! (n-k)! C(n, k) = n!, for Pascal's binomial C |
| Ops.Choose | src/ops/choose.mjs:9-11 | choose at bigint is never negative |
| Ops.ChooseIsBinomial | src/ops/choose.mjs:9-11 | for 0 <= k <= n the truncating quotient of factorials is exactly the binomial coefficient |
| Ops.ChooseNumber | src/ops/choose.mjs:7-8 | choose at NumInt is the bigint result as a number |
| Ops.FactorialExamples | test/_pocomath.mjs:143-145 | factorial(4) = 24n and factorial(7n) = 5040n |
| Ops.ChooseExamples | test/_pocomath.mjs:148-150 | choose(6, 3) = 20 and choose(21n, 2n) = 210n |
| Generic.GcdLoop | src/generic/gcdType.mjs:6-13 | the while loop returns the reference Euclid gcd, for any mod that shrinks a non-zero divisor |
| Generic.EuclidCommonDivisors | src/generic/gcdType.mjs:6-13 | d divides the loop's result if and only if d divides both arguments, when mod keeps common divisors |
| Generic.EuclidDividesBoth | src/generic/gcdType.mjs:6-13 | the loop's result divides both arguments |
| Generic.Reducing | src/generic/reducingOperation.mjs:3-12 | no argument matches no signature (TypeError); one argument is returned as it is |
| Generic.ReducingIsFold | src/generic/reducingOperation.mjs:9-11 | two or more arguments are folded left with self, through the undefined signatures |
| Generic.ReducingDefinedness | src/generic/reducingOperation.mjs:4-11 | an undefined argument anywhere makes the result undefined; otherwise the result is the left fold of the values |
| Generic.FoldUndefined | src/generic/reducingOperation.mjs:5-7 | once undefined is met, the fold stays undefined |
| Generic.FoldDefined | src/generic/reducingOperation.mjs:9-11 | with defined arguments, the fold is the plain left fold |
| Generic.MultiplyFold | src/generic/multiply.mjs:3-11 | multiply throws a TypeError for no arguments or a single defined one (it has no 'any' signature), and otherwise agrees with the reducing operation |
| Generic.ReducingAddExample | test/_pocomath.mjs:118 | add(15n, 25n, 35n) = 75n, and an undefined argument gives undefined |
| BigIntGcd.IntMod | src/generic/mod.mjs:9 | at bigint, a - m * quotient(a, m) lies in [0, m) for m > 0 and in (m, 0] for m < 0, and is a for m = 0 |
| BigIntGcd.IntModIsRemainder | src/generic/mod.mjs:9 | the bigint mod is exactly a - m * quotient(a, m) |
| BigIntGcd.IntModDecreasing | src/generic/mod.mjs:9 | the bigint mod shrinks the absolute value of a non-zero divisor, so the Euclid loop at bigint ends |
| BigIntGcd.IntModKeepsDivisors | src/generic/mod.mjs:9 | the common divisors of (a, b) and of (b, a mod b) are the same |
| BigIntGcd.IntGcd | src/generic/gcdType.mjs:6-13 | at bigint the result divides both arguments, and every common divisor divides it |
| BigIntGcd.IntGcdLoop | src/generic/gcdType.mjs:7-12 | the loop at bigint returns the gcd, which divides both arguments |
| BigIntGcd.IntGcdStep | src/generic/gcdType.mjs:7-11 | one step of the loop keeps the gcd |
| BigIntGcd.IntGcdZero | src/generic/gcdType.mjs:7 | gcd(a, 0n) = a |
| BigIntGcd.IntLcmCommonMultiple | src/generic/lcm.mjs:10 | lcm(a, b) = quotient(a, gcd(a, b)) * b is a multiple of a and of b |
| BigIntGcd.IntLcmZero | src/generic/lcm.mjs:10 | lcm with a zero argument is 0n |
| BigIntGcd.GcdLcmExamples | test/bigint/_all.mjs:55-64 | gcd(105n, 70n) = 35n, lcm(105n, 70n) = 210n, lcm(15n, 60n) = 60n and lcm(0n, 0n) = 0n |
| BigIntGcd.LcmFoldExample | src/generic/lcm.mjs:12 | lcm is also a reducing operation: lcm(2n, 3n, 4n) = 12n |
| Complex.IsComplex | src/complex/Types/Complex.mjs:5-7 | the Complex test holds exactly for objects with both 're' and 'im' keys |
| Complex.NumComplex | src/complex/Types/Complex.mjs:20-22 | Complex with both components numbers |
| Complex.ConversionsAreComplex | src/complex/Types/Complex.mjs:12-15 | the conversions from number and from bigint produce complexes with the value as real part and a zero of the same type as imaginary part |
| Complex.ComplexOf1 | src/complex/complex.mjs:9-14 | complex(x): undefined stays undefined, a complex is returned unchanged, a number x becomes {re: x, im: 0} and a bigint x becomes {re: x, im: 0n}, both equal to complex(x, 0); every other value throws, and nothing else does |
| Complex.ComplexOf2 | src/complex/complex.mjs:10-12 | complex(x, y) is undefined exactly when an argument is, and otherwise {re: x, im: y} |
| Complex.ComplexConstructorExamples | test/_pocomath.mjs:103-104 | complex(2, 3) = {re: 2, im: 3}, and complex(2) = complex(2, 0) for bigints and numbers |
| Complex.NegateConjugateInvolutions | src/complex/conjugate.mjs:3-7 | negate and conjugate undo themselves whenever the component negation does |
| Complex.MultiplyConjAgrees | src/complex/multiply.ts:19-23 | the conjugating product equals the plain product of multiply.mjs when conjugation is the identity on components |
| Complex.EqualRealSymmetric | src/complex/equalTT.mjs:16-24 | equalTT(z, x) and equalTT(x, z) agree |
| Complex.IsZeroNested | src/complex/isZero.mjs:5-6 | a complex of complexes is zero exactly when all four components are |
| Complex.QuaternionProduct | test/complex/_all.mjs:76-87 | quaternion sum and product with the conjugating multiplication |
| Complex.EqualityExamples | test/complex/_all.mjs:41-45 | the equality cases of the complex tests |
| Gaussian.GAbsquare | src/complex/absquare.mjs:3-7 | absquare is non-negative and zero only for zero |
| Gaussian.GIsZeroEqual | src/complex/equalTT.mjs:3-6 | isZero and equalTT at Complex<bigint> are equality with zero and equality |
| Gaussian.GNegConjProperties | src/complex/conjugate.mjs:3-7 | negate and conjugate are involutions, conjugate fixes exactly the real values, and neither changes absquare |
| Gaussian.GMulParts | src/complex/multiply.mjs:10-12 | the product is (w.re z.re - w.im z.im) + (w.re z.im + w.im z.re) i |
| Gaussian.GMulByI | src/complex/associate.mjs:14 | multiplying by i rotates by a quarter turn, and twice negates |
| Gaussian.GMulCommutes | src/complex/multiply.mjs:10-12 | the product commutes |
| Gaussian.GMulAssociates | src/complex/multiply.mjs:10-12 | the product associates |
| Gaussian.GMulDistributes | src/complex/multiply.mjs:10-12 | the product distributes over subtraction and addition |
| Gaussian.GAbsquareMultiplicative | src/complex/absquare.mjs:7 | absquare(wz) = absquare(w) absquare(z) |
| Gaussian.GAddNegExamples | test/_pocomath.mjs:126 | add(2n, complex(0n, 3n)) = complex(2n, 3n) |
| Gaussian.RemainderTimesConj | src/complex/roundquotient.mjs:13-15 | (n - dq) conj(d) = n conj(d) - absquare(d) q, which makes each rounded component a nearest quotient |
| Gaussian.RemainderBound | src/generic/mod.mjs:9 | with the rounding quotient, the remainder's absquare is at most half the modulus' |
| Gaussian.GMod | src/generic/mod.mjs:9 | mod by zero returns a unchanged; otherwise twice the remainder's absquare is at most the modulus' |
| Gaussian.GRoundQuotientExact | src/complex/roundquotient.mjs:11-16 | an exact multiple divides back: roundquotient(dq, d) = q |
| Gaussian.GRoundQuotientAt | src/complex/roundquotient.mjs:13-15 | a q whose components are within half a norm of n conj(d) is the quotient, and mod is n - dq |
| Gaussian.GModDecreasing | src/generic/gcdType.mjs:7-11 | the Gaussian mod shrinks the norm of a non-zero divisor, so the Euclid loop at Complex ends |
| Gaussian.GModKeepsDivisors | src/generic/gcdType.mjs:7-11 | the common divisors of (a, b) and of (b, a mod b) are the same |
| Gaussian.GModDivisor | src/generic/mod.mjs:9 | d divides x and y if and only if it divides y and x mod y |
| Gaussian.GDividesSumDifference | src/generic/mod.mjs:9 | a common divisor of x and y divides x - y and x + y |
| Gaussian.GDividesMultiple | src/generic/mod.mjs:9 | a divisor of y divides y q |
| Gaussian.GDividesNeg | src/complex/gcd.mjs:11 | negating either side keeps divisibility, so the normalised gcd still divides |
| Gaussian.GcdRawStep | src/generic/gcdType.mjs:7-11 | one loop step keeps the raw gcd |
| Gaussian.GcdRawZero | src/generic/gcdType.mjs:7 | gcdComplexRaw(a, 0) = a |
| Gaussian.GGcd | src/complex/gcd.mjs:8-12 | the gcd has a non-negative real part, and is the raw gcd or its negation |
| Gaussian.GGcdIsGcd | src/complex/gcd.mjs:5-13 | the gcd divides both arguments, and every common divisor divides it |
| Gaussian.GcdExample | test/complex/_all.mjs:53-56 | gcd(53n + 56n i, 47n - 13n i) = 4n + 5n i |
| Gaussian.GcdFirstStep | src/complex/gcd.mjs:10-11 | gcd(2 + i, 1 + i) = -i: the raw result i has a zero real part and is negated |
| Gaussian.LcmFirstStep | src/generic/lcm.mjs:10 | lcm(2 + i, 1 + i) = -3 + i |
| Gaussian.LcmSecondStep | src/generic/lcm.mjs:10 | lcm(-3 + i, i) = 3 - i |
| Gaussian.LcmFoldExample | test/_pocomath.mjs:155-156 | lcm(2n + i, 1n + i, i) through the reducing fold is 3 - i |
| Gaussian.AssociateIsUnitMultiple | src/complex/associate.mjs:3-16 | associate(w, z) holds if and only if w is z times one of the four units |
| Gaussian.AssociateSymmetric | src/complex/associate.mjs:12-16 | associate is symmetric |
| Gaussian.AssociateExample | test/_pocomath.mjs:157 | 3 - i is an associate of 1 + 3i, and 3 + i is not |
| Tuples.IsTuple | src/tuple/Types/Tuple.mjs:7 | the base Tuple test holds exactly for objects with an array 'elts' |
| Tuples.TupleValue | src/tuple/Types/Tuple.mjs:7 | a tuple built from elements passes the test and holds those elements |
| Tuples.TupleOfIndexwise | src/tuple/Types/Tuple.mjs:19 | Tuple<T>'s test holds exactly when every element passes T's test, so for the empty tuple |
| Tuples.FromTupleU | src/tuple/Types/Tuple.mjs:24 | the conversion Tuple<U> -> Tuple<T> converts each element and keeps the length |
| Tuples.FromT | src/tuple/Types/Tuple.mjs:26 | the promotion T -> Tuple<T> is the singleton tuple |
| Tuples.FromU | src/tuple/Types/Tuple.mjs:30 | the promotion U -> Tuple<T> is the singleton of the converted element |
| Tuples.FromConversionsAgree | src/tuple/Types/Tuple.mjs:24-30 | promoting then converting equals the direct U conversion |
| Tuples.MapElements | src/tuple/Types/Tuple.mjs:35 | `map` keeps the length and applies the operation at each index |
| Tuples.MapElementsAppend | src/tuple/Types/Tuple.mjs:35 | `map` distributes over concatenation |
| Tuples.MapElementsCompose | src/tuple/Types/Tuple.mjs:24 | mapping twice is mapping the composition |
| Tuples.PromoteBinaryUnary | src/tuple/Types/Tuple.mjs:38-54 | the loop returns the reference zip with tail |
| Tuples.ZipWithTailIndex | src/tuple/Types/Tuple.mjs:39-53 | the result is as long as the longer tuple; index k holds the binary operation where both tuples have an element, and the unary one on the leftover tail |
| Tuples.ZipWithTailSameLength | src/tuple/Types/Tuple.mjs:46-49 | for tuples of equal length, the unary operation is never used |
| Tuples.PromoteBinary | src/tuple/Types/Tuple.mjs:56-65 | the loop returns the reference padded zip |
| Tuples.ZipPaddedIndex | src/tuple/Types/Tuple.mjs:58-62 | the result is as long as the longer tuple, and index k applies the operation to the two elements, undefined past an end |
| Tuples.Zip | src/tuple/Types/Tuple.mjs:73-75 | the zip of two tuples of equal length keeps that length |
| Tuples.ZipIndex | src/tuple/Types/Tuple.mjs:73-75 | index k of the zip is the operation on the two elements at k |
| Tuples.ZipWithTailIsZip | src/tuple/Types/Tuple.mjs:39-53 | for tuples of equal length, the promoteBinaryUnary result is the strict zip |
| Tuples.PromoteBinaryStrict | src/tuple/Types/Tuple.mjs:67-78 | different lengths throw RangeError('Tuple length mismatch'); otherwise the result is the index-wise zip |
| Tuples.EqualTT | src/tuple/equalTT.mjs:4-10 | the loop returns true if and only if the lengths agree and the elements are pairwise equal |
| Tuples.ElementwiseEquivalence | src/tuple/equalTT.mjs:4-10 | for a reflexive and symmetric element equality, tuple equality is reflexive and symmetric |
| Tuples.ElementwiseLengths | src/tuple/equalTT.mjs:5 | tuples of different lengths are never equal, and the empty tuples are |
| Tuples.AllZeroAppend | src/tuple/isZero.mjs:4 | the empty tuple is zero, and a concatenation is zero exactly when both parts are |
| Tuples.AllZeroIsEqualZero | src/tuple/isZero.mjs:4 | a tuple is zero exactly when it equals the zero tuple of its length |
| Tuples.IsZeroExamples | test/tuple/_native.mjs:20-24 | the isZero cases of the tuple tests |
| Tuples.AddExample | test/tuple/_native.mjs:39-41 | add((3.25, 4.5, 5), (3, 3)) = (6.25, 7.5, 5) |
| Tuples.SubtractMismatchExample | test/tuple/_native.mjs:60-62 | subtract((5, 6), (7)) throws a RangeError |
| RegistryState.DepName | src/core/PocomathInstance.mjs:77 | `dep.split('(', 1)[0]` has no '(' and is the whole dependency or the part before its first '(' |
| RegistryState.DepNameWhole | src/core/PocomathInstance.mjs:77 | a dependency without '(' is its own name |
| RegistryState.AddDependents | src/core/PocomathInstance.mjs:76-83 | the loop over one signature's dependencies returns the reference edge update |
| RegistryState.AddEdgesSpec | src/core/PocomathInstance.mjs:76-83 | after the loop, `_affects` has the old keys plus the dependency names other than 'self', and each of those has the operation added to its set |
| RegistryState.EdgeSourcesStore | src/core/PocomathInstance.mjs:75 | storing a new signature adds its dependency names to the operation's sources and changes no other operation's |
| RegistryState.StoreStepKeepsMatch | src/core/PocomathInstance.mjs:75-83 | storing one signature and adding its edges keeps `_affects` exactly the edges of the stored signatures |
| RegistryState.StoredEdgesSound | src/core/PocomathInstance.mjs:79-82 | every recorded edge belongs to a stored signature |
| RegistryState.StoredEdgesComplete | src/core/PocomathInstance.mjs:79-82 | every edge of a stored signature is recorded |
| RegistryState.StoreFailure | src/core/PocomathInstance.mjs:69-85 | with distinct signatures, the loop throws exactly when some signature is rejected |
| RegistryState.StoreKeepsOld | src/core/PocomathInstance.mjs:70-71 | everything stored before is still stored, unchanged |
| RegistryState.StoreFrom | src/core/PocomathInstance.mjs:75 | every newly stored signature is one of the given ones, with its implementation |
| RegistryState.StoreNoRollback | src/core/PocomathInstance.mjs:75 | a signature stored before a later throw stays stored |
| RegistryState.StoreKeepsMatch | src/core/PocomathInstance.mjs:69-85 | the whole loop keeps `_affects` exactly the edges of the stored signatures, also when it throws partway |
| RegistryState.StoreOutcome | src/core/PocomathInstance.mjs:69-85 | the loop throws exactly when some signature conflicts, keeps everything stored before, and stores every given signature when it does not throw |
| RegistryState.StoreKeepsRanked | src/core/PocomathInstance.mjs:69-85 | storing signatures whose dependencies rank above the operation keeps the dependencies acyclic |
| RegistryState.MatchesRanked | src/core/PocomathInstance.mjs:101-105 | along `_affects` the rank decreases, and every user recorded there is installed |
| RegistryState.ReachClosed | src/core/PocomathInstance.mjs:101-105 | what `_invalidate` reaches is closed under `_affects`, so no user of a reached operation is missed |
| RegistryState.ReachInImps | src/core/PocomathInstance.mjs:98-105 | everything reached other than the name itself is an installed operation |
| RegistryState.ReachedAdd | src/core/PocomathInstance.mjs:102-104 | invalidating one more ancestor reaches what it reaches, on top |
| RegistryState.ReachUser | src/core/PocomathInstance.mjs:101-105 | invalidating an operation reaches everything invalidating one of its users reaches |
| RegistryState.ReachMono | src/core/PocomathInstance.mjs:101-105 | with more `_affects` edges, invalidation reaches more |
| RegistryState.ReachAddInto | src/core/PocomathInstance.mjs:76-83 | after edges into o are added, invalidating n reaches nothing beyond what n and o reached before |
| RegistryState.ReachedAddInto | src/core/PocomathInstance.mjs:76-105 | once o is invalidated too, the new edges into o add nothing to what the invalidated operations reach |
| RegistryState.StaleAfterInstall | src/core/PocomathInstance.mjs:66-105 | invalidating o after N and then adding edges into o leaves stale exactly what N and o reach in the new `_affects` |
| RegistryState.MatchesGrowth | src/core/PocomathInstance.mjs:76-83 | when only o gains signatures and `_affects` stays exact, `_affects` loses no edge and gains only edges into o |
| RegistryState.InvalidateStep | src/core/PocomathInstance.mjs:102-104 | one more ancestor in the loop makes exactly its reach stale |
| RegistryState.StaleAt | src/core/PocomathInstance.mjs:94-97 | invalidated properties become stale and the others stay as they were |
| RegistryState.StaleAtTwice | src/core/PocomathInstance.mjs:92-106 | invalidating two sets one after the other is invalidating their union |
| RegistryState.TouchKeepsMatch | src/core/PocomathInstance.mjs:98-100 | giving the operation an empty implementation map keeps `_affects` exact and the ranking, and adds exactly that name |
| RegistryState.MatchedUserInstalled | src/core/PocomathInstance.mjs:98-100 | an operation recorded as a user already has an implementation map |
| RegistryState.InvalidateKeepsSound | src/core/PocomathInstance.mjs:92-106 | after invalidation, no built operation is out of date |
| RegistryState.ResolvedIsSource | src/core/PocomathInstance.mjs:126-136 | every reference a built entry holds is a dependency of its signature |
| RegistryState.StoreKeepsValid | src/core/PocomathInstance.mjs:69-85 | storing into a stale operation keeps `_affects` exact, the ranking, and the cache sound |
| RegistryState.InstallKeepsValid | src/core/PocomathInstance.mjs:66-85 | invalidating, then storing, keeps `_affects` exact, the ranking, and the cache sound |
| RegistryState.SettledKeepsRefs | src/core/PocomathInstance.mjs:134 | references that were current stay current while only stale operations get built |
| RegistryState.SettledKeepsSound | src/core/PocomathInstance.mjs:147-148 | building stale operations correctly keeps the cache sound |
| RegistryState.BuildKeepsSound | src/core/PocomathInstance.mjs:147-148 | storing a correctly built operation keeps the cache sound |
| RegistryState.RestoreKeepsSound | src/core/PocomathInstance.mjs:75 | changing the signatures of a stale operation keeps the cache sound |
| Registry.Instance.constructor | src/core/PocomathInstance.mjs:11-19 | nothing installed, no edges, no properties, and only the 'string' type known |
| Registry.Instance.Install | src/core/PocomathInstance.mjs:51-106 | (InstallOutcome) install stops at the first operation that throws: the earlier ones are accepted and installed, that one is not accepted (a refused name throws its SyntaxError and keeps its signatures), later operations and every operation not named keep their signatures, nothing stored is lost, every signature an operation gained is one given for it in ops, with its implementation, and the stale properties are exactly those the invalidated operations reach through the new `_affects` |
| Registry.Instance.InstallStep | src/core/PocomathInstance.mjs:52-86 | one `_installOp` call of the loop: a refused name throws and changes nothing; otherwise only this operation gets new signatures, keeping its old ones and gaining only signatures given for it, with their implementations; what it reached through `_affects` becomes stale, and `_affects` gains only edges into it; it succeeds exactly when the operation is accepted |
| Registry.Instance.InstallOp | src/core/PocomathInstance.mjs:56-86 | a name with a leading '_' or a reserved name throws the matching SyntaxError and changes nothing; otherwise the operation is invalidated and its signatures stored |
| Registry.Instance.Reinstall | src/core/PocomathInstance.mjs:66-85 | the new state is the old one invalidated from name, with the signature loop's result stored |
| Registry.Instance.StoreAll | src/core/PocomathInstance.mjs:69-85 | the loop writes through to `_imps[name]` and `_affects` the result of the reference signature loop |
| Registry.Instance.Invalidate | src/core/PocomathInstance.mjs:92-106 | the operation gets an implementation map, and exactly what it reaches through `_affects` becomes stale |
| Registry.Instance.InvalidateUsers | src/core/PocomathInstance.mjs:101-105 | the loop over the users makes exactly what they reach stale |
| Registry.Instance.EnsureTypes | src/core/PocomathInstance.mjs:156-182 | every declared type is added, and the new conversions are added: those between declared types with at least one end new |
| Registry.Instance.ScanTypes | src/core/PocomathInstance.mjs:162-175 | the loop collects the declared types, those not yet known, and every listed conversion |
| Registry.Instance.ConversionsTo | src/core/PocomathInstance.mjs:164-168 | a conversion to the type from every key of its specification but 'test' |
| Registry.NewConversionsSpec | src/core/PocomathInstance.mjs:177-180 | a conversion is added if and only if both ends are declared, its key is not 'test', and one end is new |
| Registry.NewConversionsFiltered | src/core/PocomathInstance.mjs:177-180 | the filter over the collected conversions is that set |
| Registry.ConversionsAddedOnce | src/core/PocomathInstance.mjs:169-181 | no conversion is added twice, and every added conversion joins known types |
| Registry.EnsureTypesIdempotent | src/core/PocomathInstance.mjs:169-181 | once every declared type is known, `_ensureTypes` adds no conversion |
| Registry.Instance.Lookup | src/core/PocomathInstance.mjs:134 | reading this[dep]: nothing for a name that is not an operation, the built typed-function when there is one, and otherwise what bundling returns; the reference read is current |
| Registry.Instance.Bundle | src/core/PocomathInstance.mjs:112-150 | no implementations throws a SyntaxError and changes nothing; otherwise types are ensured; success builds the operation from its current signatures, failure leaves it stale, and a signature-specific dependency always fails |
| Registry.Instance.BuildTable | src/core/PocomathInstance.mjs:119-146 | the loop makes one entry per signature, each fitting its signature, or fails when some signature cannot be built |
| Registry.Instance.AddEntry | src/core/PocomathInstance.mjs:120-145 | one signature's entry added to the table |
| Registry.Instance.BuildEntry | src/core/PocomathInstance.mjs:120-145 | the function itself for an empty dependency list; otherwise imp(refs) over current references, self-referring when 'self' is listed |
| Registry.Instance.ResolveDeps | src/core/PocomathInstance.mjs:124-136 | refs holds exactly the dependencies other than 'self', each current, and the flag is whether 'self' is listed; a dependency containing '(' throws |
| Registry.Instance.AddRef | src/core/PocomathInstance.mjs:134 | refs[dep] = this[dep] adds dep, with a current reference |
| Registry.InstallOpOutcome | src/core/PocomathInstance.mjs:56-86 | one operation's store succeeds exactly when it is accepted; other operations keep their signatures; nothing built is rebuilt; and what was installed stays installed |
| Registry.InstallOpEffect | src/core/PocomathInstance.mjs:66-83 | storing one accepted-name operation changes no other operation's signatures, gives it only signatures from its own list, and adds to `_affects` only edges into that operation, losing none |
| Registry.AddedFromStep | src/core/PocomathInstance.mjs:70-73 | a loop turn that stores signatures only for its own operation keeps every operation's gained signatures among those given for it |
| Registry.StoreEdgeSources | src/core/PocomathInstance.mjs:67-83 | when only one operation gains signatures, only that operation can gain dependencies |
| Registry.InstallAdvance | src/core/PocomathInstance.mjs:51-53 | an accepted turn of the install loop extends the installed prefix by one operation, and the stale set by what it reaches |
| Registry.InstallStopped | src/core/PocomathInstance.mjs:51-53 | a turn that throws ends install with the earlier operations installed, this one not accepted and the later ones untouched |
| Registry.InstallCompleted | src/core/PocomathInstance.mjs:51-53 | when no turn throws, every operation is accepted and installed |
| Registry.InstallStart | src/core/PocomathInstance.mjs:51-53 | before the first turn nothing is installed and nothing is stale |
| Registry.DependencyRanks | src/core/PocomathInstance.mjs:134 | a dependency read while bundling ranks above the operation, so the recursion ends |
| Registry.FinishBundle | src/core/PocomathInstance.mjs:147-149 | storing the typed-function built from a complete table gives a well-built operation and keeps the cache sound |
| LegacyRegistry.Instance.constructor | PocomathInstance.mjs:5-9 | nothing installed, no edges, no properties |
| LegacyRegistry.Instance.Install | PocomathInstance.mjs:34-78 | (LegacyOutcome) install stops at the first operation that throws: the earlier ones are accepted and installed, that one is not accepted, later operations and every operation not named keep their signatures, nothing stored is lost, every signature an operation gained is one given for it in ops, with its implementation, and the stale properties are exactly those the invalidated operations, the one that threw included, reach through the new `_affects` |
| LegacyRegistry.Instance.InstallStep | PocomathInstance.mjs:35-60 | one `_installOp` call: only this operation gets new signatures, keeping its old ones and gaining only signatures given for it, with their implementations; what it reached through `_affects` becomes stale, and `_affects` gains only edges into it; it succeeds exactly when the operation is accepted |
| LegacyRegistry.Instance.InstallOp | PocomathInstance.mjs:39-60 | no name checks; invalidate, then store with the older loop, in which a new signature without a dependency list throws a TypeError after being stored |
| LegacyRegistry.Instance.StoreAll | PocomathInstance.mjs:43-59 | the loop writes through the result of the older signature loop |
| LegacyRegistry.Instance.Invalidate | PocomathInstance.mjs:66-79 | the operation gets an implementation map, and exactly what it reaches becomes stale |
| LegacyRegistry.Instance.InvalidateUsers | PocomathInstance.mjs:74-78 | the loop over the users makes exactly what they reach stale |
| LegacyRegistry.Instance.EnsureBundle | PocomathInstance.mjs:128-132 | a built operation is returned as it is; a name that is not an operation throws "No implementations"; success leaves a well-built operation |
| LegacyRegistry.Instance.Bundle | PocomathInstance.mjs:85-122 | no implementations throws a SyntaxError and changes nothing; success builds the operation from its current signatures; a signature-specific dependency always fails |
| LegacyRegistry.Instance.BuildTable | PocomathInstance.mjs:91-118 | one fitting entry per signature, or failure when a signature cannot be built |
| LegacyRegistry.Instance.AddEntry | PocomathInstance.mjs:92-117 | one signature's entry added to the table |
| LegacyRegistry.Instance.BuildEntry | PocomathInstance.mjs:92-117 | the function itself for an empty dependency list, otherwise imp(refs) over current references |
| LegacyRegistry.Instance.ResolveDeps | PocomathInstance.mjs:96-108 | refs holds exactly the dependencies other than 'self', each current; a dependency containing '(' throws |
| LegacyRegistry.Instance.AddRef | PocomathInstance.mjs:106 | refs[dep] = this._ensureBundle(dep): a built operation |
| LegacyRegistry.StrictStoreOutcome | PocomathInstance.mjs:43-59 | the older loop throws exactly when some signature conflicts or a new one lacks a dependency list, keeps what was stored, and stores everything when it does not throw |
| LegacyRegistry.LegacyInstallOpOutcome | PocomathInstance.mjs:39-60 | one operation's store succeeds exactly when it is accepted by the older loop; other operations keep their signatures, and what was installed stays installed |
| LegacyRegistry.LegacyInstallOpEffect | PocomathInstance.mjs:39-57 | storing one operation changes no other operation's signatures, gives it only signatures from its own list, and adds to `_affects` only edges into that operation, losing none |
| LegacyRegistry.LegacyAdvance | PocomathInstance.mjs:34-36 | an accepted turn of the install loop extends the installed prefix by one operation, and the stale set by what it reaches |
| LegacyRegistry.LegacyStopped | PocomathInstance.mjs:34-36 | a turn that throws ends install with the earlier operations installed, this one invalidated but not accepted, and the later ones untouched |
| LegacyRegistry.LegacyCompleted | PocomathInstance.mjs:34-36 | when no turn throws, every operation is accepted and installed |
| LegacyRegistry.LegacyStart | PocomathInstance.mjs:34-36 | before the first turn nothing is installed and nothing is stale |

## Left out

- The typed-function library is not modelled. A built operation is a record of the signatures and references it was built from; dispatch, conversion order and `referToSelf` are not captured.
- A type's `test` function and conversion functions are not modelled: a type specification is its list of keys, and `_ensureTypes` records (from, to) pairs.
- The `Proxy` of `dependencyExtractor` (src/core/extractors.mjs:5-12) is not modelled, because it only records property reads.
- Function identity (`===` on implementation pairs) is a code number in the model.
- Floating point: numbers are Dafny reals. NaN, infinities and rounding are not captured. Quaternion examples use exact decimals.
- `bigint-isqrt` is a parameter, required to be the integer square root.
- `config.predictable` is a boolean parameter.
- `Returns` annotations on implementations such as `choose`, `isZero` and `mod` are not modelled as objects, except in `ReturnsAnnotation` itself.
- Signature order within one operation is not modelled: an operation's signatures are a map, while the install loop walks them in the given order.
- Circular dependencies: the source assumes the dependencies are acyclic, and the model requires a ranking that witnesses this. A cycle would recurse without end in the source.
- Operation names that clash with instance members are not modelled as clashes. The core version (src/core/PocomathInstance.mjs:57-65) refuses `install` and every name starting with `_`. An operation named `name` would still overwrite the instance's `name` field when `_invalidate` assigns `this[name]`.
- LegacyRegistry.Instance.Install: the older version (PocomathInstance.mjs:39-64) refuses no names, and the model installs `install`, `_imps` or `_affects` as ordinary operations. In the source, the assignment `this[name] = function () {...}` (PocomathInstance.mjs:68) then overwrites the instance's own `install` method or its tables, and the model does not capture that overwrite.
- Names that collide with keys of `Object.prototype` are not modelled. JavaScript's `in` also finds inherited keys, so in the source a signature named `constructor` is reported as a conflicting definition (`signature in opImps`, src/core/PocomathInstance.mjs:70). A dependency named `toString` finds `Object.prototype.toString` (`depname in this._affects`, src/core/PocomathInstance.mjs:79) and throws a TypeError instead of creating the set. The model treats every name as an own key.
- Registry.Instance.Bundle: does not state that bundling succeeds when every signature is buildable and every dependency bundles, because success depends on the typed-function library (for example, conflicting signatures).
- LegacyRegistry.Instance.Bundle: does not state when bundling succeeds either, for the same reason: success depends on the typed-function library.
- JavaScript engine messages (for example, iterating `undefined`) are paraphrased in the error values.
- A dependency that names no operation reads as `undefined` in the core version. The model records it as a `Missing` reference.
- Tuple inference (`infer`, src/tuple/Types/Tuple.mjs:15) and `joinTypes` are not modelled, because they need the typed-function type universe.
- The complex operations on native numbers (sqrt, cbrt, arg, polynomial roots) are not part of this model.

## Findings

| source | as written | input that shows it | evidently intended | confidence | as-written member | corrected member |
|---|---|---|---|---|---|---|
| src/core/Returns.mjs:12 | `cloneFunction` assigns the undefined variable `body`, so annotating an already annotated function throws a ReferenceError | `Returns('bigint', Returns('number', f))` | record `behavior` and return a clone carrying the new annotation | high (not executed) | ReturnsAnnotation.ReturnsAsWritten | ReturnsAnnotation.Returns |
| src/generic/relational.mjs:17 | `unequal` asks for the dependency 'equal(T.T)', whose signature 'T.T' is one type, not two | the type list of 'T.T' is ['T.T'], while 'T,T' gives ['T', 'T'] | 'equal(T,T)' | medium (not executed) | Relational.UnequalDependencyAsWritten | Relational.UnequalDependency |
