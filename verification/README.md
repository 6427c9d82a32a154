# hashira.js in Dafny

`hashira.js` recovers the secret of a Shamir-style threshold scheme. Each
share is a point (x, y) whose y is written as a digit string in some base.
The program decodes every share, orders the points by x and keeps the
first k. It then evaluates the Lagrange interpolant of those k points at
x = 0 in exact rational arithmetic, and returns the result if it is an
integer.

The model follows the program's layers, one module each:

- `Results`: the `Result` type and the three errors the program throws. These are division by zero, an invalid digit, and a non-integer result.
- `Integers`: `absoluteValue` and Euclid's `greatestCommonDivisor` on unbounded integers.
- `Rationals`: the `RationalNumber` class as an immutable datatype. Its constructor (`normalize`), `add` and `multiply` are functions. The ghost `Value` gives the real number a rational denotes.
- `Radix`: `convertStringToBigInt`, its Horner value and the round trip with the canonical base-b spelling. It also holds the corrected decoder described under Findings.
- `Polynomials` and `Lagrange`: the Lagrange sum as a reference definition over exact reals. They prove it exact: through k points with distinct x on an integer polynomial with at most k coefficients, the sum at t equals the polynomial at t.
- `Engine`: `computeConstantTerm`, covering decoding, sorting, selection, the two Lagrange loops and the final reduction, plus the source's first sample input. On ASCII input it decodes shares exactly as the source does. A second entry point, `ComputeConstantTermStrict`, adds the alphabet check described under Findings.

BigInt is modelled by Dafny's unbounded `int`. JavaScript's `%` and `/` on
BigInt truncate toward zero, while Dafny's are Euclidean. They agree on the
source's uses:

- In the gcd loop (hashira.js:8) `%` is an ordinary remainder, but both operands are non-negative after `absoluteValue`.
- In `normalize` and the final reduction the division is exact.
- hashira.js:110 only tests whether the remainder is zero, which is the same under both conventions.

## Model

| member | source | states |
|---|---|---|
| Integers.Abs | hashira.js:1 | the result is n or -n and is never negative |
| Integers.GreatestCommonDivisor | hashira.js:3-12 | Euclid's loop returns a non-negative common divisor of both arguments that every common divisor divides; it is 0 only when both arguments are 0 |
| Integers.GcdCharacterisation | hashira.js:6-11 | the recursive Euclid gcd of two naturals divides both and is divisible by every common divisor |
| Integers.GcdZeroLeft | hashira.js:6-11 | gcd(0, d) = d, which is why a zero numerator normalises to 0/1 |
| Integers.GcdOne | hashira.js:6-11 | gcd(n, 1) = 1 |
| Rationals.Normalize | hashira.js:15-32 | fails with division by zero exactly when the denominator is 0; otherwise the result has a positive denominator coprime to its numerator, satisfies new.num * old.den == old.num * new.den, and denotes old.num / old.den |
| Rationals.NormalizeKeepsNormal | hashira.js:21-32 | normalising an already normal rational leaves it unchanged |
| Rationals.NormalizeZero | hashira.js:21-32 | 0/d normalises to 0/1 for every non-zero d |
| Rationals.Add | hashira.js:34-39 | the early-reduced cross-multiplication gives a normal rational whose value is the sum of the operands' values |
| Rationals.AddZero | hashira.js:34-39 | adding 0/1 on either side returns a normal rational unchanged |
| Rationals.Multiply | hashira.js:41-45 | the result is normal and its value is the product of the operands' values |
| Rationals.MultiplyOne | hashira.js:41-45 | multiplying by 1/1 on either side returns a normal rational unchanged |
| Radix.ConvertStringToBigInt | hashira.js:48-64 | succeeds exactly when every character's value, after lower-casing, lies in [0, radix); otherwise fails with an invalid digit; on success the result is the non-negative Horner value of the digit values |
| Radix.LowerCase | hashira.js:50 | `Radix.ToLower` is ASCII lower-casing: an upper-case letter becomes the lower-case letter at the same alphabet position, every other character is kept, and no upper-case letter remains |
| Radix.DigitValueRange | hashira.js:52-57 | the digit rule `Radix.DigitValue`: after lower-casing, '0'-'9' get values in [0, 10) and 'a'-'z' values in [10, 36). The six characters `[ \ ] ^ _` and the backtick get values in [4, 9]. A value lies in [0, 36) exactly when the character is a decimal digit or lies between '[' and 'z' |
| Radix.DecodeOutcome | hashira.js:48-64 | the outcome of the source's decoder `Radix.Decode`: it fails with an invalid digit exactly when some character's value lies outside [0, radix), and otherwise gives a non-negative integer equal to the positional sum of the digit values |
| Radix.DecodeEmpty | hashira.js:49-63 | the empty string decodes to 0 in every base |
| Radix.DecodeAppend | hashira.js:51-62 | appending a valid digit c maps a decoded v to v * radix + value(c); appending an invalid character, or appending to a string that fails, fails |
| Radix.DecodeCaseInsensitive | hashira.js:50 | two strings that agree after ASCII lower-casing decode identically |
| Radix.HornerBounds | hashira.js:58-61 | with every digit in [0, radix), the Horner value lies in [0, radix^len) |
| Radix.HornerIsPositional | hashira.js:61 | Horner's accumulation equals the positional sum of d_i * radix^(len-1-i) |
| Radix.PositionalSnoc | hashira.js:61 | appending a digit multiplies the positional value by the radix and adds the digit |
| Radix.DigitChar | hashira.js:52-57 | the canonical lower-case symbol for d in [0, 36) is mapped back to d by the decoder's digit rule |
| Radix.DecodeEncode | hashira.js:48-64 | decoding the canonical base-b spelling of any natural v, for b in [2, 36], gives v back |
| Radix.DecodeStrictOutcome | hashira.js:48-64 | the corrected decoder `Radix.DecodeStrict`: it fails only with an invalid digit, succeeds only on strings over 0-9a-z, and on such strings agrees with the source's decoder |
| Radix.StrictDigit | hashira.js:52-60 | an alphanumeric character passes the range test exactly when it is one of the first radix symbols of 0-9a-z, and its value is then that symbol's position |
| Radix.DecodeStrictAlphabet | hashira.js:52-60 | the corrected decoder succeeds exactly when every character is one of the first radix symbols of 0-9a-z, and then returns what the source returns |
| Radix.UnderscoreAccepted | hashira.js:55-60 | as written, "_" decodes to 8 in base 10; the corrected decoder rejects it |
| Radix.ConvertStringToBigIntStrict | hashira.js:48-64 | the decoding loop behind the alphabet check: it succeeds exactly when every character is a symbol of the base, and then agrees with the source's decoder |
| Lagrange.OtherProductZero | hashira.js:97-102 | the product over j != i of (t - x_j) is zero exactly when some other point has x = t |
| Lagrange.DenominatorZero | hashira.js:101 | the i-th basis denominator is zero exactly when another point shares x_i |
| Lagrange.DenominatorNonZero | hashira.js:101 | with distinct x-coordinates every basis denominator is non-zero |
| Lagrange.DistinctIffDenominatorsNonZero | hashira.js:97-104 | all basis denominators are non-zero exactly when the x-coordinates are distinct |
| Lagrange.TermAtNode | hashira.js:104-105 | at t = x_k the i-th weighted basis term is y_k when i = k and 0 otherwise |
| Lagrange.PartialSumAtNode | hashira.js:90-107 | the first m terms at t = x_k sum to y_k when k < m, and to 0 otherwise |
| Lagrange.InterpolationExact | hashira.js:88-107 | for distinct x and an integer polynomial p with no more coefficients than there are points, through the points, the Lagrange sum at every integer t is p(t) |
| Lagrange.SecretRecovered | hashira.js:86-107 | at the evaluation point 0 the Lagrange sum is p's constant term |
| Lagrange.SinglePoint | hashira.js:88-107 | through one point the interpolant is that point's y everywhere |
| Engine.DecodeShares | hashira.js:76-79 | decodes every share in order with the source's decoder; fails with an invalid digit exactly when that decoder rejects some share's value; otherwise keeps each share's x and decoded y |
| Engine.Insert | hashira.js:82-83 | inserting a point adds exactly that point to the multiset of points |
| Engine.InsertSorted | hashira.js:82-83 | inserting into x-ordered points keeps them x-ordered |
| Engine.SortByX | hashira.js:82-83 | the result is ordered by x and is a permutation of the input |
| Engine.InsertDistinct | hashira.js:82-83 | inserting a point with a new x keeps the x-coordinates distinct |
| Engine.SortDistinct | hashira.js:82-83 | sorting keeps the x-coordinates distinct |
| Engine.InsertLast | hashira.js:82-83 | a point at least as large as all others is appended |
| Engine.SortSorted | hashira.js:82-83 | points already in x order are left as they are |
| Engine.Selected | hashira.js:82-85 | the k selected points are x-ordered and form a sub-multiset of the input, and no point left out has a smaller x than a point kept |
| Engine.SortedPrefix | hashira.js:82-85 | the first k points of an x-ordered permutation come from the input, and every input point they leave out lies at or above each of them |
| Engine.SelectionKeepsCurve | hashira.js:82-85 | if the points have distinct x and lie on a polynomial, so do the selected ones |
| Engine.BasisProducts | hashira.js:94-102 | the inner loop yields the products over j != i of (t - x_j) and of (x_i - x_j); the second is zero exactly when another point shares x_i |
| Engine.WeightedBasis | hashira.js:104-105 | y_i times the i-th basis value: fails with division by zero exactly when the basis denominator is zero; otherwise a normal rational whose value is the i-th Lagrange term |
| Engine.WeightedBasisValue | hashira.js:104-105 | the rational built from y_i, N_i and D_i denotes y_i * N_i / D_i |
| Engine.LagrangeSum | hashira.js:88-107 | fails with division by zero exactly when two points share an x; otherwise the sum is normal and equals the Lagrange interpolant at t |
| Engine.RepeatedX | hashira.js:101-104 | a zero basis denominator means two points share an x |
| Engine.FinalReduce | hashira.js:109-116 | succeeds exactly when the denominator divides the numerator, and then returns the integer the sum denotes; otherwise fails with a non-integer result |
| Engine.FinalReduceInteger | hashira.js:109-116 | the reduction returns n exactly when the sum denotes n |
| Engine.NormalDividesOnlyUnit | hashira.js:109-113 | for a normal sum the remainder test fails exactly when the denominator is not 1, so the quotient branch only ever divides by 1 |
| Engine.PointsUsed | hashira.js:90 | how many points the outer loop reads: the least natural at least k, so k itself when k is positive and none otherwise |
| Engine.ComputeConstantTerm | hashira.js:66-117 | fails with an invalid digit exactly when the source's decoder rejects some share. Otherwise it works over the first k points in x order, or none when k <= 0. It fails with division by zero exactly when two of them share an x. With distinct x it returns n exactly when their interpolant at 0 is the integer n, and otherwise fails with a non-integer result. When the points lie on an integer polynomial with at most k coefficients the result is its constant term. With k <= 0 the result is 0, and with k = 1 it is the y of the smallest-x point |
| Engine.ComputeConstantTermStrict | hashira.js:66-117 | the corrected computation: fails with an invalid digit exactly when some share is spelled outside the first base symbols of 0-9a-z; on every other input the source accepts it and gives the source's outcome |
| Engine.StrictShareValid | hashira.js:52-60 | a strictly spelled share is accepted by the source's decoder with the same value; on shares over 0-9a-z the two decoders accept the same shares |
| Engine.UnderscoreSecret | hashira.js:52-60 | with the single share (5, "_" in base 10) and k = 1 the source's computation returns 8 and the corrected one reports an invalid digit |
| Engine.DecodedPointsOf | hashira.js:71-80 | a loop output that matches every share's x and decoded y is the list of decoded points |
| Engine.ExactSecret | hashira.js:109-116 | a sum equal to the interpolant through points on a polynomial reduces to that polynomial's constant term |
| Engine.SingleShare | hashira.js:109-116 | with one selected point the sum reduces to that point's y |
| Engine.SampleBinary | hashira.js:129-132 | "111" in base 2 decodes to 7 |
| Engine.SampleDecimal | hashira.js:125-136 | "4" and "12" in base 10 decode to 4 and 12 |
| Engine.SampleQuaternary | hashira.js:137-140 | "213" in base 4 decodes to 39 |
| Engine.SampleValid | hashira.js:120-141 | every share of the first sample is valid and decodes to the expected y |
| Engine.SamplePoints | hashira.js:120-141 | the first sample decodes to (1, 4), (2, 7), (3, 12) and (6, 39) |
| Engine.SampleOnCurve | hashira.js:120-141 | the first sample's points (1, 4), (2, 7), (3, 12), (6, 39) have distinct x and lie on 3 + x^2 |
| Engine.SampleSelection | hashira.js:120-141 | with k = 3 the selected sample points have distinct x and lie on 3 + x^2 |
| Engine.SampleOutcome | hashira.js:120-141 | every outcome the computation allows on the first sample with k = 3 is 3 |
| Engine.SampleSecret | hashira.js:120-141 | on the first sample with k = 3 the computation returns 3 |

## Left out

- Building the point list from the loosely typed input object (hashira.js:71-80) is not modelled: the key enumeration, `BigInt(key)` and `parseInt(base)`. Shares arrive as a sequence of (x, base, digit string).
- `n` is not modelled because the program never uses it.
- The case k > |points| is not modelled: there the source reads past the end of the list. `ComputeConstantTerm` requires k <= |shares|. A threshold k <= 0 is modelled: the loop never runs and the result is 0.
- Only ASCII input is modelled. For other characters the source lower-cases by Unicode rules, and it reads a character beyond U+FFFF by its first UTF-16 code unit, so their digit values can differ from the model's.
- A base that `parseInt` turns into NaN is not modelled; the base is an integer.
- The JavaScript `sort` call is modelled as an insertion sort. It places each point after the points with equal x, as a stable sort does.
- Engine.SortByX: stability is not proved. Stability only matters when two shares with equal x straddle position k, and then it decides which of the two is selected.
- Lagrange.Weight is y_i / D_i. When D_i = 0 it is taken as 0, a value the source never computes, because the engine fails before using such a weight.
- `console.log` output and the second sample input are not modelled.

Two behaviours of the code that are easy to miss, both kept:

- gcd(0, 0) = 0, which the code returns and normalisation never reaches.
- The radix is not range-checked. For a radix above 36 the characters after 'z' are accepted as digits 36, 37 and so on. `Radix.Decode` keeps that behaviour.

## Findings

| source | as written | input that shows it | evidently intended | confidence | as-written member | corrected member |
|---|---|---|---|---|---|---|
| hashira.js:52-60 | a character that is not '0'-'9' gets the value 10 + (code - code of 'a'), and only values outside [0, radix) are rejected; the six characters `[ \ ] ^ _` and the backtick lie between 'Z' and 'a', so they get the values 4 to 9 and pass in every radix above 9 | `convertStringToBigInt("_", 10)` returns 8 instead of throwing | only the symbols 0-9 and a-z, in either case, are digits, so the rest are invalid characters | high; not executed | Radix.UnderscoreAccepted | Radix.DecodeStrictAlphabet |

`Radix.ConvertStringToBigInt`, `Radix.Decode` and `Engine.ComputeConstantTerm`
keep the source's behaviour on ASCII input. `Engine.UnderscoreSecret` carries the
discrepancy to the whole computation. The corrected computation is
`Engine.ComputeConstantTermStrict`. It decodes with the alphabet check of
`Radix.DecodeStrict` and otherwise returns exactly what the source returns.
