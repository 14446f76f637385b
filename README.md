# rational_adaptor in Dafny

A model of `boost::multiprecision::backends::rational_adaptor<IntBackend>`,
the backend that turns an arbitrary-precision integer type into an exact
rational number type. A value is two backend integers, the numerator `m_n`
and the denominator `m_d`. Every arithmetic operation forms a new numerator
and denominator (cross products for two rationals; for an integer operand,
only one part is multiplied by the integer) and then divides both parts by
their greatest common divisor. Rational
multiplication and division, and division by an integer, also make the
denominator positive; addition, subtraction and multiplication by an integer
keep the denominator's sign.

The integer backend is Dafny's unbounded `int`. Its gcd is `Gcds.Gcd`
(nonnegative, `Gcd(0, x) == |x|`, `Gcd(0, 0) == 0`). Its truncating division
is `RationalValues.TruncDiv`. Its string conversions are function-typed
parameters: `conv` reads an integer string and gives `None` when the
backend rejects it, and `toStr` prints one.

Files:

- `gcd.dfy` (module `Gcds`): Euclid's algorithm, divisibility, the greatest
  common divisor property, coprimality after dividing by the gcd, and
  Euclid's lemma.
- `rational_values.dfy` (module `RationalValues`): the value-level meaning of
  each operation on a `Fraction(n, d)`. It covers the reduction step, the six
  `detail::` helpers, the float shift-and-reduce, `compare`, integer
  conversion, `eval_is_zero` and `eval_get_sign`. Each is stated against
  cross products; `RealValue` gives the real number `n / d`, against which
  rational_properties.dfy states the arithmetic helpers.
- `rational_properties.dfy` (module `RationalProperties`): the properties
  that relate operations. Canonical forms are unique. Arithmetic is exact in
  the reals. The scalar shortcuts give the same pair as the general rational
  path. Multiplying and then dividing by the same value gives the value back.
  `compare` is a total order.
- `rational_text.dfy` (module `RationalText`): the character scanner, string
  assignment, `str()`, and the print-then-parse round trip.
- `rational_adaptor.dfy` (module `RationalAdaptor`): the class `Rational`
  with fields `n` and `d`. Its assignments, `swap` and `negate` change the
  fields. The `detail::` helpers and the in-place `eval_*` wrappers are
  methods that write `result` in the order the source does. Each method is
  proved equal to its value-level function.

A result has an error path (`Result.Err`) wherever the source throws:
`std::overflow_error("Division by zero")`, a rejected integer string, a
string with unparsed characters, and the backend's division by a zero gcd
when a string reads as `0/0`.

String assignment follows the code's scanner. It accepts `x` and `X` at any
position, not only as a prefix. Once the numerator has held one, hex letters
are accepted in the denominator too. A scanned part the backend cannot read,
such as the "34x" of "12/34x", fails in the backend's conversion rather than
as unparsed input.

## Model

| member | source | states |
|---|---|---|
| RationalValues.Reduced | include/boost/multiprecision/rational_adaptor.hpp:310-320 | dividing both parts by their gcd keeps the ratio, leaves them coprime, and keeps the sign of the denominator |
| RationalValues.SignFixed | include/boost/multiprecision/rational_adaptor.hpp:359-363 | the sign fix-up leaves a positive denominator, the same ratio and the same gcd |
| RationalValues.AddSubtract | include/boost/multiprecision/rational_adaptor.hpp:294-322 | result.n·(a.d·b.d) == (a.n·b.d ± a.d·b.n)·result.d, the result is coprime, and positive denominators give a positive denominator |
| RationalValues.AddSubtractScalarInPlace | include/boost/multiprecision/rational_adaptor.hpp:231-258 | n'/d' == (n ± d·val)/d, d' divides d, the result is coprime, and the denominator stays positive without a sign fix-up |
| RationalValues.AddSubtractScalar | include/boost/multiprecision/rational_adaptor.hpp:260-292 | the three-argument form, whose subtract path computes a.d·b − a.n and negates it, gives the same pair as the in-place form |
| RationalValues.MultiplyDivide | include/boost/multiprecision/rational_adaptor.hpp:324-364 | fails exactly when dividing by a zero numerator; otherwise the result is canonical with the cross-product equality of the product or quotient |
| RationalValues.MultiplyScalar | include/boost/multiprecision/rational_adaptor.hpp:366-389 | n'/d' == n·o/d, d' divides d, d is kept when Gcd(n·o, d) == 1, and o == 0 gives 0/1 |
| RationalValues.DivideScalar | include/boost/multiprecision/rational_adaptor.hpp:390-423 | fails exactly when d·o == 0; otherwise the result is canonical, n'/d' == n/(d·o), and n' divides the old numerator |
| RationalValues.FromFloatParts | include/boost/multiprecision/rational_adaptor.hpp:99-116 | mantissa m and exponent e give a canonical pair: m·2^e over 1 for e ≥ 0, otherwise a pair equal to m/2^(−e) |
| RationalValues.Compare | include/boost/multiprecision/rational_adaptor.hpp:192-199 | zero exactly when the cross products agree; with positive denominators the sign is the order of the two real values |
| RationalValues.CompareInteger | include/boost/multiprecision/rational_adaptor.hpp:200-207 | zero exactly when n == d·i; with a positive denominator the sign is the order against the integer |
| RationalValues.TruncDiv | include/boost/multiprecision/rational_adaptor.hpp:536-538 | the quotient truncates toward zero: abs(q)·abs(y) ≤ abs(x) < (abs(q)+1)·abs(y), with the sign of x/y |
| RationalValues.ConvertToInteger | include/boost/multiprecision/rational_adaptor.hpp:531-540 | the integer conversion is n/d truncated toward zero, with the sign of the value |
| RationalValues.IsZero | include/boost/multiprecision/rational_adaptor.hpp:542-546 | true exactly when the value is zero |
| RationalValues.GetSign | include/boost/multiprecision/rational_adaptor.hpp:547-551 | with a positive denominator the numerator's sign is the sign of the value |
| RationalProperties.CanonicalUnique | include/boost/multiprecision/rational_adaptor.hpp:310-320 | two canonical pairs with equal cross products are the same pair |
| RationalProperties.CanonicalEqualIffSameValue | include/boost/multiprecision/rational_adaptor.hpp:310-320 | canonical pairs are equal exactly when their real values are |
| RationalProperties.AddSubtractValue | include/boost/multiprecision/rational_adaptor.hpp:306-321 | the sum and difference are exact in the reals |
| RationalProperties.AddSubtractScalarValue | include/boost/multiprecision/rational_adaptor.hpp:243-257 | the in-place scalar sum and difference are exact in the reals |
| RationalProperties.MultiplyDivideValue | include/boost/multiprecision/rational_adaptor.hpp:336-363 | the product and quotient are exact in the reals |
| RationalProperties.MultiplyScalarValue | include/boost/multiprecision/rational_adaptor.hpp:376-388 | the scalar product is exactly old·o |
| RationalProperties.DivideScalarValue | include/boost/multiprecision/rational_adaptor.hpp:402-422 | a nonzero scalar divisor succeeds, and the result is exactly old/o |
| RationalProperties.NegateValue | include/boost/multiprecision/rational_adaptor.hpp:188-191 | negating the numerator negates the value and keeps a canonical pair canonical |
| RationalProperties.FromFloatPartsValue | include/boost/multiprecision/rational_adaptor.hpp:99-116 | the shift-and-reduce result stands for exactly m·2^e |
| RationalProperties.AddSubtractScalarAgrees | include/boost/multiprecision/rational_adaptor.hpp:231-258 | for any nonzero denominator, including a negative one, adding an integer in place gives the same pair as adding it as val/1 |
| RationalProperties.MultiplyScalarAgrees | include/boost/multiprecision/rational_adaptor.hpp:366-389 | for any positive denominator, reduced or not, multiplying by an integer gives the same pair as multiplying by o/1 |
| RationalProperties.DivideScalarAgrees | include/boost/multiprecision/rational_adaptor.hpp:390-423 | for any nonzero denominator, dividing by an integer gives the same result as dividing by o/1, including the failure for zero |
| RationalProperties.MultiplyThenDivide | test/test_cpp_rational.cpp:108-114 | (a·b)/b == a field for field, for canonical a and nonzero b |
| RationalProperties.DivideByOne | test/test_cpp_rational.cpp:116-117 | p/1 == p for canonical p |
| RationalProperties.CompareAntisymmetric | include/boost/multiprecision/rational_adaptor.hpp:192-199 | swapping the operands negates the comparison |
| RationalProperties.CompareTransitive | include/boost/multiprecision/rational_adaptor.hpp:192-199 | with positive denominators the comparison is transitive |
| RationalProperties.CompareZeroIffEqual | include/boost/multiprecision/rational_adaptor.hpp:192-199 | on canonical values the comparison is zero exactly for identical pairs |
| RationalProperties.CompareIntegerAgrees | include/boost/multiprecision/rational_adaptor.hpp:200-207 | the integer overload agrees with comparing against i/1 |
| RationalProperties.GetSignIsCompareWithZero | include/boost/multiprecision/rational_adaptor.hpp:547-551 | with a positive denominator the sign is the comparison with 0/1 |
| RationalProperties.ExampleSum | include/boost/multiprecision/rational_adaptor.hpp:294-322 | 7/3 + 5/6 == 19/6 |
| RationalProperties.ExampleDifference | include/boost/multiprecision/rational_adaptor.hpp:294-322 | 7/3 − 5/6 == 3/2 |
| RationalProperties.ExampleProductQuotient | include/boost/multiprecision/rational_adaptor.hpp:324-364 | 7/3 · 5/6 == 35/18 and 7/3 ÷ 5/6 == 14/5 |
| RationalProperties.ExampleDivisionByZero | include/boost/multiprecision/rational_adaptor.hpp:342-343 | dividing by 0/1 or by the integer 0 reports division by zero |
| RationalProperties.ExampleTruncation | include/boost/multiprecision/rational_adaptor.hpp:536-538 | −7/2 converts to −3, not to the Euclidean −4 |
| RationalText.Scan | include/boost/multiprecision/rational_adaptor.hpp:126-132 | one scanning loop stops inside the string, and once hex letters are on they stay on |
| RationalText.ScanSpec | include/boost/multiprecision/rational_adaptor.hpp:126-144 | the scan takes the longest run of accepted characters, with a–f and A–F accepted only after an x or X, and reports whether one was seen |
| RationalText.Finish | include/boost/multiprecision/rational_adaptor.hpp:155-165 | the final reduction fails exactly for 0/0, the backend's divide by a zero gcd; otherwise it keeps the ratio and leaves the parts coprime |
| RationalText.Parse | include/boost/multiprecision/rational_adaptor.hpp:119-168 | a string that parses gives a coprime pair, not necessarily with a positive denominator |
| RationalText.ParseWithSlash | include/boost/multiprecision/rational_adaptor.hpp:133-166 | a well-formed "n/d" whose parts are not both zero always parses, to Reduced(n, d) with signs untouched ("2/-4" gives 1/-2, "3/0" gives 1/0) |
| RationalText.ParseWithoutSlash | include/boost/multiprecision/rational_adaptor.hpp:133-148 | a string whose numerator ends at the terminator reads as the converted numerator over 1 |
| RationalText.ParseTrailingAfterNumerator | include/boost/multiprecision/rational_adaptor.hpp:133-152 | any character after the numerator other than `/` or the terminator gives the unparsed-input error |
| RationalText.ParseTrailingAfterDenominator | include/boost/multiprecision/rational_adaptor.hpp:136-152 | any character after the denominator other than the terminator gives the unparsed-input error, so "1/2/3" is rejected |
| RationalText.ParseValue | include/boost/multiprecision/rational_adaptor.hpp:119-166 | a string that parses gives exactly Reduced(num, den) of its converted parts, or num/1 without `/`, with nothing after the last part |
| RationalText.ParseAccepts | include/boost/multiprecision/rational_adaptor.hpp:126-153 | a string that parses holds only scanner characters and `/` before its terminator |
| RationalText.Str | include/boost/multiprecision/rational_adaptor.hpp:174-187 | the text begins with the numerator's string |
| RationalText.ParseStrRoundTrip | include/boost/multiprecision/rational_adaptor.hpp:119-187 | printing a coprime pair and parsing the text gives the pair back, for a decimal backend whose printing reads back |
| RationalText.ScanDecimal | include/boost/multiprecision/rational_adaptor.hpp:126-132 | a run of digits and minus signs up to the end or a `/` is scanned whole without turning hex on |
| RationalText.ExampleReduces | include/boost/multiprecision/rational_adaptor.hpp:155-165 | "12/34" reads as 6/17 |
| RationalText.ExampleNegativeDenominator | include/boost/multiprecision/rational_adaptor.hpp:133-165 | "1/-2" reads as 1/−2: the negative denominator is kept |
| RationalText.ExampleZeroDenominator | include/boost/multiprecision/rational_adaptor.hpp:133-165 | "3/0" is accepted and reads as 1/0 |
| RationalText.ExampleZeroOverZero | include/boost/multiprecision/rational_adaptor.hpp:155-165 | "0/0" reaches the division by a zero gcd |
| RationalText.ExampleInteger | include/boost/multiprecision/rational_adaptor.hpp:148-149 | "7" reads as 7/1 |
| RationalText.ExampleTrailing | include/boost/multiprecision/rational_adaptor.hpp:150-153 | "1.5" is rejected for its unparsed characters |
| RationalText.ExampleMarkerInDenominator | include/boost/multiprecision/rational_adaptor.hpp:138-145 | in "12/34x" the scanner takes the x, so the failure comes from converting "34x" |
| RationalText.ExampleHexCarry | include/boost/multiprecision/rational_adaptor.hpp:123-144 | the hex mode set in the numerator carries into the denominator scan |
| RationalAdaptor.ScanRun | include/boost/multiprecision/rational_adaptor.hpp:126-132 | the scanning loop stops where Scan does, with the same hex flag, and has collected exactly the characters it passed |
| RationalAdaptor.Rational.Default | include/boost/multiprecision/rational_adaptor.hpp:36 | promises nothing about the fields: both backend integers are left default-constructed |
| RationalAdaptor.Rational.Copy | include/boost/multiprecision/rational_adaptor.hpp:37 | the copy holds the same pair |
| RationalAdaptor.Rational.FromInteger | include/boost/multiprecision/rational_adaptor.hpp:38-47 | construction from an integer gives v/1, which is canonical |
| RationalAdaptor.Rational.AssignCopy | include/boost/multiprecision/rational_adaptor.hpp:66-71 | copy assignment takes the other object's pair, also when assigning to itself |
| RationalAdaptor.Rational.AssignInteger | include/boost/multiprecision/rational_adaptor.hpp:72-84 | assignment from an integer gives i/1, which is canonical |
| RationalAdaptor.Rational.AssignFloatParts | include/boost/multiprecision/rational_adaptor.hpp:99-116 | the object ends up holding FromFloatParts(m, e) and is canonical |
| RationalAdaptor.Rational.AssignString | include/boost/multiprecision/rational_adaptor.hpp:119-168 | the two loops, the conversions and the reduction give Parse's result, and on success the object holds the parsed pair |
| RationalAdaptor.Rational.Swap | include/boost/multiprecision/rational_adaptor.hpp:169-173 | the two objects exchange their pairs |
| RationalAdaptor.Rational.Negate | include/boost/multiprecision/rational_adaptor.hpp:188-191 | only the numerator is negated, and a canonical object stays canonical |
| RationalAdaptor.AddSubtractScalarInPlace | include/boost/multiprecision/rational_adaptor.hpp:231-258 | the step-by-step update leaves result holding AddSubtractScalarInPlace of its old pair |
| RationalAdaptor.AddSubtractScalar | include/boost/multiprecision/rational_adaptor.hpp:260-292 | the step-by-step update leaves result holding AddSubtractScalar(a, b) |
| RationalAdaptor.AddSubtract | include/boost/multiprecision/rational_adaptor.hpp:294-322 | result holds AddSubtract of the old operands, also when result is one of them |
| RationalAdaptor.MultiplyDivide | include/boost/multiprecision/rational_adaptor.hpp:324-364 | the outcome is MultiplyDivide of the old operands; on success result holds it, on failure result is unchanged |
| RationalAdaptor.MultiplyScalar | include/boost/multiprecision/rational_adaptor.hpp:366-389 | result holds MultiplyScalar of its old pair |
| RationalAdaptor.DivideScalar | include/boost/multiprecision/rational_adaptor.hpp:390-423 | the outcome is DivideScalar of the old pair; on success result holds it, on failure result is unchanged |
| RationalAdaptor.EvalAdd | include/boost/multiprecision/rational_adaptor.hpp:428-434 | computing into a temporary and moving it in gives the sum of the old values |
| RationalAdaptor.EvalSubtract | include/boost/multiprecision/rational_adaptor.hpp:435-441 | computing into a temporary and moving it in gives the difference of the old values |
| RationalAdaptor.EvalMultiply | include/boost/multiprecision/rational_adaptor.hpp:474-480 | computing into a temporary and moving it in gives the product of the old values |
| RationalAdaptor.EvalDivide | include/boost/multiprecision/rational_adaptor.hpp:481-487 | the outcome is the quotient of the old values; a division by zero leaves result unchanged |
| RationalAdaptor.AssignComponents | include/boost/multiprecision/rational_adaptor.hpp:553-558 | the two parts are stored as given, without reduction |

The three-argument `eval_add`, `eval_subtract`, `eval_multiply` and
`eval_divide` (:442-451, :488-497) and the scalar `eval_*` overloads
(:453-472, :499-508) forward their arguments unchanged to the helpers. They
are the helper methods above.

## Left out

- The float assignment's `std::frexp` / `std::ldexp` (:94-98), conversion to floating point (:510-517) and the floating-point `compare` overload (:208-214) are floating-point library work; `AssignFloatParts` starts from the integer mantissa and exponent they produce.
- `eval_convert_to` for targets that are neither integer nor floating point (:519-529) delegates to conversions that are not part of this model.
- RationalValues.ConvertToInteger: the final `eval_convert_to` into a fixed-width integer type may narrow; the model stops at the backend quotient.
- The backend's string-to-integer and integer-to-string conversions are parameters (`conv`, `toStr`), and `str()`'s `digits` and `fmtflags` arguments are folded into `toStr`. `SampleDecimal` is a plain decimal reader used only for worked examples.
- RationalAdaptor.Rational.AssignString: after a failure the object's fields are not specified. The source has written some of them by then: the numerator after a failed denominator conversion, both unreduced parts after a trailing-character error.
- RationalAdaptor.Rational.Default: the default constructor leaves the backend integers default-constructed, so the model promises nothing about them.
- The arithmetic helpers, their wrappers and ConvertToInteger require nonzero denominators. Such values come from strings like "3/0", from `assign_components`, and from the default constructor, which leaves `m_d` default-constructed. The source has no guard here. The arithmetic helpers would divide by a zero gcd only when both parts of an intermediate pair are zero. `eval_convert_to` divides `m_n` by `m_d` directly, so for it every zero denominator is a division by zero.
- RationalAdaptor.AddSubtractScalar (the three-argument helper) requires `result` and `a` to be distinct objects: the source writes `result.n()` before it reads `a.n()`.
- Move construction and move assignment (:57-64) behave as the copies; `BOOST_MP_MOVE` is not modelled separately.
- The generic converting assignment at :49-54 sets n := u, d := 1 like `AssignInteger`, and as written it has no `return` statement; it is not modelled separately.
- Template and trait plumbing (`enable_if` overload selection, `number_category`, `expression_template_default`, `component_type`, `numerator`/`denominator` accessors, the `numeric_limits` specialisation) and `serialize` (:221-226) carry no arithmetic.
- Exceptions are modelled as `Result.Err` values; exception safety beyond "a failed division leaves result unchanged" is not modelled.
