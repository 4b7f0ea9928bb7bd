# fractional-computation-api core, modelled in Dafny

The service computes fractional derivatives and integrals of polynomials and
prints them. A polynomial is a list of terms `coefficient · x^power`. Both
numbers are `BigDecimal`s. This project models four classes of that service:

- `CaputoDerivativeComputationService` computes the terms of the Caputo
  derivative of order α:
  - α of value zero keeps the terms;
  - a whole α differentiates every term α times;
  - any other α multiplies each coefficient by Γ(k+1)/Γ(k−α+1) and lowers
    the power k by α;
  - in every case the result is sorted by descending power.
- `BaseFormattingService` is the shared polynomial printer. It rounds each
  coefficient half-up to a precision, drops a fraction made only of zeros,
  joins terms with " + " or " - ", leaves out unit coefficients and writes
  x^1 and x^0 as `x` and as nothing.
- `CaputoIntegralFormattingService` prints the result of a Caputo integral.
  It uses the shared printer, with "C" as the text of a zero polynomial, and
  appends the constants of integration C, D, E, …
- `RiemannLiouvilleFormattingService` is a separate printer with three fixed
  places. It strips trailing zeros and writes every term, including zero
  ones.

The model has these modules:

- `Decimals` (decimal.dfy): `BigDecimal` as an unscaled integer and a scale,
  with the value as a `real`. It models `compareTo`, `add`, `subtract`,
  `multiply`, `setScale` and `divide` with `HALF_UP`, `stripTrailingZeros`,
  `abs`, `intValue` and the `(int)` cast of a double.
- `DecimalText` (text.dfy): `toPlainString`, `new BigDecimal(String)` and
  `String.split("\\.")`, with round-trip lemmas between them.
- `Terms` (terms.dfy): the `Term` record and `List.sort` by descending power.
  The sort is a stable insertion sort.
- `MathUtils` (math_utils.dfy): the type of the gamma function, which callers
  pass in.
- `CaputoDerivativeComputation` (caputo_derivative.dfy): the derivative
  computation. Each loop is a method, proved against a function that states
  its result.
- `BaseFormatting` (base_formatting.dfy): the shared printer. The two
  abstract hooks are a record of values.
- `CaputoIntegralFormatting` (caputo_integral_formatting.dfy): the integral
  printer and its constants of integration.
- `RiemannLiouvilleFormatting` (riemann_liouville_formatting.dfy): the
  Riemann–Liouville printer.

Each `StringBuilder` and output list is a local value that the methods
return extended. A call that can throw returns an `Option`, and `None`
stands for the exception.

## Model

| member | source | states |
|---|---|---|
| Decimals.Compare | src/main/java/com/trbaxter/github/fractionalcomputationapi/service/derivation/BaseFormattingService.java:72-78 | compareTo is −1, 0 or 1 exactly as the first value is below, equal to or above the second, whatever the scales |
| Decimals.Add | src/main/java/com/trbaxter/github/fractionalcomputationapi/service/derivation/caputo/CaputoDerivativeComputationService.java:89-90 | add has the larger scale and the exact sum as its value |
| Decimals.Sub | src/main/java/com/trbaxter/github/fractionalcomputationapi/service/derivation/caputo/CaputoDerivativeComputationService.java:63-65 | subtract has the larger scale and the exact difference as its value |
| Decimals.Mul | src/main/java/com/trbaxter/github/fractionalcomputationapi/service/derivation/caputo/CaputoDerivativeComputationService.java:63 | multiply adds the scales and its value is the exact product |
| Decimals.SetScaleHalfUpNearest | src/main/java/com/trbaxter/github/fractionalcomputationapi/service/derivation/BaseFormattingService.java:48 | setScale(p, HALF_UP) lands within half a unit of 10^−p of the value, and a tie goes away from zero |
| Decimals.SetScaleHalfUpExact | src/main/java/com/trbaxter/github/fractionalcomputationapi/service/derivation/BaseFormattingService.java:48 | setScale to a scale no smaller than the current one keeps the value |
| Decimals.DivideHalfUpNearest | src/main/java/com/trbaxter/github/fractionalcomputationapi/service/integration/caputo/CaputoIntegralFormattingService.java:58-64 | divide(b, p, HALF_UP) is the quotient rounded to p places: within half a unit of 10^−p, and a tie goes away from zero |
| Decimals.StripTrailingZeros | src/main/java/com/trbaxter/github/fractionalcomputationapi/service/derivation/BaseFormattingService.java:101 | stripTrailingZeros keeps the value and leaves no zero digit at the end of the unscaled value (every zero becomes 0) |
| Decimals.StripTrailingZerosCanonical | src/main/java/com/trbaxter/github/fractionalcomputationapi/service/derivation/BaseFormattingService.java:101 | decimals of equal value strip to the same decimal |
| Decimals.WholeIffStrippedScale | src/main/java/com/trbaxter/github/fractionalcomputationapi/service/derivation/caputo/CaputoDerivativeComputationService.java:35 | the test `stripTrailingZeros().scale() <= 0` holds exactly for values with no fractional part |
| Decimals.Trunc | src/main/java/com/trbaxter/github/fractionalcomputationapi/service/integration/caputo/CaputoIntegralFormattingService.java:33 | truncation toward zero is the value itself for a whole value |
| Decimals.Wrap32 | src/main/java/com/trbaxter/github/fractionalcomputationapi/service/derivation/caputo/CaputoDerivativeComputationService.java:36 | the low 32 bits of intValue: an int congruent to the integer modulo 2^32 |
| Decimals.IntValueOfWhole | src/main/java/com/trbaxter/github/fractionalcomputationapi/service/derivation/caputo/CaputoDerivativeComputationService.java:36 | intValue of a whole value within the int range is that value |
| Decimals.SaturatingIntCast | src/main/java/com/trbaxter/github/fractionalcomputationapi/service/integration/caputo/CaputoIntegralFormattingService.java:33 | the (int) cast stays within the int range, truncates toward zero when the truncation fits, and saturates at 2^31 − 1 above and −2^31 below |
| DecimalText.ParsePlainString | src/main/java/com/trbaxter/github/fractionalcomputationapi/service/derivation/BaseFormattingService.java:49-70 | new BigDecimal(s) reads the toPlainString text back as the decimal, with a negative scale turned into digits |
| DecimalText.PlainValue | src/main/java/com/trbaxter/github/fractionalcomputationapi/service/derivation/BaseFormattingService.java:70 | reading a plain text back keeps the value |
| DecimalText.PlainStringHead | src/main/java/com/trbaxter/github/fractionalcomputationapi/service/derivation/BaseFormattingService.java:49-51 | toPlainString is never empty, starts with '-' exactly for a negative number and with a digit otherwise, and contains '.' exactly for a positive scale |
| DecimalText.SplitOnSingleDot | src/main/java/com/trbaxter/github/fractionalcomputationapi/service/derivation/BaseFormattingService.java:52 | split on "\\." cuts a text with one point into the part before it and the part after it |
| DecimalText.StrippedPlainStringEnd | src/main/java/com/trbaxter/github/fractionalcomputationapi/service/derivation/riemann_liouville/RiemannLiouvilleFormattingService.java:19 | a stripped decimal with a fraction prints with a final digit that is not '0' |
| Terms.SortDescendingSorts | src/main/java/com/trbaxter/github/fractionalcomputationapi/service/derivation/caputo/CaputoDerivativeComputationService.java:41 | sorting by any key, largest first, gives keys that never increase and is a permutation of the input |
| Terms.SortDescendingStable | src/main/java/com/trbaxter/github/fractionalcomputationapi/service/derivation/caputo/CaputoDerivativeComputationService.java:41 | the sort is stable: the terms with one key keep their relative order |
| Terms.SortByPowerDescendingSorts | src/main/java/com/trbaxter/github/fractionalcomputationapi/service/derivation/caputo/CaputoDerivativeComputationService.java:41 | sorting by power reversed gives powers that never increase and is a permutation of the input |
| Terms.SortByPowerDescendingStable | src/main/java/com/trbaxter/github/fractionalcomputationapi/service/derivation/caputo/CaputoDerivativeComputationService.java:41 | the terms of one power keep their relative order |
| CaputoDerivativeComputation.Collect | src/main/java/com/trbaxter/github/fractionalcomputationapi/service/derivation/caputo/CaputoDerivativeComputationService.java:55-70 | a loop that adds at most one term per input term yields no more terms than it was given |
| CaputoDerivativeComputation.CollectConcat | src/main/java/com/trbaxter/github/fractionalcomputationapi/service/derivation/caputo/CaputoDerivativeComputationService.java:83-110 | each term is handled on its own: the result for a + b is the result for a followed by the result for b |
| CaputoDerivativeComputation.CollectMembers | src/main/java/com/trbaxter/github/fractionalcomputationapi/service/derivation/caputo/CaputoDerivativeComputationService.java:55-70 | a term is in the result exactly when some input term produced it |
| CaputoDerivativeComputation.FallingProductValue | src/main/java/com/trbaxter/github/fractionalcomputationapi/service/derivation/caputo/CaputoDerivativeComputationService.java:61-64 | the inner loop's coefficient is the coefficient times the falling factorial k(k−1)…(k−n+1) |
| CaputoDerivativeComputation.FallingFactorialAtLeastOne | src/main/java/com/trbaxter/github/fractionalcomputationapi/service/derivation/caputo/CaputoDerivativeComputationService.java:60-64 | when k ≥ n, the falling factorial of k of length n is at least one |
| CaputoDerivativeComputation.DifferentiateTerm | src/main/java/com/trbaxter/github/fractionalcomputationapi/service/derivation/caputo/CaputoDerivativeComputationService.java:56-69 | one pass of the outer loop, with the inner loop's invariant, gives the outcome IntegerOrderOutcome states |
| CaputoDerivativeComputation.IntegerOrderOutcomeMeaning | src/main/java/com/trbaxter/github/fractionalcomputationapi/service/derivation/caputo/CaputoDerivativeComputationService.java:59-68 | a term is differentiated exactly when its coefficient is non-zero and its power is at least the order; the new power is k − n ≥ 0; the new coefficient is c·k(k−1)…(k−n+1) and is non-zero; the negative-power check never drops a term |
| CaputoDerivativeComputation.EmittedCoefficient | src/main/java/com/trbaxter/github/fractionalcomputationapi/service/derivation/caputo/CaputoDerivativeComputationService.java:61-67 | an emitted coefficient is the input coefficient times the falling factorial, and it is not zero |
| CaputoDerivativeComputation.ComputeIntegerOrderDerivativeTerms | src/main/java/com/trbaxter/github/fractionalcomputationapi/service/derivation/caputo/CaputoDerivativeComputationService.java:53-71 | the list passed in is extended by the emitted terms, in input order |
| CaputoDerivativeComputation.IntegerOrderPowersNonNegative | src/main/java/com/trbaxter/github/fractionalcomputationapi/service/derivation/caputo/CaputoDerivativeComputationService.java:65-68 | every term of a whole-order derivative has a non-negative power |
| CaputoDerivativeComputation.FractionalOrderOutcomeMeaning | src/main/java/com/trbaxter/github/fractionalcomputationapi/service/derivation/caputo/CaputoDerivativeComputationService.java:87-108 | a term is emitted exactly when its coefficient is non-zero, both gamma calls succeed and Γ(k−α+1) is not zero; then the power is k − α and the coefficient is c·(Γ(k+1)/Γ(k−α+1)) |
| CaputoDerivativeComputation.ComputeFractionalOrderDerivativeTerms | src/main/java/com/trbaxter/github/fractionalcomputationapi/service/derivation/caputo/CaputoDerivativeComputationService.java:81-111 | the list passed in is extended by the emitted terms; a term whose gamma call fails is left out and the loop goes on |
| CaputoDerivativeComputation.ComputeTerms | src/main/java/com/trbaxter/github/fractionalcomputationapi/service/derivation/caputo/CaputoDerivativeComputationService.java:30-43 | the result is the chosen branch's terms sorted by power: powers never increase, it is a permutation of those terms, and terms of equal power keep their order |
| CaputoDerivativeComputation.CaputoDerivativeDispatch | src/main/java/com/trbaxter/github/fractionalcomputationapi/service/derivation/caputo/CaputoDerivativeComputationService.java:33-39 | an order of value zero keeps the terms; a non-zero whole order takes the integer branch with intValue; any other order takes the fractional branch |
| CaputoDerivativeComputation.CaputoDerivativeLength | src/main/java/com/trbaxter/github/fractionalcomputationapi/service/derivation/caputo/CaputoDerivativeComputationService.java:30-39 | the derivative has at most as many terms as the input, and exactly as many for order zero |
| CaputoDerivativeComputation.FirstDerivativeOfSquare | src/main/java/com/trbaxter/github/fractionalcomputationapi/service/derivation/caputo/CaputoDerivativeComputationService.java:59-67 | 3x^2 differentiated once is 6x |
| CaputoDerivativeComputation.FirstDerivativeOfLinear | src/main/java/com/trbaxter/github/fractionalcomputationapi/service/derivation/caputo/CaputoDerivativeComputationService.java:59-67 | 2x differentiated once is 2x^0 |
| CaputoDerivativeComputation.FirstDerivativeOfConstant | src/main/java/com/trbaxter/github/fractionalcomputationapi/service/derivation/caputo/CaputoDerivativeComputationService.java:59-60 | a constant is below the order and is dropped |
| BaseFormatting.PointedParts | src/main/java/com/trbaxter/github/fractionalcomputationapi/service/derivation/BaseFormattingService.java:49-55 | a plain text with a point splits into two parts: the signed whole part and the digits after the point, and those digits are all zeros exactly when the number is whole |
| BaseFormatting.FormatCoefficientMeaning | src/main/java/com/trbaxter/github/fractionalcomputationapi/service/derivation/BaseFormattingService.java:47-67 | formatCoefficient's text reads back as the coefficient rounded half-up to the precision and holds a point exactly when the precision is positive and the rounded value is not whole; unless the fraction is all zeros it is the rounded value's plain text verbatim, with exactly `precision` digits after the point ("2.500") |
| BaseFormatting.FormatCoefficientHead | src/main/java/com/trbaxter/github/fractionalcomputationapi/service/derivation/BaseFormattingService.java:47-67 | formatCoefficient's text is not empty and starts with '-' or a digit |
| BaseFormatting.Separator | src/main/java/com/trbaxter/github/fractionalcomputationapi/service/derivation/BaseFormattingService.java:77-84 | no separator before the first written term; after it, " + " exactly for a positive coefficient and " - " exactly otherwise |
| BaseFormatting.NumeralMeaning | src/main/java/com/trbaxter/github/fractionalcomputationapi/service/derivation/BaseFormattingService.java:77-95 | separator and written coefficient read back as the coefficient; it is left out, or shown as "-", exactly for a unit coefficient in front of a non-zero power, and a bare "-" exactly for a −1 written as the first term |
| BaseFormatting.FormatCoefficientPrintsBack | src/main/java/com/trbaxter/github/fractionalcomputationapi/service/derivation/BaseFormattingService.java:47-70 | formatCoefficient's text, read by new BigDecimal and printed again by toPlainString, is the same text, zeros after the point included |
| BaseFormatting.WrittenNumeral | src/main/java/com/trbaxter/github/fractionalcomputationapi/service/derivation/BaseFormattingService.java:77-92 | a written non-zero coefficient is formatCoefficient's text as it stands ("1.040" stays "1.040"): after " - " that text without its leading '-', otherwise the whole text |
| BaseFormatting.PowerTextMeaning | src/main/java/com/trbaxter/github/fractionalcomputationapi/service/derivation/BaseFormattingService.java:97-103 | nothing for a power of value zero, "x" for a power of value one, otherwise "x^" and a text that reads back as the power |
| BaseFormatting.PowerTextCanonical | src/main/java/com/trbaxter/github/fractionalcomputationapi/service/derivation/BaseFormattingService.java:101 | powers of equal value are written alike (x^2.50 and x^2.5 both as x^2.5) |
| BaseFormatting.TermTextEmpty | src/main/java/com/trbaxter/github/fractionalcomputationapi/service/derivation/BaseFormattingService.java:70-74 | a term adds text exactly when its parsed coefficient is not zero |
| BaseFormatting.AppendTerm | src/main/java/com/trbaxter/github/fractionalcomputationapi/service/derivation/BaseFormattingService.java:69-104 | appendTerm extends the text by the separator, the coefficient and the variable part that TermText describes |
| BaseFormatting.WrittenTermEmpty | src/main/java/com/trbaxter/github/fractionalcomputationapi/service/derivation/BaseFormattingService.java:28-29 | the loop writes nothing for a term exactly when its coefficient rounds to zero at the precision |
| BaseFormatting.WrittenTermHead | src/main/java/com/trbaxter/github/fractionalcomputationapi/service/derivation/BaseFormattingService.java:28-29 | the first term written starts with '-', a digit or 'x' |
| BaseFormatting.TermTextHead | src/main/java/com/trbaxter/github/fractionalcomputationapi/service/derivation/BaseFormattingService.java:91-99 | with nothing written before it, a term starts with '-', a digit or 'x' |
| BaseFormatting.RenderedByEmpty | src/main/java/com/trbaxter/github/fractionalcomputationapi/service/derivation/BaseFormattingService.java:23-30 | the loop writes nothing exactly when every term it does not skip writes nothing |
| BaseFormatting.RenderedByHead | src/main/java/com/trbaxter/github/fractionalcomputationapi/service/derivation/BaseFormattingService.java:23-30 | the loop's text starts as its first written term starts |
| BaseFormatting.RenderedEmpty | src/main/java/com/trbaxter/github/fractionalcomputationapi/service/derivation/BaseFormattingService.java:21-32 | the loop writes nothing exactly when every term it does not skip rounds to zero |
| BaseFormatting.FormatTerms | src/main/java/com/trbaxter/github/fractionalcomputationapi/service/derivation/BaseFormattingService.java:16-37 | formatTerms returns the zero-polynomial text when all coefficients are zero or nothing was written, and the loop's text otherwise |
| BaseFormatting.FormattedTermsMeaning | src/main/java/com/trbaxter/github/fractionalcomputationapi/service/derivation/BaseFormattingService.java:16-37 | the zero-polynomial text comes out exactly when every term that is not skipped rounds to zero; otherwise the text is the loop's text and is not empty |
| BaseFormatting.RenderedHead | src/main/java/com/trbaxter/github/fractionalcomputationapi/service/derivation/BaseFormattingService.java:21-30 | the polynomial text is empty or starts with '-', a digit or 'x' |
| CaputoIntegralFormatting.ConstantName | src/main/java/com/trbaxter/github/fractionalcomputationapi/service/integration/caputo/CaputoIntegralFormattingService.java:54 | the i-th constant is the letter 'C' + i, an upper-case letter for the first 24 |
| CaputoIntegralFormatting.ConstantCoefficientMeaning | src/main/java/com/trbaxter/github/fractionalcomputationapi/service/integration/caputo/CaputoIntegralFormattingService.java:57-65 | 1/Γ(k) can be computed exactly when gamma succeeds with a non-zero value; it then has scale = precision and is the quotient rounded half-up |
| CaputoIntegralFormatting.ConstantNumeralMeaning | src/main/java/com/trbaxter/github/fractionalcomputationapi/service/integration/caputo/CaputoIntegralFormattingService.java:67-81 | the constant's coefficient is left out exactly when it equals one; otherwise its text reads back as the coefficient at the precision and, unless its fraction is all zeros, is the rounded plain text with exactly `precision` fraction digits ("0.500") |
| CaputoIntegralFormatting.ConstantPowerMeaning | src/main/java/com/trbaxter/github/fractionalcomputationapi/service/integration/caputo/CaputoIntegralFormattingService.java:84-90 | nothing for a power ≤ 0, "x" for 1, and "x^" followed by the digits of the power above 1 |
| CaputoIntegralFormatting.AppendConstant | src/main/java/com/trbaxter/github/fractionalcomputationapi/service/integration/caputo/CaputoIntegralFormattingService.java:53-90 | one pass of the loop fails exactly when the constant's text cannot be computed, and otherwise appends that text |
| CaputoIntegralFormatting.AppendConstantsOfIntegration | src/main/java/com/trbaxter/github/fractionalcomputationapi/service/integration/caputo/CaputoIntegralFormattingService.java:50-93 | the text is kept for a non-positive count; otherwise the constants 0 … n−1 are appended in order, and the method fails if any of them fails |
| CaputoIntegralFormatting.AppendedStaysFailed | src/main/java/com/trbaxter/github/fractionalcomputationapi/service/integration/caputo/CaputoIntegralFormattingService.java:52-91 | once one constant fails, the whole loop fails |
| CaputoIntegralFormatting.AppendedSucceeds | src/main/java/com/trbaxter/github/fractionalcomputationapi/service/integration/caputo/CaputoIntegralFormattingService.java:52-91 | the loop succeeds exactly when every constant's text can be computed |
| CaputoIntegralFormatting.AppendedExtends | src/main/java/com/trbaxter/github/fractionalcomputationapi/service/integration/caputo/CaputoIntegralFormattingService.java:51-92 | the constants only extend the text: the polynomial text is a prefix of the result |
| CaputoIntegralFormatting.AppendedJoinsWithPlus | src/main/java/com/trbaxter/github/fractionalcomputationapi/service/integration/caputo/CaputoIntegralFormattingService.java:51-53 | when every constant is written, each one follows " + " (only a first constant on an empty text stands alone), in index order after the starting text |
| CaputoIntegralFormatting.ConstantsSucceed | src/main/java/com/trbaxter/github/fractionalcomputationapi/service/integration/caputo/CaputoIntegralFormattingService.java:52-65 | the n constants can all be written exactly when Γ(1) … Γ(n) are all computed and non-zero |
| CaputoIntegralFormatting.FactorialGammaConstants | src/main/java/com/trbaxter/github/fractionalcomputationapi/service/integration/caputo/CaputoIntegralFormattingService.java:52-90 | for every whole order n ≥ 2 and precision ≥ 0, with Γ(m) = (m − 1)! for m = 1 … n, all n constants are written, the coefficient with Γ(m) is 1/(m − 1)! rounded half-up, and the last two constants are the bare letter of n − 2 before "x" and the bare letter of n − 1 |
| CaputoIntegralFormatting.FormatTerms | src/main/java/com/trbaxter/github/fractionalcomputationapi/service/integration/caputo/CaputoIntegralFormattingService.java:29-48 | formatTerms(terms, alpha, precision) is the shared printer's text followed by the constants the order calls for |
| CaputoIntegralFormatting.BaseTextNonEmpty | src/main/java/com/trbaxter/github/fractionalcomputationapi/service/integration/caputo/CaputoIntegralFormattingService.java:19-30 | with no term skipped and "C" for a zero polynomial, the printed polynomial is never empty, and it is "C" exactly when every coefficient rounds to zero |
| CaputoIntegralFormatting.SingleConstant | src/main/java/com/trbaxter/github/fractionalcomputationapi/service/integration/caputo/CaputoIntegralFormattingService.java:35-45 | an order of value one or a fractional order appends one constant C, after " + " when the text is not empty |
| CaputoIntegralFormatting.IntegralFractionalOrder | src/main/java/com/trbaxter/github/fractionalcomputationapi/service/integration/caputo/CaputoIntegralFormattingService.java:42-45 | for a fractional order the result is the polynomial text followed by " + C" |
| CaputoIntegralFormatting.IntegralFirstOrder | src/main/java/com/trbaxter/github/fractionalcomputationapi/service/integration/caputo/CaputoIntegralFormattingService.java:38-41 | for the order one the result is the polynomial text followed by " + C" |
| CaputoIntegralFormatting.IntegralNonPositiveOrder | src/main/java/com/trbaxter/github/fractionalcomputationapi/service/integration/caputo/CaputoIntegralFormattingService.java:35-41 | a whole order ≤ 0 adds no constant |
| CaputoIntegralFormatting.IntegralHigherOrder | src/main/java/com/trbaxter/github/fractionalcomputationapi/service/integration/caputo/CaputoIntegralFormattingService.java:33-37 | a whole order n ≥ 2 appends n constants; n is the order itself when it fits in an int and 2^31 − 1 above that |
| CaputoIntegralFormatting.UnitReciprocal | src/main/java/com/trbaxter/github/fractionalcomputationapi/service/integration/caputo/CaputoIntegralFormattingService.java:58-81 | 1/1 at three places is 1.000, which equals one and is left out |
| CaputoIntegralFormatting.UnitConstants | src/main/java/com/trbaxter/github/fractionalcomputationapi/service/integration/caputo/CaputoIntegralFormattingService.java:52-90 | for n = 2 with Γ(2) = Γ(1) = 1 the constants are written "Cx" and "D" |
| CaputoIntegralFormatting.SecondOrderConstants | src/test/java/com/trbaxter/github/fractionalcomputationapi/testdata/integral/CaputoIntegrationTestData.java:40 | after "0.500x^2" the second-order constants give "0.500x^2 + Cx + D" |
| CaputoIntegralFormatting.ZeroPolynomialRepeatsConstant | src/main/java/com/trbaxter/github/fractionalcomputationapi/service/integration/caputo/CaputoIntegralFormattingService.java:30-45 | as written, a polynomial whose coefficients all round to zero, with order one or a fractional order, prints "C + C" |
| CaputoIntegralFormatting.CorrectedIntegralTextMeaning | src/main/java/com/trbaxter/github/fractionalcomputationapi/service/integration/caputo/CaputoIntegralFormattingService.java:30-45 | corrected: a zero polynomial prints the constants alone, "C" for order one or a fractional order; every other input prints as the source does |
| RiemannLiouvilleFormatting.SignText | src/main/java/com/trbaxter/github/fractionalcomputationapi/service/derivation/riemann_liouville/RiemannLiouvilleFormattingService.java:21-33 | the first term has "-" exactly when negative and nothing otherwise; a later term has " + " exactly when positive and " - " exactly when not |
| RiemannLiouvilleFormatting.Shown | src/main/java/com/trbaxter/github/fractionalcomputationapi/service/derivation/riemann_liouville/RiemannLiouvilleFormattingService.java:19-32 | the number printed has no trailing zeros. It is the magnitude of the coefficient when a sign was written, and the coefficient otherwise |
| RiemannLiouvilleFormatting.AppendTerm | src/main/java/com/trbaxter/github/fractionalcomputationapi/service/derivation/riemann_liouville/RiemannLiouvilleFormattingService.java:15-48 | one pass of the loop extends the text by the sign, coefficient and variable part that TermText describes, with "first" meaning index 0 |
| RiemannLiouvilleFormatting.FormatTerms | src/main/java/com/trbaxter/github/fractionalcomputationapi/service/derivation/riemann_liouville/RiemannLiouvilleFormattingService.java:12-54 | formatTerms is "0" for the empty list and otherwise the texts of all terms in order, the first written as first |
| RiemannLiouvilleFormatting.TermTextNonEmpty | src/main/java/com/trbaxter/github/fractionalcomputationapi/service/derivation/riemann_liouville/RiemannLiouvilleFormattingService.java:21-47 | every term adds text, even one whose coefficient is zero |
| RiemannLiouvilleFormatting.RenderedEmpty | src/main/java/com/trbaxter/github/fractionalcomputationapi/service/derivation/riemann_liouville/RiemannLiouvilleFormattingService.java:50-52 | the loop's text is empty exactly for the empty list, so the "0" fallback is taken only for it; a non-empty list can still print "0", for instance a single term that rounds to zero at power 0 |
| RiemannLiouvilleFormatting.FormattedTermsMeaning | src/main/java/com/trbaxter/github/fractionalcomputationapi/service/derivation/riemann_liouville/RiemannLiouvilleFormattingService.java:13-53 | "0" for no terms; otherwise the first term written as a first term, followed by every other term in order written as a later term |
| RiemannLiouvilleFormatting.TermTextMeaning | src/main/java/com/trbaxter/github/fractionalcomputationapi/service/derivation/riemann_liouville/RiemannLiouvilleFormattingService.java:16-38 | sign and coefficient read back as the coefficient rounded half-up to three places; the coefficient is left out exactly for magnitude one in front of a non-zero power |
| RiemannLiouvilleFormatting.NumeralMeaning | src/main/java/com/trbaxter/github/fractionalcomputationapi/service/derivation/riemann_liouville/RiemannLiouvilleFormattingService.java:21-38 | for any rounded coefficient, sign and written coefficient read back as its value, and the coefficient is left out exactly for a unit in front of a non-zero power |
| RiemannLiouvilleFormatting.MagnitudeMeaning | src/main/java/com/trbaxter/github/fractionalcomputationapi/service/derivation/riemann_liouville/RiemannLiouvilleFormattingService.java:19-32 | the coefficient text is not empty and reads back as the coefficient, or as its magnitude after a written sign |
| RiemannLiouvilleFormatting.NumeralStripped | src/main/java/com/trbaxter/github/fractionalcomputationapi/service/derivation/riemann_liouville/RiemannLiouvilleFormattingService.java:19-32 | a written coefficient has a point exactly when the rounded value is not whole, and then does not end in '0' |
| RiemannLiouvilleFormatting.TermTextCanonical | src/main/java/com/trbaxter/github/fractionalcomputationapi/service/derivation/riemann_liouville/RiemannLiouvilleFormattingService.java:16-47 | terms whose coefficients round to the same value and whose powers are equal are written alike |
| RiemannLiouvilleFormatting.ZeroLaterTerm | src/main/java/com/trbaxter/github/fractionalcomputationapi/service/derivation/riemann_liouville/RiemannLiouvilleFormattingService.java:21-37 | a later term whose coefficient rounds to zero is written " - 0" before its variable part |

## Left out

- `MathUtils.gamma` is not part of this model. It is a parameter of type `Decimal -> Option<Decimal>`, and `None` stands for a call that throws.
- `BigDecimal.divide(x, MathContext.DECIMAL128)` (34 significant digits) is a parameter of the derivative computation. Only its use, with a non-zero divisor, is modelled.
- Logging in `computeFractionalOrderDerivativeTerms` is left out. It does not affect the result.
- Exceptions are `None` results. This covers gamma failing in the integral printer and a zero gamma value in its division. In the fractional derivative, the source catches them and skips the term, and so does the model.
- Each `StringBuilder` and `List` is a local value the methods return. Aliasing of the caller's list in `computeIntegerOrderDerivativeTerms` and `computeFractionalOrderDerivativeTerms` is not modelled.
- The `double` order of the integral printer is taken as the decimal that `BigDecimal.valueOf(double)` yields. NaN and infinities have no decimal and are left out. `(int) alpha` is truncation with saturation to the int range.
- CaputoIntegralFormatting.ConstantName: a code unit in the surrogate range D800–DFFF is not a Dafny `char` on its own, so it becomes U+FFFD. This needs more than 55 000 constants.
- `String.matches("0{" + precision + "}")` with a negative precision would throw a pattern error in Java. The model treats that case as no match, and `setScale` with a negative precision gives a text without a point, so the test is never reached.
- CaputoIntegrationTestData.java expects "0.5Cx^2" on line 41 and "0.5Ex^2" on line 42. The code appends the coefficient string with its zeros kept (only an all-zero fraction is dropped), so it gives "0.500Cx^2" and "0.500Ex^2". The model follows the code. The other coefficients on those lines, such as "0.042C", agree with the code.
- `BigDecimal` keeps its scale in a 32-bit int, and `multiply` and `setScale` throw `ArithmeticException` when the scale overflows. `Decimal.scale` is an unbounded integer, so that overflow and its exception are not modelled.
- CaputoDerivativeServiceTest.java builds the service with no arguments and expects "- 4.515x^1.5" for a leading negative term. That is not the API of the classes modelled here, and it is not used as a reference.

## Findings

| source | as written | input that shows it | evidently intended | confidence | as-written member | corrected member |
|---|---|---|---|---|---|---|
| src/main/java/com/trbaxter/github/fractionalcomputationapi/service/integration/caputo/CaputoIntegralFormattingService.java:30-45 | The zero polynomial is printed as "C" by the shared printer, and then " + C" is appended for order one or a fractional order | terms [0·x^1], order 1.0 (or 0.5), any precision, giving "C + C" | a single constant "C" | not executed | CaputoIntegralFormatting.ZeroPolynomialRepeatsConstant | CaputoIntegralFormatting.CorrectedIntegralTextMeaning |
