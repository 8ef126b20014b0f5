# Fraction: a verified model

The Drupal `fraction` module stores a number as a numerator and a
denominator, so that decimal values survive storage without any loss.
This project models the module's arithmetic and the three ways values
enter it:
- the form elements;
- the field constraint;
- the Feeds and migrate importers.

It also proves what each of them promises.

The modules follow the repository's files:

| module | models |
|---|---|
| `FractionValue` | `src/Fraction.php` as an immutable value. It covers normalisation on construction, gcd, reduce, reciprocate, the four operations, `createFromDecimal`, `isTerminating`, `terminatingPrecision` and `toDecimal` with its auto precision and `bcRound`. |
| `FractionObject` | The same class as an object. Every method returns a fresh `Fraction`. The loops of Euclid's algorithm and of the factor stripping in `isTerminating` are `while` loops proved against `FractionValue`. The recursive `terminatingPrecision` stays the function `FractionValue.TerminatingPrecision`. |
| `LegacyFraction` | `lib/Drupal/fraction/Fraction.php`, the Drupal 7 class. Its operations mutate `$this`, and `divide` also reciprocates its argument. |
| `FractionElement` | The `fraction` form element (`src/Element/Fraction.php`). |
| `FractionDecimalElement` | The `fraction_decimal` form element (`src/Element/FractionDecimal.php`), including `checkInBounds`. |
| `FractionConstraint` | The field constraint validator. |
| `FractionTarget` | The Feeds target's `prepareValue`. |
| `DecimalFraction` | The migrate process plugin. |
| `Form` | The part of Drupal's form state that the elements use: the errors, at most one per element and keyed by the element's name, and `setValueForElement`. |
| `FieldLimits` | The storage limits: a signed 64-bit numerator, a denominator up to 2147483647, at most 9 decimals. It also covers the string comparisons that enforce them. |

The PHP runtime is given meaning by specification functions:
- `Php`: `trim`, `explode`, `empty`, `is_numeric`, `(string)` casts, and the comparison of two strings. Two numeric strings compare as numbers; any other pair compares byte by byte.
- `BcMath`: bcmath decimals as an unscaled integer with a scale. Results are computed exactly and then truncated toward zero, and printed with `scale` digits after the dot.
- `Digits`: decimal digit strings.
- `Euclid`: divisibility, the gcd, and the factors 2 and 5 of a denominator.
- `Arith`: truncating division and powers.

A fraction's numerator and denominator are PHP strings. In the model they are integers, and the printed form is `Digits.IntToString`. Fraction values are compared through `Value()`, their exact rational value.

## Model

| member | source | states |
|---|---|---|
| FractionValue.New | src/Fraction.php:32-35 | the constructor always yields a valid fraction with a positive denominator. A zero denominator gives 0/1; otherwise the value is n/d and the denominator is \|d\| |
| FractionValue.Fraction.SetDenominator | src/Fraction.php:78-99 | setting the denominator keeps the fraction valid. Zero resets the fraction to 0/1; a negative denominator flips both signs, so the value is numerator/v |
| FractionExamples.NormalisationExamples | tests/src/Unit/FractionTest.php:47-79 | 1/2 prints as "1/2" and "1:2"; 1/0 prints as "0/1"; -1/2, 1/-2 and -1/-2 print as "-1/2", "-1/2" and "1/2" |
| FractionValue.Fraction.Gcd | src/Fraction.php:185-213 | the gcd of a valid fraction is positive |
| Euclid.GcdDivides | src/Fraction.php:185-213 | Euclid's algorithm yields a common divisor of numerator and denominator |
| Euclid.GcdGreatest | src/Fraction.php:185-213 | every common divisor divides the algorithm's result, so the result is the greatest one |
| FractionObject.Fraction.Gcd | src/Fraction.php:185-213 | the loop over bcmod computes exactly the gcd of the fraction's parts |
| FractionValue.Fraction.Reduce | src/Fraction.php:218-240 | reduce yields a fraction in lowest terms with the same value; 0/d reduces to 0/1 |
| FractionValue.ReduceResult | src/Fraction.php:218-240 | dividing both parts by the gcd gives a reduced fraction of equal value, and passing them through the constructor changes nothing |
| FractionValue.ReduceIdempotent | src/Fraction.php:218-240 | reducing twice is the same as reducing once |
| FractionValue.ReduceCanonical | src/Fraction.php:218-240 | two fractions reduce to the same fraction if and only if they have the same value |
| FractionValue.SameValueIff | src/Fraction.php:218-240 | two valid fractions have equal values if and only if their cross products are equal |
| FractionValue.Fraction.Reciprocate | src/Fraction.php:245-253 | the reciprocal of a non-zero fraction times the fraction is 1, with denominator \|numerator\|; 0 stays 0/1 |
| FractionValue.ReciprocateInvolution | src/Fraction.php:245-253 | reciprocating a non-zero fraction twice gives it back unchanged |
| FractionExamples.ReciprocateExamples | tests/src/Unit/FractionTest.php:161-171 | 1/2 reciprocates to 2/1 and 0/1 to 0/1 |
| FractionValue.Fraction.CrossAdd | src/Fraction.php:258-281 | the cross-multiplied sum is valid and its value is the sum of the values |
| FractionValue.Fraction.CrossSubtract | src/Fraction.php:286-309 | the cross-multiplied difference is valid and its value is the difference of the values |
| FractionValue.Fraction.CrossMultiply | src/Fraction.php:314-337 | the product of the parts is valid and its value is the product of the values |
| FractionValue.Fraction.Add | src/Fraction.php:258-281 | add returns the sum in lowest terms |
| FractionValue.Fraction.Subtract | src/Fraction.php:286-309 | subtract returns the difference in lowest terms |
| FractionValue.Fraction.Multiply | src/Fraction.php:314-337 | multiply returns the product in lowest terms |
| FractionValue.Fraction.Divide | src/Fraction.php:342-368 | divide returns a reduced fraction; dividing by zero gives 0/1 |
| FractionValue.DivideValue | src/Fraction.php:342-368 | dividing by a non-zero fraction gives the quotient of the values |
| FractionValue.DivideCross | src/Fraction.php:342-368 | dividing by a non-zero fraction is multiplying by its reciprocal, routed through the constructor and reduced |
| FractionValue.ZeroProduct | src/Fraction.php:314-337 | multiplying by 0/1 gives 0/1 |
| FractionExamples.ArithmeticExamples | tests/src/Unit/FractionTest.php:141-160 | 1/2+1/3 = 5/6, 2/3-1/7 = 11/21, 2/5·1/4 = 1/10, 5/7÷1/5 = 25/7 |
| FractionExamples.ReduceExample | tests/src/Unit/FractionTest.php:131-140 | the gcd of 5/10 is 5 and it reduces to 1/2 |
| FractionValue.Fraction.IsTerminating | src/Fraction.php:376-386 | true if and only if 10^e is a multiple of the reduced denominator, where e is the larger of its exponents of 2 and 5 |
| FractionValue.IsTerminatingIff | src/Fraction.php:376-386 | a fraction terminates if and only if some power of ten is a multiple of its reduced denominator, and a large enough power always is |
| Euclid.TerminatingShape | src/Fraction.php:376-386 | a denominator the loops reduce to 1 is 2^i·5^j, with i and j the numbers of 2s and 5s they strip |
| Euclid.TerminatingPowers | src/Fraction.php:376-386 | conversely, every 2^i·5^j is reduced to 1 by the loops, so the terminating denominators are exactly these products |
| Euclid.TerminatingIff | src/Fraction.php:376-386 | stripping every 2 and 5 from a denominator leaves 1 exactly when 10^e is a multiple of it, where e is the larger of the two exponents |
| Euclid.StripFactor | src/Fraction.php:379-384 | dividing out a factor while it divides leaves a positive number that the factor no longer divides |
| Euclid.StripFactorSplit | src/Fraction.php:379-384 | the number is the removed power of the factor times what is left |
| FractionObject.Fraction.IsTerminating | src/Fraction.php:376-386 | the loops that divide out 2 and 5 decide exactly whether the fraction terminates |
| FractionValue.TerminatingPrecision | src/Fraction.php:400-408 | the search returns the first exponent at or after the start whose power of ten is a multiple of the denominator |
| FractionObject.Fraction.MaxPrecision | src/Fraction.php:138-164 | the auto-precision branch chain computes the same precision as the value model |
| FractionValue.ToDecimalRounds | src/Fraction.php:131-180 | toDecimal prints the quotient rounded half away from zero at the chosen precision, which is never below the one asked for. The rounded integer is the unique one within half a unit of n·10^p/d |
| FractionValue.RoundedDecimalRounds | src/Fraction.php:165-174 | bcdiv at one extra digit followed by bcRound gives the half-away-from-zero rounding of n/d at precision p |
| FractionValue.RoundHalfAwayUnique | src/Fraction.php:421-426 | exactly one integer meets the half-away-from-zero rounding condition, and it is the one the model computes |
| FractionValue.AutoPrecisionExact | src/Fraction.php:138-164 | with auto precision, a terminating fraction whose denominator is not a multiple of 10 is printed exactly, with no rounding |
| FractionValue.TerminatingExactAt | src/Fraction.php:152-155 | at terminatingPrecision of the reduced denominator or beyond, the rounded value times the denominator is exactly n·10^p |
| FractionValue.AutoPrecisionOfPowerOfTen | src/Fraction.php:142-144 | a denominator 10^k gives auto precision k |
| FractionValue.PowerOfTenToDecimal | src/Fraction.php:131-180 | n/10^k with auto precision prints the bcmath decimal n·10^-k |
| FractionValue.Fraction.ToDecimal | src/Fraction.php:131-180 | prints a number string that reads back as the quotient rounded half away from zero, at the precision DecimalPrecision chooses |
| FractionValue.Fraction.DecimalPrecision | src/Fraction.php:131-164 | without auto precision, the precision asked for; with it, the larger of that and the auto precision |
| FractionValue.BcRound | src/Fraction.php:421-426 | the result has the requested scale. On a value with one digit more, the magnitude gains 5 in that digit and is truncated, so it rounds half away from zero, and the sign is kept |
| FractionValue.Fraction.ToString | src/Fraction.php:118-126 | the numerator, the separator and the denominator. With '/' explode splits the text back into the two parts |
| FractionObject.Fraction.ToString | src/Fraction.php:118-126 | the object's text is the value model's ToString |
| FractionObject.Fraction.ToDecimal | src/Fraction.php:131-180 | the object's toDecimal prints what the value model prints |
| FractionExamples.HalfAtOneDigit | tests/src/Unit/FractionTest.php:80-84 | 1/2 at precision 1 prints "0.5" |
| FractionExamples.HalfAtNoDigits | tests/src/Unit/FractionTest.php:85-89 | 1/2 at precision 0 rounds to "1" |
| FractionExamples.TwoFifthsAtNoDigits | tests/src/Unit/FractionTest.php:90-94 | 2/5 at precision 0 rounds to "0" |
| FractionExamples.ThousandthAuto | tests/src/Unit/FractionTest.php:95-99 | 1/1000 with auto precision and a minimum of 2 prints "0.001" |
| FractionExamples.WholeAuto | tests/src/Unit/FractionTest.php:100-104 | 3/1 with auto precision prints "3" |
| FractionExamples.EighthAuto | tests/src/Unit/FractionTest.php:105-109 | 1/8 with auto precision prints "0.125" |
| FractionExamples.EighthPrecision | src/Fraction.php:152-155 | the auto precision of 1/8 is 3 |
| FractionExamples.RepeatingPrecision | src/Fraction.php:158-161 | a repeating 1/3 or 1/6 gets the denominator's length as precision, and the minimum 3 wins |
| FractionExamples.SixthAuto | tests/src/Unit/FractionTest.php:116-120 | 1/6 with auto precision and a minimum of 3 prints "0.167" |
| FractionExamples.ThirdAuto | tests/src/Unit/FractionTest.php:121-125 | 1/3 with auto precision and a minimum of 3 prints "0.333" |
| FractionValue.CreateFromDecimal | src/Fraction.php:40-62 | a decimal string with k digits after its last dot becomes its digits over 10^k |
| FractionObject.Fraction.CreateFromDecimal | src/Fraction.php:40-62 | the static factory returns a fresh valid object holding the decimal's digits over 10^k |
| FractionValue.CreateFromDecimalValue | src/Fraction.php:40-62 | createFromDecimal gives a valid fraction whose value is the decimal's value |
| FractionValue.CreateFromDecimalRoundTrip | src/Fraction.php:40-62 | createFromDecimal followed by toDecimal(0, TRUE) prints the decimal in bcmath's form, with its own number of decimals |
| FractionValue.DecimalRoundTrip | src/Fraction.php:40-62 | every bcmath-printed decimal survives createFromDecimal then toDecimal(0, TRUE) unchanged |
| Php.CharsAfterLastDotOfNumber | src/Fraction.php:43 | counting the characters after the last dot of a number string gives its number of decimals |
| FractionExamples.CreateFromDecimalExample | tests/src/Unit/FractionTest.php:126-130 | "0.5" becomes 5/10 and prints as "5/10" |
| FractionExamples.DecimalSumExample | tests/src/Unit/FractionTest.php:172-176 | 0.1 + 0.2 is exactly 3/10 and prints as "0.3" |
| FractionExamples.DecimalDifferenceExample | tests/src/Unit/FractionTest.php:177-181 | 3 − 2.99 is exactly 1/100 and prints as "0.01" |
| FractionValue.Fraction.AutoPrecision | src/Fraction.php:142-144 | modelled as written: a denominator that is a multiple of 10 gets its length minus one as precision (see Findings) |
| FractionValue.AutoPrecisionCounterexample | src/Fraction.php:142-144 | 1/20 terminates, yet toDecimal(0, TRUE) prints "0.1"; the exact decimal is "0.05" |
| FractionValue.AutoPrecisionAgreesOnPowersOfTen | src/Fraction.php:140-144 | on denominators that are powers of ten, the branch as written and the intended one agree |
| FractionValue.OneTwentiethPrecisions | src/Fraction.php:142-144 | 1/20 gets auto precision 1 as written and 2 as intended |
| FractionValue.IntendedAutoPrecisionExact | src/Fraction.php:140-144 | with the base-10 branch limited to powers of ten, every terminating fraction is printed exactly |
| FractionObject.Fraction.constructor | src/Fraction.php:32-35 | a new object holds the normalised fraction of its arguments |
| FractionObject.Fraction.SetNumerator | src/Fraction.php:67-73 | only the numerator changes |
| FractionObject.Fraction.SetDenominator | src/Fraction.php:78-99 | the object holds the value model's SetDenominator of its old state |
| FractionObject.Fraction.Reduce | src/Fraction.php:218-240 | a fresh object holding the reduced fraction |
| FractionObject.Fraction.Reciprocate | src/Fraction.php:245-253 | a fresh object holding the reciprocal |
| FractionObject.Fraction.Add | src/Fraction.php:258-281 | a fresh object holding the reduced sum |
| FractionObject.Fraction.Subtract | src/Fraction.php:286-309 | a fresh object holding the reduced difference |
| FractionObject.Fraction.Multiply | src/Fraction.php:314-337 | a fresh object holding the reduced product |
| FractionObject.Fraction.Divide | src/Fraction.php:342-368 | a fresh object holding the reduced quotient |
| LegacyFraction.Fraction.constructor | lib/Drupal/fraction/Fraction.php:29-34 | the object holds the normalised fraction of its arguments |
| LegacyFraction.Fraction.SetNumerator | lib/Drupal/fraction/Fraction.php:45-51 | only the numerator changes, and the object itself is returned |
| LegacyFraction.Fraction.SetDenominator | lib/Drupal/fraction/Fraction.php:62-83 | normalises as in the current class and returns the object itself |
| LegacyFraction.Fraction.ToString | lib/Drupal/fraction/Fraction.php:114-122 | the object's text is the value model's ToString; with '/' it splits back into the two parts |
| LegacyFraction.Fraction.SetParts | lib/Drupal/fraction/Fraction.php:186-187 | the setNumerator and setDenominator pair every operation ends with leaves the object valid, holding new Fraction(n, d)'s normalised pair |
| LegacyFraction.Fraction.ToDecimal | lib/Drupal/fraction/Fraction.php:133-153 | prints the quotient rounded half away from zero at the given precision |
| LegacyFraction.Fraction.FromDecimal | lib/Drupal/fraction/Fraction.php:164-190 | overwrites the object with the decimal's digits over 10^k |
| LegacyFraction.Fraction.Gcd | lib/Drupal/fraction/Fraction.php:198-226 | computes the gcd of the parts |
| LegacyFraction.Fraction.Reduce | lib/Drupal/fraction/Fraction.php:234-259 | reduces the object in place |
| LegacyFraction.Fraction.Reciprocate | lib/Drupal/fraction/Fraction.php:267-278 | reciprocates the object in place |
| LegacyFraction.Fraction.Add | lib/Drupal/fraction/Fraction.php:289-313 | replaces the object by the unreduced cross sum |
| LegacyFraction.Fraction.Subtract | lib/Drupal/fraction/Fraction.php:324-348 | replaces the object by the unreduced cross difference |
| LegacyFraction.Fraction.Multiply | lib/Drupal/fraction/Fraction.php:359-383 | replaces the object by the unreduced product |
| LegacyFraction.Fraction.Divide | lib/Drupal/fraction/Fraction.php:394-421 | modelled as written: the argument is reciprocated in place. When the argument is the object itself, the object ends up as the square of its own reciprocal |
| LegacyFraction.SelfDivisionValue | lib/Drupal/fraction/Fraction.php:394-421 | for any non-zero fraction, the square of its reciprocal, which in-place self-division leaves, has a value whose product with the square of the original value is 1 |
| LegacyFraction.SelfDivisionCounterexample | lib/Drupal/fraction/Fraction.php:394-421 | 2/3 divided by itself gives 9/4, not 1 |
| LegacyFraction.Fraction.DivideBy | lib/Drupal/fraction/Fraction.php:394-421 | division that leaves its argument alone: the object becomes itself times the argument's reciprocal |
| LegacyFraction.QuotientValue | lib/Drupal/fraction/Fraction.php:394-421 | multiplying by the reciprocal of a non-zero fraction gives the quotient of the values |
| FractionElement.ProcessElement | src/Element/Fraction.php:62-95 | a default that is set but not an array with both keys is rejected. Otherwise the children receive its numerator and denominator, or nothing when no default is set |
| FractionElement.ErrorList | src/Element/Fraction.php:102-122 | each error is present if and only if its check failed, and errors appear in the order of the checks. There are no errors exactly when every check passes, and the first error is that of the first failed check |
| FractionElement.FractionErrors | src/Element/Fraction.php:102-122 | the denominator error is set exactly for an empty() denominator under a non-empty() numerator; each range error exactly for a non-empty() part that fails its string comparison |
| FractionElement.ValidateDefaultValue | src/Element/Fraction.php:133-141 | holds exactly for an array with both a numerator and a denominator key; `FractionElement.ProcessElement` states what processElement does with it |
| FractionElement.ValidateFraction | src/Element/Fraction.php:102-122 | the three checks call setError on the element in turn. An element without an earlier error ends with the error of the first failed check, or none; an element with one keeps it. Other elements and the value are left alone |
| FractionElement.RecordedFractionError | src/Element/Fraction.php:106-121 | for integer inputs, the element ends with the denominator error when d = 0 and n ≠ 0; otherwise with the numerator error when n is outside the signed 64-bit range; otherwise with the denominator-range error when d < 0 or d > 2147483647; otherwise with no error |
| FractionElement.FractionErrorsOfIntegers | src/Element/Fraction.php:106-121 | for integer inputs: the denominator error means d = 0 with n ≠ 0; the numerator error means n is outside the signed 64-bit range; the denominator-range error means d < 0 or d > 2147483647 |
| FractionElement.ZeroNumeratorPasses | src/Element/Fraction.php:106-121 | a zero numerator over any denominator in range raises no error |
| FieldLimits.NumeratorBeyondRange | src/Element/Fraction.php:113 | the two string comparisons with the 64-bit bounds; `FieldLimits.NumeratorBeyondRangeOfInt` states what they mean |
| FieldLimits.DenominatorBeyondRange | src/Element/Fraction.php:119 | the two string comparisons with '0' and '2147483647'; `FieldLimits.DenominatorBeyondRangeOfInt` states what they mean |
| FieldLimits.DenominatorBeyondDecimals | src/Element/FractionDecimal.php:99 | the string comparison with '1000000000'; `FieldLimits.DenominatorBeyondDecimalsOfInt` states what it means |
| FieldLimits.CompareWithBound | src/Element/Fraction.php:113 | comparing a number string with a bound's text compares the number with the bound |
| FieldLimits.CompareIntegers | src/Element/Fraction.php:113 | two printed integers compare as the integers |
| FieldLimits.NumeratorBeyondRangeOfInt | src/Element/Fraction.php:113 | the numerator string check rejects exactly the integers outside −9223372036854775808..9223372036854775807 |
| FieldLimits.DenominatorBeyondRangeOfInt | src/Element/Fraction.php:119 | the denominator string check rejects exactly d ≤ 0 and d > 2147483647 |
| FieldLimits.DenominatorBeyondDecimalsOfInt | src/Element/FractionDecimal.php:99 | the decimals check rejects exactly denominators above 1000000000 |
| FieldLimits.EmptyIntString | src/Element/Fraction.php:107 | a printed integer is empty() exactly when it is 0 |
| FractionDecimalElement.ValidateDecimal | src/Element/FractionDecimal.php:66-116 | an empty input changes nothing, and an invalid number only sets the number error on the element, unless it already has an error. An error on any element stops validation. Otherwise the element stores the decimal's fraction and ends with the first of the decimals and range errors, or none |
| FractionDecimalElement.ConvertAndCheck | src/Element/FractionDecimal.php:83-115 | stores decimal, numerator and denominator, and calls setError on the element with the errors of the decimal in turn |
| FractionDecimalElement.RecordedDecimalError | src/Element/FractionDecimal.php:97-115 | on an element without an earlier error, a decimal with more than 9 decimals leaves the decimals error; otherwise digits outside the signed 64-bit range leave the range error; otherwise nothing |
| FractionDecimalElement.DecimalErrors | src/Element/FractionDecimal.php:97-115 | the decimals check on the converted denominator, then the range check on the printed fraction; `FractionDecimalElement.DecimalErrorsMeaning` states what each means |
| FractionDecimalElement.Conversion | src/Element/FractionDecimal.php:83-94 | the stored numerator and denominator are the decimal's digits and 10^(decimals) |
| FractionDecimalElement.DecimalErrorsMeaning | src/Element/FractionDecimal.php:97-115 | the decimals error means more than 9 decimals; the range error means the digits, read as an integer, lie outside the signed 64-bit range |
| FractionDecimalElement.ErrorPair | src/Element/FractionDecimal.php:97-115 | each error is present if and only if its check failed. There are none exactly when both checks pass, and the decimals error comes first |
| FractionDecimalElement.CheckInBounds | src/Element/FractionDecimal.php:156-186 | in bounds if and only if a difference is zero, or the difference from the minimum is positive and the one from the maximum negative |
| FractionDecimalElement.CheckInBoundsExact | src/Element/FractionDecimal.php:156-186 | read at the scale, the result means value = min, value = max, or strictly between them |
| FractionDecimalElement.CheckInBoundsOrdered | src/Element/FractionDecimal.php:156-186 | with ordered bounds, in bounds means min ≤ value ≤ max |
| FractionDecimalElement.BoundText | src/Element/FractionDecimal.php:107-110 | the printed bound is a number string |
| FractionDecimalElement.BoundDecimal | src/Element/FractionDecimal.php:107-110 | the bound is built as a Fraction object and printed with auto precision |
| FractionDecimalElement.RangeCheck | src/Element/FractionDecimal.php:106-112 | the object's printed decimal is a number, and the check gives the range predicate of it |
| FractionDecimalElement.InRangeIs | src/Element/FractionDecimal.php:106-112 | checkInBounds at scale strlen(denominator) − 1 on the printed bounds is the range predicate |
| FractionDecimalElement.InRangeOfPowerOfTen | src/Element/FractionDecimal.php:103-115 | for a decimal with k digits after the dot, the range check accepts exactly the digit integers in the signed 64-bit range |
| FractionDecimalElement.DigitLimit | src/Element/FractionDecimal.php:97-101 | the denominator 10^k is beyond the decimals limit exactly when k > 9 |
| FractionDecimalElement.PrintedIsNumber | src/Element/FractionDecimal.php:106 | toDecimal always prints a number string |
| FractionDecimalElement.TenDecimalsExample | tests/src/Functional/FractionFieldTest.php:150-156 | 10.1234567891 has too many decimals and is within range |
| FractionConstraint.FailedChecks | src/Plugin/Validation/Constraint/FractionConstraintValidator.php:16-37 | the failed checks are listed without repetition |
| FractionConstraint.Validate | src/Plugin/Validation/Constraint/FractionConstraintValidator.php:16-37 | no violation if and only if no check fails; otherwise the first failed check is the only violation |
| FractionConstraint.ValidateIntegers | src/Plugin/Validation/Constraint/FractionConstraintValidator.php:21-36 | for integer inputs, each violation is characterised exactly in terms of n and d, and 0/0 passes |
| FractionConstraint.AgreesWithElement | src/Plugin/Validation/Constraint/FractionConstraintValidator.php:21-32 | the validator passes exactly when the form element raises no error and the denominator is within the decimals limit |
| FractionConstraint.AcceptedExamples | tests/src/Kernel/Plugin/Constraints/FractionConstraintTest.php:78-113 | 1/1, 1/123456 and 92233720368547758/1 pass |
| FractionConstraint.RejectedExamples | tests/src/Kernel/Plugin/Constraints/FractionConstraintTest.php:78-113 | 1/0, 1/2147483649, 9223372036854775808/1 and −9223372036854775809/1 each make the validator add one violation: denominator not zero, denominator out of range, numerator out of range, numerator out of range |
| FractionTarget.ItemValues.constructor | src/Feeds/Target/FractionTarget.php:67 | the target's values hold the imported entries |
| FractionTarget.ImportedItem | src/Feeds/Target/FractionTarget.php:68 | a string value is trimmed and any other value is kept as is |
| FractionTarget.SegmentFields | src/Feeds/Target/FractionTarget.php:76-83 | the first two segments are kept only when both are non-empty numbers and the second is not negative; otherwise both fields are empty |
| FractionTarget.FractionFields | src/Feeds/Target/FractionTarget.php:74 | anything but a string imports as an empty fraction |
| FractionTarget.PrepareValue | src/Feeds/Target/FractionTarget.php:67-101 | 'value' is removed, and numerator and denominator are set from the chosen import type |
| FractionTarget.FractionBranch | src/Feeds/Target/FractionTarget.php:72-84 | the fraction branch computes the fraction fields |
| FractionTarget.DecimalBranch | src/Feeds/Target/FractionTarget.php:86-99 | the decimal branch computes the migrate transform's fields |
| FractionTarget.FractionRoundTrip | src/Feeds/Target/FractionTarget.php:68-84 | a non-zero fraction printed with '/' imports back as its own numerator and denominator |
| FractionTarget.ExtraSegmentsIgnored | src/Feeds/Target/FractionTarget.php:74-79 | segments after the second are ignored |
| FractionTarget.ZeroNumeratorRejected | src/Feeds/Target/FractionTarget.php:76 | a "0" numerator is empty() and imports as an empty fraction |
| FractionTarget.NegativeDenominatorRejected | src/Feeds/Target/FractionTarget.php:76 | a negative denominator imports as an empty fraction |
| FractionTarget.OneTenthExample | tests/src/Unit/Feeds/Target/FractionTargetTest.php:36-39 | "1/10" imports as 1 and 10 |
| FractionTarget.DecimalExample | tests/src/Unit/Feeds/Target/FractionTargetTest.php:54-57 | the decimal 0.55 imports as 55 and 100 |
| FractionTarget.DecimalImportOfFloat | src/Feeds/Target/FractionTarget.php:86-99 | a decimal value imports as its digits over 10^(decimals) |
| Php.ImplodeExplode | src/Feeds/Target/FractionTarget.php:74 | joining the pieces of explode back with the separator gives the string back |
| Php.Explode | src/Feeds/Target/FractionTarget.php:74 | explode gives at least one piece, and no piece holds the separator |
| Php.Trim | src/Feeds/Target/FractionTarget.php:68 | trim gives a slice of the input that neither starts nor ends with whitespace |
| DecimalFraction.Transform | src/Plugin/migrate/process/DecimalFraction.php:34-49 | a non-numeric value gives empty fields; a numeric one gives its digits over 10^(decimals) |
| DecimalFraction.TransformRoundTrip | src/Plugin/migrate/process/DecimalFraction.php:41-47 | the imported fraction prints back with auto precision as the decimal it came from |
| DecimalFraction.NumbersAreNotAbsent | src/Plugin/migrate/process/DecimalFraction.php:35-48 | every numeric value gives a non-empty denominator |
| DecimalFraction.HalfExample | tests/src/Unit/process/DecimalFractionTest.php:43-49 | 0.5 gives 5 and 10 |
| DecimalFraction.MinusOneExample | tests/src/Unit/process/DecimalFractionTest.php:50-56 | −1 gives −1 and 1 |
| DecimalFraction.ZeroExample | tests/src/Unit/process/DecimalFractionTest.php:57-63 | 0 gives 0 and 1 |
| DecimalFraction.NonNumericExamples | tests/src/Unit/process/DecimalFractionTest.php:64-77 | '' and 'test' give empty fields |
| BcMath.ParseToString | src/Fraction.php:421-426 | every bcmath result is a number string that reads back as itself, with scale digits after the dot |
| BcMath.BcSubExact | src/Element/FractionDecimal.php:164-165 | bcsub of operands whose scales fit the scale is exact |
| BcMath.BcDiv | src/Fraction.php:167 | bcdiv truncates the exact quotient at the requested scale |
| Form.FormState.SetError | src/Element/Fraction.php:108 | the error is recorded for the element only if the element has none yet; later errors for it are dropped. Other elements and the value are left alone |
| Form.RecordAllKeepsFirst | src/Element/Fraction.php:106-121 | several setError calls on one element leave only the first message, and only when the element had no error; other elements are untouched |
| Form.RecordAllAppend | src/Element/Fraction.php:106-121 | two groups of setError calls made one after the other record what the calls made together record |
| Form.FormState.SetValueForElement | src/Element/FractionDecimal.php:95 | the value is replaced and the errors are left alone |

## Left out

- Fallbacks for a site without bcmath. When `bcdiv`, `bcmod`, `bcpow` or `bcmul` is missing, the source uses floats; the model follows the bcmath branches only.
- bcmath itself is not modelled as code. `BcMath` gives it meaning: an exact result, truncated toward zero, printed with `scale` digits.
- Floats as inputs. A float value carries the decimal it prints as (`Php.Float`). PHP's float-to-string conversion is not modelled.
- Negative zero. bcmath can print "-0" for a negative value that truncates to zero. The model prints "0" (`BcMath.Decimal.ToString` prints the sign only for a negative unscaled value).
- `is_numeric` on leading whitespace, exponents and hexadecimal-looking strings is not modelled. A numeric string here is an optional '-' or '+' followed by digits with at most one dot (`BcMath.IsNumber`).
- FractionDecimalElement.CheckInBounds: requires its three arguments to be number strings, which is how validateDecimal calls it.
- String comparisons of numbers beyond 64 bits. PHP compares two numeric strings as integers while they fit in 64 bits and as floats beyond that. The model compares them exactly, so it differs from PHP only where a float would round.
- `$numerator * -1` in setDenominator turns a numerator beyond 64 bits into a float. The model negates exactly.
- A negative `$precision` argument to toDecimal is excluded by the type `nat`.
- The test for 1/2147483648 at auto precision (a 31-digit expansion) is not stated as a lemma, because the computation is too large for the prover. The general property is `FractionValue.AutoPrecisionExact`.
- `Number::validateNumber` is core Drupal code. Its verdict is the parameter `withinLimits` of `ValidateDecimal`, together with the check that the trimmed input is a number.
- LegacyFraction.Fraction.FromDecimal, LegacyFraction.Fraction.Gcd, LegacyFraction.Fraction.Reduce, LegacyFraction.Fraction.Add, LegacyFraction.Fraction.Subtract, LegacyFraction.Fraction.Multiply, LegacyFraction.Fraction.Divide: the legacy `bcpow`, `bcmod`, `bcmul`, `bcdiv`, `bcadd` and `bcsub` calls pass no scale and so use the site's `bcmath.scale`, which is assumed to be 0 (the default).
- FractionValue.TerminatingPrecision, FractionValue.Fraction.Gcd, FractionObject.Fraction.Gcd, FractionValue.CreateFromDecimal, FractionObject.Fraction.CreateFromDecimal: the current class also passes no scale to `bcpow(10, $precision)` in createFromDecimal, `bcmod($a, $b)` in gcd and `bcmod(bcpow(10, $exponent), $denominator)` in terminatingPrecision, and the model assumes `bcmath.scale` = 0 there too. With a non-zero scale, terminatingPrecision's `=== '0'` test never holds against "0.00", so its loop does not end; and bcpow prints "10.00", which changes the `strlen($denominator)` read by the auto precision and by validateDecimal's `$scale`.
- FractionValue.Fraction.AutoPrecision: `%` on the denominator is computed exactly. For a denominator string beyond PHP_INT_MAX, PHP's `%` works on a 64-bit integer conversion that does not keep the value, so for 1/20000000000000000000 PHP can take a different branch.
- FractionValue.Fraction.IsTerminating: `/=` and `%` on the denominator are computed exactly. Beyond PHP_INT_MAX, PHP's `/=` gives a float and its `%` works on a 64-bit integer conversion, so neither keeps the value, e.g. for 1/20000000000000000000.
- FractionObject.Fraction.IsTerminating: its loops divide exactly, with the same gap beyond PHP_INT_MAX as FractionValue.Fraction.IsTerminating.
- FractionObject.Fraction.MaxPrecision: uses exact `%` and `/=`, with the same gap beyond PHP_INT_MAX as FractionValue.Fraction.AutoPrecision.
- Default arguments: new Fraction(0, 1), toString('/'), toDecimal(0, FALSE) and the legacy toDecimal(2). Every call in the model passes each argument explicitly.
- Form.FormState: only the per-element errors and the element value are modelled. The element name stands for the element's #parents. `#limit_validation_errors` and the rest of Drupal's form state are left out.
- Widgets, formatters, views handlers, the post-update hooks, the computed properties and the migrate field plugin are out of scope. So are `getInfo` and `preRenderNumber`, which only build render arrays.
- FractionDecimalElement.TenDecimalsExample: states the decimal 10.1234567891 by its digits and scale, not by the literal string.
- FractionExamples.CreateFromDecimalExample: the test passes the float 0.5, and the model passes the string "0.5" it prints as.

## Findings

| source | as written | input that shows it | evidently intended | confidence | as-written member | corrected member |
|---|---|---|---|---|---|---|
| src/Fraction.php:142-144 | any denominator that is a multiple of 10 is treated as a power of ten, and its precision is its length minus one | 1/20 with auto precision prints "0.1", although 1/20 = 0.05 terminates | the branch the comment calls "base-10", i.e. a power of ten; other terminating denominators then take the terminatingPrecision branch and are printed exactly | not executed | FractionValue.AutoPrecisionCounterexample | FractionValue.IntendedAutoPrecisionExact |
| lib/Drupal/fraction/Fraction.php:394-421 | divide reciprocates its argument in place before multiplying | `$f->divide($f)` with f = 2/3 leaves f = 9/4, not 1; any other argument is left reciprocated | a quotient that leaves the argument unchanged | not executed | LegacyFraction.SelfDivisionCounterexample | LegacyFraction.Fraction.DivideBy |
