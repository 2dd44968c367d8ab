# Verification of the server's text, number and protocol code

This project models, in Dafny, the hardest parts of the Amadeus weather server and of the libraries it ships with, and
proves what they are meant to guarantee.

What is modelled:

- **Big integers** (`Bigits`, `Columns`, `BigintOrder`, `BigintSteps`, `Bigint`): the in-place multi-precision integer
  that the formatter uses, as a class whose bigits and word exponent the methods update. Its value is the sum of
  bigits[i] * 2^(32 * (i + exp)). Three operations do less than their names say, and the conditions are proved: the
  comparison tells apart equal numbers stored with different exponents, the aligned subtraction never passes a borrow on,
  and the comparison of a sum can be misled by a zero that carries an exponent. The callers modelled here stay clear of
  all three.
- **Exact decimal digits** (`Decimal`, `FallbackFormat`): printing a binary floating-point number with correct rounding
  by big-integer division.
- **Fast decimal digits** (`Grisu`, `WideMultiply`, `TrailingZeros`): digit generation from a 64-bit value known up to an
  error, the word products behind it, and the removal of trailing zeros by multiplication with modular inverses.
- **Floating-point numbers** (`FloatRatio`, `FloatDigits`, `FloatText`): the printer that tries the fast way and falls
  back to the exact one, and how many digits a number has.
- **Decimal text** (`IntegerText`, `Grouping`): counting, writing and reading decimal integers, and locale grouping.
- **Format strings** (`FormatString`): replacement fields and the two scanners that must mean the same. The handler is a
  parameter: it may throw on any event, and decides how far a format specifier reaches.
- **Unicode** (`Utf8`, `Utf16`): the encoder of section 3 of RFC 3629, the branchless decoder and its block reader, and
  surrogate pairs as in section 2 of RFC 2781.
- **Usage patterns** (`Docopt`): the expansion of a command-line pattern into one flat disjunction.
- **Packets** (`TcpSession`): reassembly of packets in a fixed buffer from reads of any size.
- **Flags** (`FlagNames`): printing and parsing unions of flags.
- **Outgoing messages** (`WriteQueue`): one asynchronous write at a time.

`Powers` holds the laws of powers and products that the number modules share, `Wrappers` optional values and results.

Code that changes things step by step is modelled by methods with loops, over fields and arrays where the program has
them, each proved against a function of its input; what the program promises is then proved about that function. Integer
widths are explicit: machine words are bounded numbers with the wrap-around written out, or bit vectors. Constant tables
are functions, by runs of equal entries where they have any.

A few proofs start from what callers guarantee. Numbers have no leading zero bigits, and a zero that carries an exponent
does not look longer than the number it meets. The digit generator gets a value with 32 to 60 fractional bits and an error
of one unit, as its only caller passes. A locale with a separator has a grouping. Reads bring at least one byte.

Where code and documentation disagree the model follows the code: the comment on the decoder promises an error for every
invalid sequence, but continuation bytes and bytes above 0xF7 in the place of a first byte are not reported. The comment
on the limit of 767 digits says that only zeros are left out, which holds for a number of digits but not for a number of
decimal places.

Some surprises are stated as lemmas with an input: a lone continuation byte is read as a null character, a small number
with more than nine leading zeros is taken for an overflow, and a bar at the end of a flag text is accepted. A
floating-point number printed with no digits at all is rounded at its first digit if the 64-bit value decides that digit,
and one place higher if it does not, because the exact printer then takes over: 2.75 gives 3, 2.5 gives 0. Fixed output of
more than 767 places loses digits of the numbers that have them, the smallest double for one; other output never does.

## Model

| member | source | states |
|---|---|---|
| `Columns.Accumulator.Add` | subprojects/fmt-8.0.1/include/fmt/format-inl.h:352-355 | adding a 64-bit word to the two-word accumulator adds it to the 128-bit sum exactly, as long as the sum fits 128 bits |
| `Columns.Accumulator.ShiftBigit` | subprojects/fmt-8.0.1/include/fmt/format-inl.h:356-361 | shifting the two words by 32 bits divides the 128-bit sum by 2^32 |
| `Columns.ColumnsAreProduct` | subprojects/fmt-8.0.1/include/fmt/format-inl.h:548-565 | the column sums over i + j == c, each at its weight, add up to the product: every cross product is counted once and none is missing |
| `BigintSteps.ColumnRoom` | subprojects/fmt-8.0.1/include/fmt/format-inl.h:547-560 | no column sum, with the carry from the column below, reaches 2^128 |
| `BigintClass.SumLowColumn` | subprojects/fmt-8.0.1/include/fmt/format-inl.h:551-554 | the loop over a column of the lower half adds exactly that column's cross products |
| `BigintClass.SumHighColumn` | subprojects/fmt-8.0.1/include/fmt/format-inl.h:561-562 | the loop over a column of the upper half, which starts at its first nonzero term, adds exactly that column's cross products |
| `BigintClass.Bigint.Square` | subprojects/fmt-8.0.1/include/fmt/format-inl.h:541-568 | the number becomes its exact square, in place, without leading zeros; the exponent doubles |
| `BigintClass.Bigint.Assign` | subprojects/fmt-8.0.1/include/fmt/format-inl.h:448-456 | a 64-bit word is stored exactly, in one or two bigits at exponent zero |
| `BigintClass.Bigint.MultiplyU32` | subprojects/fmt-8.0.1/include/fmt/format-inl.h:404-413 | the number becomes its exact product with a 32-bit word |
| `BigintSteps.WideCarry` | subprojects/fmt-8.0.1/include/fmt/format-inl.h:420-425 | in the 64-bit multiplication neither the partial sums nor the carry exceed 2^64 - 1 |
| `BigintClass.Bigint.MultiplyU64` | subprojects/fmt-8.0.1/include/fmt/format-inl.h:415-430 | the number becomes its exact product with a 64-bit word |
| `BigintClass.Bigint.ShiftLeft` | subprojects/fmt-8.0.1/include/fmt/format-inl.h:460-473 | the number becomes its exact product with 2^shift; whole words go to the exponent |
| `BigintClass.Bigint.RemoveLeadingZeros` | subprojects/fmt-8.0.1/include/fmt/format-inl.h:386-390 | the value is kept and no leading zero bigit is left, except that zero keeps one bigit |
| `BigintClass.Bigint.AssignPow10` | subprojects/fmt-8.0.1/include/fmt/format-inl.h:522-539 | the number becomes exactly 10^n, by scanning the bits of n |
| `BigintClass.Bigint.Align` | subprojects/fmt-8.0.1/include/fmt/format-inl.h:572-581 | a number with the larger exponent gets that of the other one; its value does not change, and exactly the missing zero bigits appear below |
| `BigintClass.Bigint.SubtractBigits` | subprojects/fmt-8.0.1/include/fmt/format-inl.h:380-384 | one bigit step of a subtraction: the borrow is 0 or 1 and accounts for the difference exactly, although it is taken from bit 63 of a wrapped word |
| `BigintClass.Bigint.SubtractAligned` | subprojects/fmt-8.0.1/include/fmt/format-inl.h:393-402 | the result in every case: the exact difference, except that a borrow that meets a zero bigit above the subtrahend is never passed on, and then the result is too large by (2^32 - 1) at that weight |
| `BigintSteps.NoStall` | subprojects/fmt-8.0.1/include/fmt/format-inl.h:397-400 | a minuend at most one bigit longer than the subtrahend never meets that case |
| `BigintSteps.BorrowCanStall` | subprojects/fmt-8.0.1/include/fmt/format-inl.h:397-400 | an input on which the borrow stalls: 2^64 - 1 |
| `BigintSteps.LongStaysLong` | subprojects/fmt-8.0.1/include/fmt/format-inl.h:393-402 | a minuend more than one bigit longer than the subtrahend is so again after the subtraction, because the borrow stalls before its upper bigits run out |
| `BigintOrder.ComparisonOrder` | subprojects/fmt-8.0.1/include/fmt/format-inl.h:481-495 | what the comparison says: the order of two numbers without leading zeros, and for equal numbers the order of their bigit counts |
| `BigintOrder.ComparisonExact` | subprojects/fmt-8.0.1/include/fmt/format-inl.h:493 | for any two numbers without leading zeros the comparison is the order of the values if and only if they are not equal values stored with different exponents and neither is a zero whose exponent makes it look longer than the other |
| `BigintOrder.ComparisonOfEqualsFails` | subprojects/fmt-8.0.1/include/fmt/format-inl.h:493 | two equal numbers that the comparison tells apart |
| `BigintOrder.SameExponent` | subprojects/fmt-8.0.1/include/fmt/format-inl.h:481-495 | equal numbers with nonzero bottom bigits have equal exponents, so the comparison is exact for them |
| `BigintClass.Bigint.Compare` | subprojects/fmt-8.0.1/include/fmt/format-inl.h:481-495 | the loop computes that comparison |
| `BigintOrder.LeadDecides` | subprojects/fmt-8.0.1/include/fmt/format-inl.h:508-517 | what the running borrow means: below zero the sum is larger, above one it is smaller, whatever the lower bigits are; at the lowest exponent it is the sign |
| `BigintClass.Bigint.CompareFromTop` | subprojects/fmt-8.0.1/include/fmt/format-inl.h:506-518 | the loop gives the sign of a + b - c for numbers of any exponents, zeros included, without forming the sum, although it stops as soon as the borrow exceeds one |
| `BigintClass.Bigint.AddCompare` | subprojects/fmt-8.0.1/include/fmt/format-inl.h:498-519 | the sign of a + b - c for numbers of any lengths and exponents, if and only if the two exits on bigit counts are not misled by a zero stored with an exponent: c is not a zero two bigits longer than both, and if a or b is longer than c then one of them is longer and not zero, or exceeds c alone |
| `BigintClass.Bigint.LongZeroMisleads` | subprojects/fmt-8.0.1/include/fmt/format-inl.h:498-503 | a zero shifted by a word, plus one, is not found equal to one |
| `BigintClass.Bigint.DivmodAssign` | subprojects/fmt-8.0.1/include/fmt/format-inl.h:585-596 | terminates with the Euclidean quotient and remainder for any dividend at most one bigit longer than the divisor, if and only if the dividend is not the divisor stored with a larger exponent; in that case it returns 0 and changes nothing |
| `BigintClass.Bigint.PassNeverTheLast` | subprojects/fmt-8.0.1/include/fmt/format-inl.h:590-594 | with a dividend more than one bigit longer than the divisor, every pass of the division loop leaves it that long and is followed by another, so the loop never ends |
| `Decimal.RoundIsNearest` | subprojects/fmt-8.0.1/include/fmt/format-inl.h:2311-2313 | the rounding that serves as reference is a nearest integer to the ratio, and the even one of two |
| `Decimal.NearestIsUnique` | subprojects/fmt-8.0.1/include/fmt/format-inl.h:2311-2313 | there is only one such integer |
| `Decimal.PropagateCarry` | subprojects/fmt-8.0.1/include/fmt/format-inl.h:2316-2325 | a last digit of ten is carried to the left so that the digits stand for the same number; a carry out of the first digit leaves 1 and zeros, one place short, and is reported |
| `FallbackFormat.DigitStep` | subprojects/fmt-8.0.1/include/fmt/format-inl.h:2306-2309 | each quotient is a digit, and the digits with ten times the remainder still make up the whole number |
| `FallbackFormat.GenerateDigits` | subprojects/fmt-8.0.1/include/fmt/format-inl.h:2305-2330 | for a numerator below ten denominators: exactly numDigits digits, equal to numerator * 10^(numDigits - 1) / denominator rounded half to even, with the exponent raised when the carry goes through all of them |
| `FallbackFormat.FinishDigits` | subprojects/fmt-8.0.1/include/fmt/format-inl.h:2311-2330 | the last digit: rounding up exactly if twice the remainder exceeds the denominator, or equals it and the digit is odd |
| `FallbackFormat.RoundedIsUnique` | subprojects/fmt-8.0.1/include/fmt/format-inl.h:2305-2330 | that contract admits one digit string and one exponent only |
| `FallbackFormat.RaisedIsOneAndZeros` | subprojects/fmt-8.0.1/include/fmt/format-inl.h:2322-2325 | when the exponent is raised the digits are a one followed by zeros |
| `FallbackFormat.SetRatio` | subprojects/fmt-8.0.1/include/fmt/format-inl.h:2231-2265 | the three ways to set up numerator and denominator give f * 2^e / 10^exp10 exactly, both lengthened by the same power of two, and never lead to the comparison of equal numbers that fails |
| `FallbackFormat.TooManyTwos` | subprojects/fmt-8.0.1/include/fmt/format-inl.h:2231-2245 | with an exponent that is not negative, no power of ten times the numerator equals the denominator when the numerator has the larger word exponent |
| `FallbackFormat.PowerOf2Missed` | subprojects/fmt-8.0.1/include/fmt/format-inl.h:2245-2257 | a power of two in the denominator is never met either |
| `FallbackFormat.Format` | subprojects/fmt-8.0.1/include/fmt/format-inl.h:2217-2330 | from significand and exponent to digits: the digits times ten to the returned exponent are f * 2^e rounded half to even at the last place asked for; with no digit asked for, 1 exactly if the number is more than half of the place above |
| `Grisu.DirectionIsNearest` | subprojects/fmt-8.0.1/include/fmt/format-inl.h:607-620 | a decided direction is strictly the nearest for every real remainder within the error |
| `Grisu.DirectionUnknownIffHalfwayInside` | subprojects/fmt-8.0.1/include/fmt/format-inl.h:607-620 | the direction is left open if and only if the halfway point lies inside the error interval |
| `Grisu.RoundsToOneInteger` | subprojects/fmt-8.0.1/include/fmt/format-inl.h:602-605 | a real number rounds to at most one integer in this sense |
| `Grisu.FixedHandler.OnStart` | subprojects/fmt-8.0.1/include/fmt/format-inl.h:727-743 | adjusts a fixed precision and rounds at once when no digit is asked for |
| `Grisu.FixedHandler.OnDigit` | subprojects/fmt-8.0.1/include/fmt/format-inl.h:745-774 | more, done or error for one more digit; done only with a decided direction, and then the digits stand for the number rounded in that direction, whatever the carry does |
| `Grisu.IntegralStep` | subprojects/fmt-8.0.1/include/fmt/format-inl.h:661-704 | taking one digit off the integral part keeps digits * scale + remainder == value, and the digit is one of 0 to 9 |
| `Grisu.FractionalStep` | subprojects/fmt-8.0.1/include/fmt/format-inl.h:710-715 | so does multiplying the fraction by ten and taking its integral part |
| `Grisu.DivisorFits` | subprojects/fmt-8.0.1/include/fmt/format-inl.h:702-704 | the shifted power of ten never exceeds the value, so it fits 64 bits, and one unit is less than half of it |
| `Grisu.IntegralDigits` | subprojects/fmt-8.0.1/include/fmt/format-inl.h:661-708 | the digits of the integral part; what is left after them is the fraction, digits returned as done are the correct rounding for every real within one unit, and with a precision of at most one it gives up exactly if the halfway point behind the first digit is less than one unit away |
| `Grisu.FractionalDigits` | subprojects/fmt-8.0.1/include/fmt/format-inl.h:710-717 | the same for the fractional part, with the value and the error scaled by ten for each digit; neither overflows 64 bits, and it terminates |
| `Grisu.StartIsCorrect` | subprojects/fmt-8.0.1/include/fmt/format-inl.h:737-742 | rounding on a tenth of the value with ten times the error is right too |
| `Grisu.GenDigits` | subprojects/fmt-8.0.1/include/fmt/format-inl.h:639-717 | terminates with at most thirty characters; done means that the digits are the correct rounding, at the returned place, of every real within one unit of the value; error leaves all digits so far and their place, and with a precision of at most one comes exactly if the halfway point behind the first digit is less than one unit away |
| `FloatRatio.InsideTheInterval` | subprojects/fmt-8.0.1/include/fmt/format-inl.h:2377-2378 | an exact number inside the error interval rounds, half to even, to the digits that are right for the whole interval |
| `FloatRatio.CorrectIsExact` | subprojects/fmt-8.0.1/include/fmt/format-inl.h:2377-2383 | digits that the fast printer calls done are those of the exact number f * 2^e, rounded half to even at the same decimal place |
| `FloatRatio.ExactApproximates` | subprojects/fmt-8.0.1/include/fmt/format-inl.h:2362-2371 | a scaled value that is exactly right meets what is asked of it |
| `FloatRatio.TopOfNumber` | subprojects/fmt-8.0.1/include/fmt/format-inl.h:2376-2380 | the place above the first digit of the value bounds the number, and is the least that does unless the value is exactly a power of ten of units and the number is just below it |
| `FloatRatio.EstimateHolds` | subprojects/fmt-8.0.1/include/fmt/format-inl.h:2378-2379 | when the fast printer gives up, the exponent handed to the exact one is the estimate it needs: the number is below ten to the next exponent |
| `FloatRatio.RoundedAtIsNearest` | subprojects/fmt-8.0.1/include/fmt/format-inl.h:2376-2383 | the number that the printers are measured by is the integer nearest to f * 2^e / 10^place, with the powers written out, and the even one of two |
| `FloatText.Print` | subprojects/fmt-8.0.1/include/fmt/format-inl.h:2376-2383 | fast printer or exact printer, the digits and the exponent are the number rounded half to even at the place the precision asks for, and unless the output is fixed there are exactly as many digits as lie between that place and the top; the place depends on the value passed in, not on which printer answered; the fast printer's first digit is never zero except at or above the top |
| `FloatText.AskedFor` | subprojects/fmt-8.0.1/include/fmt/format-inl.h:2374-2383 | what a caller gets for his precision, in figures: fixed output is rounded at that many places up to 767; other output has that many digits up to 767 and stands, for every double and every precision, for the number rounded at the last digit asked for |
| `FloatText.FormatFloat` | subprojects/fmt-8.0.1/include/fmt/format-inl.h:2334-2394 | the same for the whole printer with a given precision, with zeros at the end removed where wanted; the result is what was asked for in the sense of `FloatText.AskedFor`; the first digit is zero exactly if the rounded number is below ten to one less than the number of digits |
| `FloatDigits.DigitsOfDouble` | subprojects/fmt-8.0.1/include/fmt/format-inl.h:2374-2375 | 767 digits below the top are all that a number with a 53-bit significand and an exponent from -1074 to 971 has |
| `FloatDigits.ExactlyAt` | subprojects/fmt-8.0.1/include/fmt/format-inl.h:2374-2375 | rounding at a place at or below that of 10^e0, or at the point for an integer, gives the number itself |
| `FloatDigits.NothingLost` | subprojects/fmt-8.0.1/include/fmt/format-inl.h:2374-2375 | for every double, cutting at 767 digits loses nothing: rounding at any lower place only appends zeros, even where the top is one too high |
| `FloatDigits.FixedKeeps` | subprojects/fmt-8.0.1/include/fmt/format-inl.h:2374-2375 | fixed output with more than 767 places is the number rounded at the last place asked for if and only if the distance of the number to the nearest multiple of 10^-767, found by one remainder, is at most half a unit of that last place |
| `FloatDigits.FixedKeepsAll` | subprojects/fmt-8.0.1/include/fmt/format-inl.h:2374-2375 | with as many places as the number has, fixed output cut at 767 places is the number if and only if the exponent is at least -767 or the significand ends in enough zero bits |
| `FloatDigits.SmallestDoubleIsCut` | subprojects/fmt-8.0.1/include/fmt/format-inl.h:2374-2375 | the smallest double in fixed output of 1074 places is cut |
| `FloatText.FirstDigitShown` | subprojects/fmt-8.0.1/include/fmt/format-inl.h:2334-2394 | digits that denote a rounded number start with zero exactly if the number has fewer digits than its place asks for |
| `FloatText.DigitsAreSignificant` | subprojects/fmt-8.0.1/include/fmt/format-inl.h:2334-2394 | whichever printer answers, the rounded number is below that power of ten only if the value is exactly a power of ten of units and the number is just below it |
| `FloatText.NoPrecisionAtAll` | subprojects/fmt-8.0.1/include/fmt/format-inl.h:2376-2379 | with no precision at all 2.5 always becomes no tens, and 2.75 always becomes three units |
| `WideMultiply.MultiplyRounds` | subprojects/fmt-8.0.1/include/fmt/format-inl.h:264-272 | the form with 32-bit halves is floor((x * y + 2^63) / 2^64), for all words |
| `WideMultiply.MultiplyVariantsAgree` | subprojects/fmt-8.0.1/include/fmt/format-inl.h:259-263 | the form with a 128-bit product gives the same |
| `WideMultiply.Umul128IsProduct` | subprojects/fmt-8.0.1/include/fmt/format-inl.h:828-852 | high and low word are the full 128-bit product, with no carry lost |
| `WideMultiply.Umul192UpperIsTopWord` | subprojects/fmt-8.0.1/include/fmt/format-inl.h:869-873 | the top word of the 192-bit product |
| `WideMultiply.Umul192MiddleIsMiddleWord` | subprojects/fmt-8.0.1/include/fmt/format-inl.h:883-887 | the middle word of the 192-bit product, in wrapping arithmetic |
| `TrailingZeros.InverseTest` | subprojects/fmt-8.0.1/include/fmt/format-inl.h:953-992 | multiplying by the inverse modulo the word size gives something no larger than the largest quotient if and only if the divisor divides, and then gives the quotient |
| `TrailingZeros.DivisibleByPowerOf5Correct32` | subprojects/fmt-8.0.1/include/fmt/format-inl.h:953-963 | the 32-bit test is divisibility by 5^exp, for every word and every exponent of the table |
| `TrailingZeros.DivisibleByPowerOf5Correct64` | subprojects/fmt-8.0.1/include/fmt/format-inl.h:964-992 | the same for the 64-bit test |
| `TrailingZeros.FivesThenTwos` | subprojects/fmt-8.0.1/include/fmt/format-inl.h:1944 | dividing the fives out by multiplication and the twos by one shift takes out whole tens, and as many as there are up to the cap |
| `TrailingZeros.RemoveTrailingZeros32` | subprojects/fmt-8.0.1/include/fmt/format-inl.h:1919-1944 | n' * 10^s == n with s maximal or at its cap of 7, for every nonzero 32-bit number |
| `TrailingZeros.StripLowCorrect` | subprojects/fmt-8.0.1/include/fmt/format-inl.h:1985-2028 | the unrolled tests on the lower eight digits, starting after s zeros, take out the same maximal number of zeros |
| `TrailingZeros.StripUpper` | subprojects/fmt-8.0.1/include/fmt/format-inl.h:1971-1979 | the loop over the quotient by 10^8 takes out the zeros above the eighth |
| `TrailingZeros.RemoveTrailingZeros64` | subprojects/fmt-8.0.1/include/fmt/format-inl.h:1947-2029 | n' * 10^s == n with s maximal or at its cap of 16, for every nonzero number whose quotient by 10^8 fits 32 bits, which includes every number below 10^17; the 32-bit product that wraps still gives the remainder |
| `IntegerText.CountDigitsFallback` | subprojects/fmt-8.0.1/include/fmt/format.h:899-912 | the loop by four digits counts the decimal digits of every number |
| `IntegerText.CountDigits64Correct` | subprojects/fmt-8.0.1/include/fmt/format.h:921-939 | the table-driven count equals the number of decimal digits for every 64-bit number, zero included |
| `IntegerText.CountDigits32Correct` | subprojects/fmt-8.0.1/include/fmt/format.h:959-988 | the count by one addition and a shift equals it for every 32-bit number |
| `IntegerText.FormatDecimal` | subprojects/fmt-8.0.1/include/fmt/format.h:1050-1078 | writes exactly the decimal text of the number, that many characters to the left of the given end, and touches nothing else |
| `IntegerText.DecimalTextIsNumber` | subprojects/fmt-8.0.1/include/fmt/format.h:1050-1078 | that text has as many characters as the number has digits, all of them digits, and stands for the number |
| `IntegerText.ParseNonnegativeInt` | subprojects/fmt-8.0.1/include/fmt/core.h:2096-2116 | reads the longest run of digits and returns its number if it has at most ten characters and fits an int, the error value otherwise, although the 32-bit accumulator wraps |
| `IntegerText.FormatThenParse` | subprojects/fmt-8.0.1/include/fmt/core.h:2096-2116 | reading the decimal text of a number gives it back if it is at most INT_MAX, and the error value otherwise |
| `IntegerText.ParsedExactly` | subprojects/fmt-8.0.1/include/fmt/core.h:2108-2115 | a run of digits is read as its number if and only if it fits an int and has at most ten characters |
| `IntegerText.LeadingZerosOverflow` | subprojects/fmt-8.0.1/include/fmt/core.h:2108-2115 | a small number with leading zeros that is taken for an overflow |
| `Grouping.SizeOfGrouped` | subprojects/fmt-8.0.1/include/fmt/format.h:1405-1414 | the sizing loop and the final division count one character for every digit and for every separator |
| `Grouping.NextDigit` | subprojects/fmt-8.0.1/include/fmt/format.h:1428-1434 | the counters of the writing loop close a group exactly after as many digits as the grouping says, with the last entry repeating and an entry of zero, below zero or CHAR_MAX ending the grouping |
| `Grouping.WriteGroups` | subprojects/fmt-8.0.1/include/fmt/format.h:1423-1438 | the loop from the right fills the buffer exactly: it ends at the place for the prefix, or just before the buffer if there is none |
| `Grouping.WriteIntLocalized` | subprojects/fmt-8.0.1/include/fmt/format.h:1396-1447 | false exactly without a separator; otherwise the grouped digits, behind the character in the low byte of the prefix if that is not zero, in a buffer of the size computed beforehand |
| `Grouping.WriteSigned` | subprojects/fmt-8.0.1/include/fmt/format.h:1459-1490 | for every number of 32, 64 or 128 bits, signed or not: the text starts with a minus sign exactly if the number is negative, with a plus sign or a space exactly if that was asked for and it is not negative, and what a reader makes of sign, digits and separators is that number |
| `Grouping.SeparatorsDelete` | subprojects/fmt-8.0.1/include/fmt/format.h:1423-1438 | deleting the separators leaves the digits |
| `Grouping.PiecesFollowGrouping` | subprojects/fmt-8.0.1/include/fmt/format.h:1405-1438 | split at the separators, counted from the right, every piece but the leftmost has exactly the length of its entry in the grouping, the last one repeating, and the leftmost is not empty and not longer |
| `Grouping.PieceLengths` | subprojects/fmt-8.0.1/include/fmt/format.h:1405-1438 | the same in bytes: the piece number t from the right has as many digits as entry t of the grouping, or the last entry, says, and an entry of zero, below zero or 127 takes all the digits that are left |
| `Grouping.LocalizedTextReadsBack` | subprojects/fmt-8.0.1/include/fmt/format.h:1396-1447 | the text written for a number, without its separators, stands for that number |
| `Utf8.DecodeEncoded` | subprojects/fmt-8.0.1/include/fmt/format.h:451-480 | the bytes of any scalar value decode to it without error, whatever bytes follow, and advance by their number |
| `Utf8.AcceptsExactly` | subprojects/fmt-8.0.1/include/fmt/format.h:451-480 | a block is accepted if and only if it starts with a stray byte (a continuation byte, or one above 0xF7) or with the bytes of a scalar value |
| `Utf8.StrayIsNotReported` | subprojects/fmt-8.0.1/include/fmt/core.h:2064-2075 | a stray byte is read as its low seven bits, without an error, and advances by one |
| `Utf8.NoErrorMeansEncoded` | subprojects/fmt-8.0.1/include/fmt/format.h:451-480 | unless it starts with a stray byte, a block without error begins with the encoding of the code point it yields |
| `Utf8.ForEachCodepoint` | subprojects/fmt-8.0.1/include/fmt/format.h:483-505 | for every text, valid or not, reads the same code points and errors as decoding it followed by zeros; no block lies outside the text or the seven-byte copy of its tail |
| `Utf8.ReadEncoded` | subprojects/fmt-8.0.1/include/fmt/format.h:483-505 | the encoding of any sequence of scalar values is read back as that sequence, with error 0 throughout |
| `Utf8.CleanExactly` | subprojects/fmt-8.0.1/include/fmt/format.h:483-505 | the texts read without errors and stray bytes are exactly the encodings of sequences of scalar values |
| `Utf8.LoneContinuationByte` | subprojects/fmt-8.0.1/include/fmt/core.h:2064-2075 | a lone continuation byte is read as a null character, though it encodes nothing |
| `Utf8.StandardExamples` | subprojects/fmt-8.0.1/include/fmt/format.h:451-480 | the examples of section 7 of RFC 3629 |
| `Utf16.PairsJoin` | subprojects/fmt-8.0.1/include/fmt/chrono.h:330 | splitting a supplementary code point and rejoining it with the surrogate formula is the identity |
| `Utf16.PairsSplit` | subprojects/fmt-8.0.1/include/fmt/format-inl.h:2533-2535 | rejoining any surrogate pair and splitting the result is the identity, and the result is a scalar value |
| `Utf16.StandardExample` | subprojects/fmt-8.0.1/include/fmt/format-inl.h:2533-2535 | the example of section 5 of RFC 2781: the high surrogate comes first |
| `Utf16.Utf8ToUtf16` | subprojects/fmt-8.0.1/include/fmt/format-inl.h:2527-2539 | an error if any code point carries one; otherwise the UTF-16 code units of all of them, and a final zero |
| `Utf16.Append` | subprojects/fmt-8.0.1/include/fmt/chrono.h:332-349 | appends the UTF-8 bytes of a scalar value, and fails for every other code point |
| `Utf16.DoWrite` | subprojects/fmt-8.0.1/include/fmt/chrono.h:322-350 | code units of 16 or 32 bits become the UTF-8 text of the scalar values they stand for; an error if they stand for none |
| `Utf16.JoinExactly` | subprojects/fmt-8.0.1/include/fmt/chrono.h:323-331 | code units stand for a sequence of scalar values if and only if they are its UTF-16 (or UTF-32) code units |
| `Utf16.TextsMakeTheRoundTrip` | subprojects/fmt-8.0.1/include/fmt/format-inl.h:2527-2539 | every sequence of scalar values survives encoding, reading, splitting into code units and joining |
| `FormatString.ParseArgId` | subprojects/fmt-8.0.1/include/fmt/core.h:2162-2200 | the argument id: none, a number, or a name, and its errors |
| `FormatString.ScanSmall` | subprojects/fmt-8.0.1/include/fmt/core.h:2389-2406 | the character-by-character scanner tells the handler what the format string means |
| `FormatString.Write` | subprojects/fmt-8.0.1/include/fmt/core.h:2407-2421 | the inner scanner for closing braces passes on the text before a field |
| `FormatString.ScanLarge` | subprojects/fmt-8.0.1/include/fmt/core.h:2422-2431 | the scanner that searches for braces tells the handler the same, on every input: same text, same fields in the same order, same first error |
| `FormatString.ParseFormatString` | subprojects/fmt-8.0.1/include/fmt/core.h:2381-2432 | so the choice by length does not matter; both terminate, and what they tell is settled by `FormatString.RenderedIsRead` and `FormatString.ReadExactly` |
| `FormatString.RenderedIsRead` | subprojects/fmt-8.0.1/include/fmt/core.h:2341-2432 | a format string put together from text with its braces doubled and fields with automatic, numbered or named ids, with or without a specifier, is read as exactly those pieces in their order, for every handler that does not throw and delimits the specifiers |
| `FormatString.ReadExactly` | subprojects/fmt-8.0.1/include/fmt/core.h:2341-2432 | for a handler that does not throw and looks for the closing brace, a format string is read without an error if and only if it is put together from such pieces |
| `FormatString.PlainExactly` | subprojects/fmt-8.0.1/include/fmt/core.h:2389-2406 | without opening braces, exactly the texts with doubled closing braces are read without an error, whatever the handler |
| `FormatString.OnlyLastFails` | subprojects/fmt-8.0.1/include/fmt/core.h:2341-2432 | an error is the last thing the handler is told |
| `FormatString.LoneClosingBrace` | subprojects/fmt-8.0.1/include/fmt/core.h:2398-2399 | text with a closing brace that is not doubled is refused with that message |
| `FormatString.UnfinishedField` | subprojects/fmt-8.0.1/include/fmt/core.h:2341-2379 | what is refused, and how, when something else than a closing brace or a colon follows an index or a name |
| `FormatString.NoField` | subprojects/fmt-8.0.1/include/fmt/core.h:2341-2379 | what is refused when nothing that can begin an id follows the opening brace |
| `FormatString.UnfinishedSpec` | subprojects/fmt-8.0.1/include/fmt/core.h:2341-2379 | what is refused when a format specifier has no closing brace |
| `FormatString.FirstThrowStops` | subprojects/fmt-8.0.1/include/fmt/core.h:2341-2432 | a handler that throws is told exactly what a quiet one would be told up to the first event on which it throws |
| `FormatString.BraceDelimits` | subprojects/fmt-8.0.1/include/fmt/core.h:2341-2379 | a handler that looks for the closing brace delimits every specifier without one |
| `FormatString.StepOverEscaped` | subprojects/fmt-8.0.1/include/fmt/core.h:2389-2406 | text with its braces doubled stands for itself, in front of anything |
| `Docopt.Transform` | subprojects/fmt-8.0.1/support/docopt.py:72-96 | terminates for every finite pattern; the result is flat, and its groups, as a multiset of bags of tips, are the recursive disjunctive normal form of the pattern |
| `Docopt.TakeBranch` | subprojects/fmt-8.0.1/support/docopt.py:82-84 | taking out the first branch of a group factors its alternatives; removal by equality removes that very branch |
| `Docopt.UnfoldKeeps` | subprojects/fmt-8.0.1/support/docopt.py:88-91 | replacing a branch by its children, or by its children twice, keeps the alternatives and leaves less work |
| `Docopt.Distribute` | subprojects/fmt-8.0.1/support/docopt.py:85-87 | the groups appended for a disjunction hold exactly its alternatives, and less work than before in all |
| `Docopt.DnfAllConcat` | subprojects/fmt-8.0.1/support/docopt.py:88-91 | the alternatives of a concatenation of groups are the products of theirs |
| `Docopt.BranchFirst` | subprojects/fmt-8.0.1/support/docopt.py:82-91 | moving a branch in front of the tips before it changes no alternative |
| `Docopt.RepeatsFound` | subprojects/fmt-8.0.1/support/docopt.py:61-69 | a tip is found more than once in some group of the expansion if and only if the shape of the pattern lets it occur more than once |
| `Docopt.DocumentedExamples` | subprojects/fmt-8.0.1/support/docopt.py:73-77 | the three examples of its documentation, for all tips |
| `TcpSession.ParseIsExact` | src/websocket_server/TCPSession.hh:91-144 | the greedy parse of a stream splits it into complete packets and a rest that is too short for its packet or starts with an unknown id |
| `TcpSession.ParseInPieces` | src/websocket_server/TCPSession.hh:91-144 | the parse can stop anywhere and go on from what was left over when more arrives |
| `TcpSession.Session.Handle` | src/websocket_server/TCPRequestHandler.hh:48-81 | good, bad or incomplete by the id and the number of bytes; a good packet is handed over whole and consumed |
| `TcpSession.Session.Move` | src/websocket_server/TCPSession.hh:105-108 | the overlapping move puts the remaining bytes in front |
| `TcpSession.Session.HandleFront` | src/websocket_server/TCPSession.hh:96-111 | one packet off the front: consumed bytes and buffered bytes together stay the bytes received |
| `TcpSession.Session.ParsePacketHeader` | src/websocket_server/TCPSession.hh:91-144 | handles all complete packets, then waits for more behind the pending bytes, with room for at least one, or stops for good at an unknown id |
| `TcpSession.Session.OnRead` | src/websocket_server/TCPSession.hh:55-88 | after every read the packets handled are exactly those of the greedy parse of everything received, and the buffer holds exactly the rest |
| `TcpSession.Deliver` | src/websocket_server/TCPSession.hh:55-144 | for every stream and every split into nonempty reads that fit the buffer, the packets handled are those of the whole stream, up to the first unknown id |
| `TcpSession.WireFormat` | src/websocket_server/Packets/In.hh:17-38 | by byte values: a stream that begins with 0, 1 or 2 has its first 18, 1 or 30 bytes as its first packet, one that is shorter has no packet and waits, and one that begins with 3 or more is bad |
| `TcpSession.SplitsExactly` | src/websocket_server/TCPSession.hh:91-144 | packets and rest are those of the parse if and only if together they are the stream, every packet has one of those three forms, and no packet begins the rest; the stream is bad if and only if the rest begins with 3 or more |
| `TcpSession.SizeOfFields` | src/websocket_server/Packets/In.hh:25-38 | the size belonging to an id is the sum of the sizes of that packet's fields, and is zero exactly for an unknown id |
| `FlagNames.EnumName` | subprojects/magic_enum-0.7.3/include/magic_enum.hpp:928-950 | the loop joins the names of the flags it finds, and drops them if they are not the whole value |
| `FlagNames.EnumCast` | subprojects/magic_enum-0.7.3/include/magic_enum.hpp:1005-1031 | the loop cuts the text at bars and unites the values of the names; the first unknown name ends it |
| `FlagNames.CmpEqual` | subprojects/magic_enum-0.7.3/include/magic_enum.hpp:247-266 | texts are equal when they have equal length and equal characters, by the given comparison |
| `FlagNames.NamesAreReadBack` | subprojects/magic_enum-0.7.3/include/magic_enum.hpp:928-950 | a value has a name if and only if it is a nonempty union of flags of the table, and its name is read back as that value |
| `FlagNames.NameIsItsFlags` | subprojects/magic_enum-0.7.3/include/magic_enum.hpp:933-947 | split at its bars, the name of a value is exactly the names of the flags that the value has, in the order of the table |
| `FlagNames.FlagHasItsName` | subprojects/magic_enum-0.7.3/include/magic_enum.hpp:933-947 | a single flag that no other entry repeats has its own name |
| `FlagNames.ReadValuesHaveNames` | subprojects/magic_enum-0.7.3/include/magic_enum.hpp:1005-1031 | whatever text is accepted, its value has a name, and that name means the same |
| `FlagNames.TrailingBar` | subprojects/magic_enum-0.7.3/include/magic_enum.hpp:1010-1027 | one bar at the end is not noticed |
| `FlagNames.AcceptedExactly` | subprojects/magic_enum-0.7.3/include/magic_enum.hpp:1005-1031 | a text is accepted if and only if, without at most one bar at its end, all its pieces between bars are names of the table |
| `FlagNames.ValueIsItsNames` | subprojects/magic_enum-0.7.3/include/magic_enum.hpp:1005-1031 | the value of an accepted text is the union of the flags that its pieces name |
| `FlagNames.NameAndBar` | subprojects/magic_enum-0.7.3/include/magic_enum.hpp:1010-1027 | every name of a table with a bar behind it is read as the value of that name |
| `WriteQueue.Session.WriteRequest` | src/websocket_server/WebSocketSession.hh:264-290 | the message is queued last, and written at once only if nothing was waiting |
| `WriteQueue.Session.OnWrite` | src/websocket_server/WebSocketSession.hh:294-319 | a completed write takes the first message off the queue and starts the next; a failed one leaves the queue alone and starts nothing |
| `WriteQueue.Run` | src/websocket_server/WebSocketSession.hh:264-319 | over every interleaving of requests and completions: written messages and queue are the requests in order, at most one write is under way, it is that of the first message in the queue, there is one if and only if something waits and no write has failed, and the number written is that of the completions that had something to complete |
| `WriteQueue.Drain` | src/websocket_server/WebSocketSession.hh:294-319 | without failures completions alone bring every request out |

## Left out

- BigintClass.Bigint.DivmodAssign: dividends more than one bigit longer than the divisor, for which it does not terminate (`BigintClass.Bigint.PassNeverTheLast`); every caller keeps the dividend below ten divisors. Nor a zero with so large an exponent that the first comparison takes it for the larger number (`BigintOrder.ComparisonExact`).
- BigintClass.Bigint.AssignPow10: exponents of 2^30 and more, for which the bit mask overflows a signed 32-bit int.
- The copy of a bigint, two assignments.
- FloatText.FormatFloat: the scaled 64-bit value is an input, less than one unit from the exact product; the cached powers of ten that it comes from, and numbers for which the C library is asked, are not part of the model.
- Grisu.GenDigits: errors other than one unit, which the handler's assertion excludes.
- TrailingZeros.RemoveTrailingZeros64: numbers from 2^32 * 10^8 on, whose quotient does not fit 32 bits.
- Grouping.SeparatorsDelete: separators that are digits themselves, for which deleting them by character is meaningless; `Grouping.WriteIntLocalized` covers them.
- Grouping.WriteIntLocalized: padding to a width, and characters wider than 8 bits.
- FormatString.ParseReplacementField: parsing inside a format specifier, which is the handler's answer here; an error that does not throw.
- Utf16.DoWrite: the locale's own conversion into code units, and its buffer of 32 units.
- Docopt.Transform: sharing of pattern objects; tips are compared by their printed form, as in the program.
- WriteQueue.Run: which completion handler goes with which message, and addresses of queued strings.
- TcpSession.Session.Handle: what the handlers do with a packet (handshake answers, timers, notifications); all of them consume it whole.
- The int width of the bigint exponent, and the capacity of its inline buffer, which are assertions in the program.
- The bigits of a bigint, and the digit buffers of the floating-point printers, are sequences held in a field or variable; growth of the underlying memory buffer is not modelled. The unrolled tests for trailing zeros are a recursive function, and the inner loops of squaring and of digit generation are methods of their own.
- The shortest-output branch of the exact printer, which the formatter does not use; Dragonbox, the cached powers of ten and the logarithm approximations.
- The table of digit pairs of the integer writer, which is modelled by the two digits it holds.
- Sockets, TLS, HTTP, JSON, timers, logging, command line and certificates: I/O and foreign libraries.
