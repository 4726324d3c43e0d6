# Verification of number formatting and the shuffled region

The repository measures small pieces of machine code; what it prints goes through the formatting library
it carries, fmt 7.1.3, and what its memory benchmarks walk through is a chain of pointers that it builds itself. This
project models those two in Dafny:

- exact decimal output of binary floating point: the mutable big integers of `bigint` (`Bigits`, `Convolution`,
  `BigInt`), the digit generator `fallback_format` in both of its modes (`Decimal`, `ShortestSpec`, `Fallback`), the fast
  path with its error bound (`Grisu`), and `format_float`, which puts them together (`FormatFloat`, `PrecisionCap`,
  `ZeroPrecision`);
- the word arithmetic of the same printer: products from halves, division by reciprocal, removal of trailing zeros by
  modular inverses (`Words`, `TrailingZeros`);
- format strings: the two scanners, the grammar of fields, direct formatting, and compiling to parts that are run later
  (`Scanner`, `FormatSyntax`, `Compile`);
- output buffers with truncation and counting (`Buffers`);
- decimal text of integers: counting digits, printing, parsing, grouping (`CountDigits`, `IntText`, `Grouping`);
- the cycle of cache lines (`ShuffledRegion`).

Code that changes state is modelled by classes and methods and proved against a function or predicate; what those
promise is then proved as lemmas. `Val` of a big integer is the sum of its digits times 2^(32 (i + exp)). A rational
value f * 2^e is never rounded in the model: statements about nearest decimals multiply both sides out (`Gap` and `Den`
are the numerator and denominator of 2^e / 10^exp10). `dafny verify dfyconfig.toml` checks everything.

## Where code and comments differ

The model follows the code. These are proved, not only observed:

- `compare` answers the order of the values exactly when `FaithfulOrder` holds. Two equal values stored with different
  exponents do not compare equal (`UnequalExponents`).
- `subtract_aligned` does not advance in its final borrow loop. It subtracts exactly unless a borrow reaches a zero digit
  just above the subtrahend (`StuckBorrow`), and then the difference is too big by `StuckExcess` (`BorrowSticks`).
- `divmod_assign` answers 0 for a divisor of equal value with a smaller exponent; `fallback_format` never gets there,
  because a 64-bit significand times 2^e with e >= 32 is never a power of ten. It is exact for every other divisor, as
  long as a zero number does not reach as high as the divisor.
- `add_compare` is exact if and only if `FaithfulSum` holds; it trusts digit counts, which a stored zero can mislead
  (`ZeroMisleads`).
- The shortest mode of `fallback_format` prints a decimal inside the rounding interval. It is shortest if and only if the
  significand is odd, the comparison with the lower end can see equality (`SeesEquality`), or the lower end does not have
  fewer digits than everything above it in the interval (`BoundaryShortest`). `NotShortest` is a double for which it
  is not.
- The cap of 767 on the precision is explained by the number of significant digits of a double, but a fixed format counts
  digits after the point. `SignificantDigitsSuffice` proves the explanation, `CapExact` and `CapPlaces` say for which
  values the padded result is right in a fixed format too, and `CapLosesDigits` is a value for which it is wrong.
- With precision 0 in a format that is not fixed, Grisu prints one digit, but if it cannot decide that digit the fallback is
  asked for none and rounds one place higher (`Coarse`, with exactly that condition). `CoarseHappens` is the value 2.5,
  and `CoarseResult` says which of these results are wrong for one digit.
- The reciprocal division by 1000 is exact only for the words that `DivideBy1000Exact` describes.
- The comment on `bsr2log10` gives ceil(log10(2^(bsr + 1) - 1)), which is 0 for bsr = 0 where the table has 1; the table is
  what makes `count_digits` right.

## Model

| member | source | states |
|---|---|---|
| BigInt.Compare | fmt-7.1.3/include/fmt/format-inl.h:1356-1371 | the exact order of the two values if and only if equal values have equal exponents and a zero does not reach as high as the other number; for equal nonzero values with different exponents, the order of the exponents reversed |
| BigInt.UnequalExponents | fmt-7.1.3/include/fmt/format-inl.h:1356-1371 | one value stored in two ways that compare as different |
| BigInt.AddCompare | fmt-7.1.3/include/fmt/format-inl.h:1373-1394 | for any canonical operands, the sign of lhs1 + lhs2 - rhs if and only if a zero on the right is not much shorter than the left and a zero on the left that reaches above it does not matter (`FaithfulSum`); and what it answers otherwise |
| BigInt.DeficitDecides | fmt-7.1.3/include/fmt/format-inl.h:1382-1393 | what the digits from any position upwards leave of rhs - lhs1 - lhs2 decides the sign of the whole sum when it is negative or more than 1, and at the lowest position in any case |
| BigInt.VerdictRight | fmt-7.1.3/include/fmt/format-inl.h:1382-1393 | wherever the digit loop ends, its answer is the sign of the whole sum |
| BigInt.ShorterSum | fmt-7.1.3/include/fmt/format-inl.h:1374-1377 | the early answer -1 is right exactly for a nonzero right-hand side |
| BigInt.LongerSum | fmt-7.1.3/include/fmt/format-inl.h:1378-1378 | the early answer 1 is right exactly unless the operand that is too long is zero and the other one is not bigger |
| BigInt.ZeroMisleads | fmt-7.1.3/include/fmt/format-inl.h:1378-1378 | operands for which the early answer is wrong |
| BigInt.Accumulator.Add | fmt-7.1.3/include/fmt/format-inl.h:1219-1228 | the portable pair of 64-bit words adds exactly, as a 128-bit sum, as long as the sum fits |
| BigInt.Accumulator.ShiftRight | fmt-7.1.3/include/fmt/format-inl.h:1230-1235 | drops exactly the lowest 32 bits of the 128-bit sum |
| BigInt.Bigint.Assign | fmt-7.1.3/include/fmt/format-inl.h:1315-1321 | copies digits and exponent |
| BigInt.Bigint.AssignWord | fmt-7.1.3/include/fmt/format-inl.h:1323-1331 | the value becomes n, stored canonically with exponent 0 |
| BigInt.Bigint.Multiply32 | fmt-7.1.3/include/fmt/format-inl.h:1279-1288 | the value is multiplied exactly and the exponent kept |
| BigInt.Bigint.Multiply64 | fmt-7.1.3/include/fmt/format-inl.h:1290-1305 | the value is multiplied exactly by a 64-bit number, the carry fitting 64 bits at every digit |
| BigInt.Bigint.ShiftLeft | fmt-7.1.3/include/fmt/format-inl.h:1335-1348 | the value is multiplied by 2^shift; whole digits of the shift go to the exponent |
| BigInt.Bigint.RemoveLeadingZeros | fmt-7.1.3/include/fmt/format-inl.h:1261-1265 | restores a nonzero top digit without changing the value |
| BigInt.Bigint.SubtractBigits | fmt-7.1.3/include/fmt/format-inl.h:1255-1259 | one digit and the next borrow, from wrapped 64-bit arithmetic |
| BigInt.Bigint.SubtractAligned | fmt-7.1.3/include/fmt/format-inl.h:1268-1277 | this - other exactly, plus (2^32 - 1) * 2^(32k) in the one situation where the final borrow loop, which never advances, meets a zero digit |
| BigInt.BorrowSticks | fmt-7.1.3/include/fmt/format-inl.h:1275-1275 | operands for which the difference comes out too big |
| BigInt.Bigint.Align | fmt-7.1.3/include/fmt/format-inl.h:1446-1457 | the value is kept and the exponent lowered to the smaller of the two |
| BigInt.Bigint.DivModAssign | fmt-7.1.3/include/fmt/format-inl.h:1459-1472 | floor quotient and canonical remainder; the only exception is an equal divisor stored with a smaller exponent, for which it answers 0 and keeps the number |
| BigInt.Bigint.Square | fmt-7.1.3/include/fmt/format-inl.h:1416-1444 | the value is squared and the exponent doubled |
| BigInt.AddLowColumn | fmt-7.1.3/include/fmt/format-inl.h:1426-1429 | the cross products of one digit position of the lower half, no sum exceeding 128 bits |
| BigInt.AddHighColumn | fmt-7.1.3/include/fmt/format-inl.h:1436-1437 | the cross products of one digit position of the upper half |
| Convolution.RowsAll | fmt-7.1.3/include/fmt/format-inl.h:1416-1444 | summing the cross products position by position gives the product of the whole digit strings |
| Convolution.SquaringStep | fmt-7.1.3/include/fmt/format-inl.h:1426-1439 | one output digit and the shifted running sum keep the sum of the rows so far |
| Convolution.SquaringDone | fmt-7.1.3/include/fmt/format-inl.h:1416-1444 | no carry is left past the last digit, so the digits spell the square |
| Convolution.CrossRoom | fmt-7.1.3/include/fmt/format-inl.h:1427-1439 | a 128-bit sum has room for the next product of a column |
| BigInt.Bigint.AssignPow10 | fmt-7.1.3/include/fmt/format-inl.h:1397-1414 | exactly 10^exp, by bitwise exponentiation of 5 and one shift |
| Fallback.NeverPowerOfTen | fmt-7.1.3/include/fmt/format-inl.h:2330-2361 | with a positive binary exponent of at least 32, the numerator times a power of ten never equals a power of ten, so the failing case of the division cannot occur |
| Fallback.Scale | fmt-7.1.3/include/fmt/format-inl.h:2328-2361 | numerator, denominator, lower and upper over one common denominator in all three cases of the exponents |
| Fallback.NextDigit | fmt-7.1.3/include/fmt/format-inl.h:2368-2373 | one step of the loop: the next digit and both interval tests, by the specification of the shortest digits |
| Fallback.GenerateShortest | fmt-7.1.3/include/fmt/format-inl.h:2363-2391 | terminates and produces the digits of the specification Shortest; lower and upper grow tenfold against a fixed denominator |
| ShortestSpec.ShortestInside | fmt-7.1.3/include/fmt/format-inl.h:2363-2391 | the produced string consists of digits and its value is inside the rounding interval, the endpoints allowed only for an even significand, and the lower one only where the comparison can see it |
| ShortestSpec.ShortestMinimal | fmt-7.1.3/include/fmt/format-inl.h:2363-2391 | no decimal with fewer digits is inside the interval as the comparison sees it |
| ShortestSpec.ShortestExactly | fmt-7.1.3/include/fmt/format-inl.h:2363-2391 | the result is shortest in the whole rounding interval if and only if the significand is odd, the comparison can see the lower end, or the lower end does not have fewer digits than everything above it in the interval |
| ShortestSpec.ShortestNearest | fmt-7.1.3/include/fmt/format-inl.h:2376-2386 | among the decimals of its length that the comparison sees in the interval, the result is the nearest to the value, and the even one of two |
| Fallback.ShortestProperties | fmt-7.1.3/include/fmt/format-inl.h:2313-2391 | the same for f * 2^e itself, with the gaps to its neighbours: inside the interval, exactly when no shorter decimal is, and nearest among those as long |
| Fallback.NotShortest | fmt-7.1.3/include/fmt/format-inl.h:2363-2391 | a double with an even significand for which the shortest mode does print more digits than needed, because the comparison misses an equality |
| Fallback.TakeDigit | fmt-7.1.3/include/fmt/format-inl.h:2401-2406 | digits so far times the denominator plus the rest stay equal to the scaled value |
| Fallback.RoundsUp | fmt-7.1.3/include/fmt/format-inl.h:2407-2409 | the decision to round up the last digit is rounding to nearest with ties to even |
| Decimal.NoneNearer | fmt-7.1.3/include/fmt/format-inl.h:2400-2426 | what nearest means in all of these: no other integer number of units is nearer |
| Decimal.RoundsToOne | fmt-7.1.3/include/fmt/format-inl.h:2400-2426 | rounding half to even leaves exactly one integer number of units |
| Fallback.PropagateCarry | fmt-7.1.3/include/fmt/format-inl.h:2410-2423 | the chain of nines, including a carry out of the first digit, keeps the spelled number |
| Fallback.GenerateFixed | fmt-7.1.3/include/fmt/format-inl.h:2401-2426 | the digits are the scaled value rounded half to even |
| Fallback.GenerateNone | fmt-7.1.3/include/fmt/format-inl.h:2393-2399 | no digits asked for: 1 or 0, the value rounded to the next higher place, a tie going down |
| Fallback.FallbackFixed | fmt-7.1.3/include/fmt/format-inl.h:2313-2427 | with a given number of digits, the printed decimal is f * 2^e rounded half to even at the last place |
| Fallback.FallbackFormat | fmt-7.1.3/include/fmt/format-inl.h:2313-2427 | both modes of fallback_format, with the exact condition for a shortest result, which is the nearest of its length |
| Decimal.CarryStep | fmt-7.1.3/include/fmt/format-inl.h:2415-2418 | moving a carry one digit to the left keeps the number |
| Decimal.CarryOut | fmt-7.1.3/include/fmt/format-inl.h:2419-2422 | a carry out of the first digit leaves 1 and zeros, and the exponent moves by one |
| Grisu.GetRoundDirection | fmt-7.1.3/include/fmt/format-inl.h:1481-1495 | Down and Up exactly when every number within the error rounds that way; every intermediate result is a 64-bit word |
| Grisu.FixedHandler.OnStart | fmt-7.1.3/include/fmt/format-inl.h:1596-1611 | the outcome and the digit when the precision is used up by leading zeros |
| Grisu.FixedHandler.OnDigit | fmt-7.1.3/include/fmt/format-inl.h:1613-1643 | done exactly when the precision is reached and the remainder is clear of the error, more exactly when it is not reached and the error has not overtaken the remainder; when done, the digits spell the rounded number with its carry, in a string of the right length |
| Grisu.FixedHandler.RoundUp | fmt-7.1.3/include/fmt/format-inl.h:1630-1642 | adding one with carries adds one to the spelled number; a carry out of the first digit leaves a leading 1, and a longer string or a bigger exponent |
| Grisu.IntegralStep | fmt-7.1.3/include/fmt/format-inl.h:1526-1575 | the value is conserved by an integral digit |
| Grisu.FractionalStep | fmt-7.1.3/include/fmt/format-inl.h:1577-1585 | the value is conserved by a fractional digit, the unit of the error growing tenfold |
| Grisu.DigitDone | fmt-7.1.3/include/fmt/format-inl.h:1613-1643 | rounding away from or towards a conserved remainder that is clear of the error gives a nearest decimal |
| Grisu.GrisuGenDigits | fmt-7.1.3/include/fmt/format-inl.h:1507-1586 | terminates; the digits are found exactly when `Decides` holds of the scaled value and the precision, and then the buffer is a nearest decimal for every real within one unit of the scaled value, at exactly the place asked for and with as many digits |
| Grisu.DecidedMeans | fmt-7.1.3/include/fmt/format-inl.h:1481-1495 | a digit position is decided exactly when some multiple of its unit is nearest for the whole error band and, behind the point, the remainder exceeds the error |
| Grisu.Overtaken | fmt-7.1.3/include/fmt/format-inl.h:1577-1585 | once the error has overtaken the remainder it stays ahead, so an early error is the same as an undecided last digit |
| FormatFloat.Normalize | fmt-7.1.3/include/fmt/format-inl.h:1160-1173 | shifts the significand to 64 bits without changing the value |
| FormatFloat.ProductError | fmt-7.1.3/include/fmt/format-inl.h:1195-1199 | the rounded product of two rounded significands is less than one unit from the exact one |
| FormatFloat.GrisuPrints | fmt-7.1.3/include/fmt/format-inl.h:2464-2478 | a decimal nearest to everything within the error is strictly nearer to f * 2^e than any other, so f * 2^e is correctly rounded |
| FormatFloat.Estimate | fmt-7.1.3/include/fmt/format-inl.h:2473-2475 | the exponent handed to the fallback bounds the value |
| FormatFloat.GrisuThenFallback | fmt-7.1.3/include/fmt/format-inl.h:2471-2479 | whichever way the digits come about, they are the value rounded half to even at the place asked for, with a nonzero first digit and as many digits as the place and the format call for; one place is lost exactly when `Coarse` holds |
| FormatFloat.FormatFloat | fmt-7.1.3/include/fmt/format-inl.h:2430-2487 | for every nonnegative double, precision and format, the digits and exponent are the value rounded half to even at the place asked for, with the precision capped at 767; there are as many digits as asked for, and the first is not zero, except just below a power of ten; also which zeros are kept and the text of zero |
| FormatFloat.PreparedMagnitude | fmt-7.1.3/include/fmt/format-inl.h:2473-2475 | the value is below the estimated power of ten and at least a tenth of it, give or take one part in 2^58 |
| FormatFloat.PrintsLeads | fmt-7.1.3/include/fmt/format-inl.h:2473-2479 | a rounded decimal with as many digits as asked for starts with a nonzero digit when the value is at least a tenth of the power of ten |
| ZeroPrecision.CoarseResult | fmt-7.1.3/include/fmt/format-inl.h:2473-2476 | rounding one place higher still gives what rounding to one digit gives if and only if the value is at least 9.5 units of that digit |
| ZeroPrecision.CoarseHappens | fmt-7.1.3/include/fmt/format.h:1927-1936 | 2.5 with precision 0: Grisu cannot decide, and no result one place higher is 2.5 rounded to one digit |
| FormatFloat.PrintsTrimmed | fmt-7.1.3/include/fmt/format-inl.h:2479-2485 | dropping a trailing zero and raising the exponent keeps the printed number |
| PrecisionCap.CapExact | fmt-7.1.3/include/fmt/format-inl.h:2467-2470 | for every value and precision from 767, what is printed with 767 places and padded is correctly rounded for that precision if and only if the value is within half a unit of its last place of a multiple of 10^-767 |
| PrecisionCap.CapPlaces | fmt-7.1.3/include/fmt/format-inl.h:2467-2470 | when the precision suffices for the exact value, that condition says that the value needs no more than 767 places |
| PrecisionCap.CapLosesDigits | fmt-7.1.3/include/fmt/format-inl.h:2467-2470 | the smallest double with 1074 places: what is printed is wrong |
| PrecisionCap.SignificantDigitsSuffice | fmt-7.1.3/include/fmt/format-inl.h:2466-2468 | 767 significant digits of a double are its exact value, so padding them is right for every greater precision |
| Words.Multiply | fmt-7.1.3/include/fmt/format-inl.h:1184-1192 | the product of four halves is floor(x * y / 2^64 + 1/2), no intermediate word overflowing |
| Words.MultiplyAgrees | fmt-7.1.3/include/fmt/format-inl.h:1178-1193 | the branch with 128-bit integers gives the same |
| Words.Umul128 | fmt-7.1.3/include/fmt/format-inl.h:1649-1675 | the two words are the exact 128-bit product, no intermediate word overflowing |
| Words.DivideBy1000Exact | fmt-7.1.3/include/fmt/format-inl.h:1820-1822 | the reciprocal gives n / 1000 if and only if (n mod 1000) * 2^73 + 608 n < 1000 * 2^73, in particular whenever 608 n < 2^73 |
| Words.DivideBy1000Fails | fmt-7.1.3/include/fmt/format-inl.h:1820-1822 | a 64-bit word for which it does not |
| TrailingZeros.InverseDivides | fmt-7.1.3/include/fmt/format-inl.h:2048-2075 | for any odd m with inverse inv modulo M: x * inv mod M is at most (M - 1) / m exactly when m divides x, and then it is the quotient |
| TrailingZeros.DivisibleByFive | fmt-7.1.3/include/fmt/format-inl.h:2057-2080 | the 32-bit constants test and divide by 5 |
| TrailingZeros.DivisibleByFive8 | fmt-7.1.3/include/fmt/format-inl.h:2052-2056 | the 64-bit constants test and divide by 5^8 |
| TrailingZeros.LadderStart | fmt-7.1.3/include/fmt/format-inl.h:2082-2084 | the wrapped 32-bit subtraction is the remainder modulo 10^8 |
| TrailingZeros.RungDone | fmt-7.1.3/include/fmt/format-inl.h:2082-2122 | where the ladder stops, what it returns has no factor ten left and scales back to n |
| TrailingZeros.HighZeros | fmt-7.1.3/include/fmt/format-inl.h:2052-2080 | the same for the quotient by 10^8 and its loop |
| TrailingZeros.RemoveTrailingZeros | fmt-7.1.3/include/fmt/format-inl.h:2041-2123 | returns s and n1 with n = n1 * 10^s and 10 not dividing n1, for every 0 < n <= (2^64 - 1) / 1000 |
| Scanner.ScanShort | fmt-7.1.3/include/fmt/format.h:2991-3007 | the one-pass scanner delivers the text, field and error events of the reference semantics in order, and leaves the state that the events before an error made, for any handler whose errors do not return |
| Scanner.Find | fmt-7.1.3/include/fmt/format.h:2929-2942 | the first occurrence, or none |
| Scanner.Write | fmt-7.1.3/include/fmt/format.h:3008-3024 | the text between two fields is handed over as the reference semantics does, up to and including the error for an unmatched brace |
| Scanner.ScanLong | fmt-7.1.3/include/fmt/format.h:3025-3032 | the two-search scanner delivers the same events, on malformed strings too |
| Scanner.ParseFormatString | fmt-7.1.3/include/fmt/format.h:2986-3033 | both scanners have the same effect on every handler state for every string, malformed or not, so the length of the string does not matter |
| FormatSyntax.SingleLetter | fmt-7.1.3/include/fmt/format.h:3091-3092 | a lone letter before the closing brace parses to that type and nothing else |
| Compile.ShortcutAgrees | fmt-7.1.3/include/fmt/format.h:3083-3105 | the shortcut for a single letter does what parsing the specifiers would do |
| Compile.SpecsAgree | fmt-7.1.3/include/fmt/format.h:2501-2610 | checking specifiers while they are parsed and checking them before formatting accept the same and resolve to the same |
| Compile.FieldSimulates | fmt-7.1.3/include/fmt/compile.h:142-182 | compiling one field foretells the direct step: the same position and numbering, and the added part writes the same text or raises an error where direct formatting does |
| Compile.ScanExtends | fmt-7.1.3/include/fmt/compile.h:142-146 | compiling only ever appends parts |
| Compile.ScanSimulates | fmt-7.1.3/include/fmt/compile.h:142-193 | the same for the whole rest of a format string, by induction over the scan |
| Compile.RunParts | fmt-7.1.3/include/fmt/compile.h:206-269 | the loop over the parts is the specification Run, with the output before an error |
| Compile.RunStuck | fmt-7.1.3/include/fmt/compile.h:206-269 | a part that raises an error ends every longer run there, with the same output |
| Compile.FormatTo | fmt-7.1.3/include/fmt/format.h:3051-3107 | direct formatting through the scanners |
| Compile.CompileFormatString | fmt-7.1.3/include/fmt/compile.h:184-193 | compiling through the scanners |
| Compile.CompilingPreservesMeaning | fmt-7.1.3/include/fmt/compile.h:206-269 | for every format string and all arguments: if compiling fails, so does direct formatting; otherwise, when the arguments exist, direct formatting gives exactly the output of running the parts, or the same error after the same output; and it fails when an argument is missing |
| Buffers.FixedBufferTraits.Limit | fmt-7.1.3/include/fmt/core.h:755-768 | hands out what is left of the limit and counts everything |
| Buffers.IteratorBuffer.Flush | fmt-7.1.3/include/fmt/format.h:612-616 | copies out no more than the limit leaves, and counts the rest |
| Buffers.IteratorBuffer.TryReserve | fmt-7.1.3/include/fmt/core.h:727-733 | leaves room for at least one more character whenever more is asked for than fits |
| Buffers.IteratorBuffer.PushBack | fmt-7.1.3/include/fmt/core.h:735-738 | one more character of the output |
| Buffers.IteratorBuffer.Append | fmt-7.1.3/include/fmt/format.h:598-610 | the whole string is output through the 256 slots; every round makes progress |
| Buffers.IteratorBuffer.Out | fmt-7.1.3/include/fmt/core.h:791-794 | what has reached the output iterator is exactly the first min(n, total) characters |
| Buffers.IteratorBuffer.Count | fmt-7.1.3/include/fmt/core.h:795-795 | the full size of the output, truncated or not |
| Buffers.CopiedPrefix | fmt-7.1.3/include/fmt/core.h:755-768 | one flush extends the truncated output to the truncated longer output |
| Buffers.CountingBuffer.Append | fmt-7.1.3/include/fmt/core.h:834-846 | counts every character through 256 slots |
| Buffers.CountingBuffer.PushBack | fmt-7.1.3/include/fmt/core.h:735-738 | counts one more character |
| Buffers.CountingBuffer.Count | fmt-7.1.3/include/fmt/core.h:850-850 | the number of characters appended |
| Buffers.FormatToN | fmt-7.1.3/include/fmt/core.h:2017-2023 | for any run of appends, the first n characters and the full size |
| Buffers.FormattedSize | fmt-7.1.3/include/fmt/core.h:2047-2052 | the same size from the counting buffer |
| CountDigits.NumDigitsBounds | fmt-7.1.3/include/fmt/format.h:919-926 | d digits mean 10^(d-1) <= n < 10^d, with d = 1 for 0 |
| CountDigits.NumDigitsUnique | fmt-7.1.3/include/fmt/format.h:919-926 | only one d has that property |
| CountDigits.CountDigitsLoop | fmt-7.1.3/include/fmt/format.h:927-942 | the loop counts those digits |
| CountDigits.TableFits | fmt-7.1.3/include/fmt/format.h:898-906 | the entry of the table for highest bit b is the number of digits of the numbers with that bit, or one more |
| CountDigits.CountDigitsTable | fmt-7.1.3/include/fmt/format.h:919-925 | the table-based version agrees with the loop on every 64-bit number |
| IntText.DecimalTextSpells | fmt-7.1.3/include/fmt/format.h:1040-1070 | the digits without leading zeros spell the number, and there are as many as count_digits says |
| IntText.FormatDecimal | fmt-7.1.3/include/fmt/format.h:1047-1070 | writes exactly those digits up to the given end, two at a time, and nothing else |
| IntText.ParseNonnegativeInt | fmt-7.1.3/include/fmt/format.h:2348-2366 | consumes the whole run of digits and returns its number; an error exactly when it exceeds INT_MAX |
| IntText.PrintParse | fmt-7.1.3/include/fmt/format.h:2348-2366 | parsing what was printed gives the number back, or the error when it is too big |
| Grouping.PrecomputedSize | fmt-7.1.3/include/fmt/format.h:1669-1678 | the size computed in advance is the digits plus the separators of the grouping |
| Grouping.RepeatedGroup | fmt-7.1.3/include/fmt/format.h:1678-1678 | the division counts the separators of the last group repeating |
| Grouping.GroupedLength | fmt-7.1.3/include/fmt/format.h:1664-1703 | the grouped text has exactly that size |
| Grouping.GroupedPlain | fmt-7.1.3/include/fmt/format.h:1664-1703 | deleting the separators gives the digits back |
| Grouping.CompletesGroup | fmt-7.1.3/include/fmt/format.h:1691-1697 | the running index tells when a group is complete, also while the last one repeats |
| Grouping.FillBuffer | fmt-7.1.3/include/fmt/format.h:1681-1702 | filling backwards ends exactly at the first slot with the grouped text |
| Grouping.OnNum | fmt-7.1.3/include/fmt/format.h:1664-1703 | for every value, grouping string and separator: the grouped digits, or the plain ones without grouping |
| ShuffledRegion.Pigeonhole | util.cpp:229-231 | no more than n distinct indexes below n |
| ShuffledRegion.PermutationCovers | util.cpp:229-231 | n distinct indexes below n are all of them |
| ShuffledRegion.CacheLine.SetNexts | util.hpp:166-168 | every pointer of the line leads to the next line |
| ShuffledRegion.LinkRegion | util.cpp:233-239 | any permutation of the lines becomes one cycle through all of them |
| ShuffledRegion.Count | util.cpp:196-204 | terminates from any line of a cycle, with its length |
| ShuffledRegion.ShuffleRegion | util.cpp:213-241 | from any line of the region, counting gives the number of lines |

## Left out

- Fallback.FallbackFormat: the decoding of the double into significand, exponent and closer predecessor, also as binary32, is an input; exponents are bounded by 2^30 instead of the range of doubles.
- FormatFloat.FormatFloat: a table of cached powers is not part of this model; the entry used is any correctly rounded power of ten (`CachedPower`) that brings the exponent between -60 and -32. A negative precision, which goes to Dragonbox, and `snprintf_float` are not part of it either.
- FormatFloat.FormatFloat: does not promise a nonzero first digit for a value less than one part in 2^58 below a power of ten, which the estimate of the decimal exponent may take for that power; whether any double is that close depends on the table of powers.
- TrailingZeros.RemoveTrailingZeros: the repeated blocks of the ladder are one method called seven times, and the count of trailing zero bits is a function.
- CountDigits.CountDigitsTable: the table of 64 entries is written as its 20 runs and the table of powers as powers.
- Grouping.OnNum: the prefix and the sign character are left out, and the locale is an input.
- Compile.CompilingPreservesMeaning: arguments are of built-in type, and how they are written, or that writing them raises an error, is a parameter, the same for both ways; for a missing argument running the parts is undefined in the original, so the statement only says that direct formatting fails.
- ShuffledRegion.ShuffleRegion: the shuffle is any permutation, and lines are objects instead of addresses; alignment, huge pages and cache flushing are not part of this model.
- BigInt.Bigint.Square: the digits are copied first, where the original moves them out; memory buffers are sequences, and the 32-bit width of sizes and exponents is not modelled.
- Grisu.GrisuGenDigits: the switch over powers of ten is a division by that power.
- Buffers.IteratorBuffer.Append: leaves out the flush in the destructor and the versions that write straight to pointers or containers.
- Dragonbox's shortest algorithm and the 32-bit version of removing trailing zeros: they rest on tables and finite sweeps.
- Custom formatters, wide characters, chrono and colour formatting, and compiling at compile time.
- Benchmark registration, timers, performance counters, page and processor queries, and the assembly they measure.
