# Number conversion and compression engines of gmio, verified

gmio prints and parses floating-point numbers with the double-conversion library and writes compressed
files with zlib. This project models the algorithms of both that hold nearly all the branching, in-place
state and bounded arithmetic, in the form the sources have: classes and arrays that are updated in place,
loops with their invariants, machine words with overflow ruled out, and, beside them, independent
definitions of what the results mean. `dafny verify dfyconfig.toml` checks all of it.

What is proved, in four parts:

**Big integers** (`Arith`, `BigitSeq`, `Comba`, `Bignum`). A bignum has 128 bigits of 28 bits and a hidden
exponent; its value is `sum(bigits[i] * 2^(28 * i)) * 2^(28 * exponent)`. `Valid()` is the class invariant:
bigits below 2^28, zeros above the used ones, a clamped length, and exponent 0 for zero. Every operation
refines integer arithmetic on the value, and no 32-bit or 64-bit operation wraps around.

**Printing and reading numbers.** `ShortestSpec` says what the shortest decimal of a number is, `Ieee` and
`StrtodSpec` what reading a decimal as a double means (nearest, ties to even). On top of them:

- `BignumDtoa`, `CountedDtoa`, `StartValues`, `ExactDtoa`: the exact conversions, shortest, fixed and precision;
- `CachedPowers`, `PowerEstimate`: the table of powers of ten is within half a unit, entry by entry, and the
  estimated power of a double is right or one too low;
- `Scaling`, `FastDtoa`, `FastCounted`: the Grisu3 conversions, and `GrisuIsExact`, `PrecisionIsExact`: when they
  succeed they print what the exact path prints, in shortest and in precision mode;
- `UInt128`, `FastFixed`: the fast fixed conversion denotes the number of the exact one;
- `ErrorBounds`, `FastStrtod`: the fast reading conversion and its error analysis; `ExactDoubles`: the shortcut by
  machine operations; `Strtod`: the correctly rounding reader, including the cut after 780 digits;
- `RoundTrip`, `RoundedDigits`, `Numerals`, `Literals`, `DoubleToString`, `StringToDouble`: digits become text and
  text becomes digits. `Numerals` says what the decimal notation of a number is, from the number alone.

The end-to-end statements are `DoubleToString.DoubleToStringConverter.ToShortestIeeeNumber`,
`StringToDouble.StringToIeee` and `DoubleToString.PrintAndRead`: whatever finite double is printed, in either
notation, reading the text gives that double back, and no shorter decimal does. `ToFixed`, `ToExponential` and
`ToPrecision`, which gmio calls, write the number rounded to the places or digits asked for, character by character
as its notation has it, and from 17 digits on their texts read back, too.

**The LZ77 layer of deflate** (`Lz77`, `HashChain`, `MatchSearch`, `MatchRules`, `DeflateCalls`, `Deflate`,
`Stored`). `Lz77` defines the decoder of section 3.2.5 of RFC 1951 without the Huffman layer. The invariant of the
compressor relates the sliding window to absolute stream positions, says what is on the hash chains, and says that
blocks and symbols emitted decode to the input so far. It is kept by every step of the lazy and the greedy
compressor, across slides, refills, calls and full flushes. `MatchSearch` says what a search looks at (the newest
strings of a hash) and what a right answer is (the nearest of the longest matches); `MatchRules` says which matches
are taken: every literal and every match of a stream follows from right answers by the greedy or the lazy rule.
`Deflate` and `Stored` include deflate() itself with its replies, and `DeflateCalls` sequences of its calls.

**Checksums** (`Crc32`, `CrcMeaning`, `Adler32`). Both equal their bit-by-bit and byte-by-byte definitions, and both
combine functions give the checksum of the concatenation. Bursts of errors are detected, a text followed by its
CRC-32 leaves a fixed residue, and the halves of Adler-32 are weighted sums.

## Where the source and its own remarks differ

- The assertion of `bignum.cc:515`, that both numbers have the same length after the first loop of the
  division, does not hold for all inputs with a small quotient. `BignumModel.LengthsDiffer` gives an input and
  the contract of `RemoveExcess` the exact condition; the division is right either way and is proved without it.
- `fixed-dtoa.cc:262` shifts by `point - 1`, and `point` can be 0 there, which leaves the shift undefined. This
  happens exactly if the exponent is negative, there are at least as many places as fraction bits, and the
  significand is odd: `FastFixedDtoa` ensures it and `ShiftByMinusOne` gives an input. Nothing is left of the
  fraction then, so any shift that is not a trap gives the bit 0, as the model has it.
- `GenerateCountedDigits` asserts `count >= 0`, but writes `buffer[count - 1]`; its contract asks for
  `count >= 1`, which `BignumToFixed` and `DoubleToAscii` are proved to guarantee.
- `deflate.c:1513` can make `match_start` negative as an unsigned number; `MatchStartBelowZero` says exactly when.
  The model keeps the wrapped value; the distance computed from it is still right.
- The assertion on the exponent in `double-conversion.cc:884` fails if and only if more than 0x1fffffff places behind
  the point have to be made up for (`ExponentBefore`); `TooManyPlaces` gives a text. `StringToIeee` covers the texts
  for which it holds and as many digits before the point do not overflow the sum either (`CountersInRange`).
- `double-conversion.h:267` promises at most 127 characters from ToPrecision. With six padding zeros, as gmio sets
  them, a negative number can take 128: `PrecisionLength` says which, `LongestPrecision` gives one.
- `adler32.c:74` keeps a single byte fast with one subtraction, which is not enough if the second sum of the starting
  value is not reduced: the contract of `Adler32Z` says exactly when, `UnreducedStart` gives a value.

## What the contracts take as given

- Two floating-point products select powers of ten by their ceilings. They are taken as exact but for an arbitrary
  error, below 10^-10 and 0.0005 (`Noise`); the rounding of doubles adds less than 10^-12.
- `ExactDoubles.Machine`: where DoubleStrtod is compiled in, the machine's conversion, product and quotient of
  doubles are correctly rounded.
- In `Deflate`, how many bytes the Huffman layer makes of a block or of the mark of a flush is an arbitrary function
  of the blocks; a machine of 16-bit integers is not considered; hash_size, hash_mask and hash_shift follow from the
  memory level as in deflateInit2_.

Sequences of bytes stand for the input and output streams of zlib, and the level of compression is fixed for
a stream by the parameters that the configuration table would give.

## Model

| member | source | states |
|---|---|---|
| BignumModel.Bignum.constructor | src/3rdparty/double-conversion/bignum.cc:33-38 | a fresh bignum is well-formed and denotes 0 |
| BignumModel.Bignum.Clamp | src/3rdparty/double-conversion/bignum.cc:673-681 | leading zero bigits go, the value stays, and zero ends up with exponent 0 |
| BignumModel.Bignum.AssignUInt64 | src/3rdparty/double-conversion/bignum.cc:59-73 | the value is the machine word, for every word |
| BignumModel.Bignum.AssignBignum | src/3rdparty/double-conversion/bignum.cc:76-86 | the same value and representation as the operand, which is not changed |
| BignumModel.ReadUInt64 | src/3rdparty/double-conversion/bignum.cc:89-99 | up to 19 digits fit a 64-bit word and denote the decimal number read |
| BignumModel.Bignum.AssignDecimalString | src/3rdparty/double-conversion/bignum.cc:102-120 | the value of any digit string whose value stays below the capacity, leading zeros included, read in portions of 19 digits |
| BignumModel.Bignum.AddUInt64 | src/3rdparty/double-conversion/bignum.cc:161-166 | adds a 64-bit word exactly |
| BignumModel.Bignum.AddBignum | src/3rdparty/double-conversion/bignum.cc:169-208 | integer addition, whatever the two hidden exponents are; the capacity asked for is the one the code checks |
| BignumModel.Bignum.SubtractBignum | src/3rdparty/double-conversion/bignum.cc:211-235 | integer subtraction of a number that is not larger; no borrow is left over |
| BignumModel.Bignum.ShiftLeft | src/3rdparty/double-conversion/bignum.cc:238-244 | multiplication by 2^n, of which only n mod 28 bits move |
| BignumModel.Bignum.BigitsShiftLeft | src/3rdparty/double-conversion/bignum.cc:722-735 | the bigits are multiplied by 2^n without any bit lost at bigit borders |
| BignumModel.Bignum.MultiplyByUInt32 | src/3rdparty/double-conversion/bignum.cc:247-270 | multiplication by any 32-bit factor that fits the capacity, without 64-bit overflow |
| BignumModel.MultiplyBigit | src/3rdparty/double-conversion/bignum.cc:283-290 | one step of the 64-bit multiplication: carry <= factor is kept and makes every intermediate fit 64 bits |
| BignumModel.Bignum.MultiplyByUInt64 | src/3rdparty/double-conversion/bignum.cc:273-297 | multiplication by every 64-bit factor that fits the capacity |
| BignumModel.Bignum.MultiplyByPowerOfTen | src/3rdparty/double-conversion/bignum.cc:300-337 | multiplication by 10^n: the powers of five by the constant tables, the powers of two by a shift |
| BignumModel.Bignum.AddLowColumn | src/3rdparty/double-conversion/bignum.cc:370-379 | a column of the square is the convolution sum of that index, added without 64-bit overflow |
| BignumModel.Bignum.LowColumns | src/3rdparty/double-conversion/bignum.cc:367-382 | the lower half of the square is finished while the copied operand in the upper half is untouched |
| BignumModel.Bignum.HighColumns | src/3rdparty/double-conversion/bignum.cc:383-400 | the upper half overwrites only bigits of the copy that are never read again |
| Comba.ColumnSumIsProduct | src/3rdparty/double-conversion/bignum.cc:345-351 | the weighted columns add up to the square of the number |
| BignumModel.Bignum.Square | src/3rdparty/double-conversion/bignum.cc:340-409 | the value squared, in place; the final accumulator is 0 |
| BignumModel.PowerInWord | src/3rdparty/double-conversion/bignum.cc:445-465 | left-to-right exponentiation in a 64-bit word loses nothing; the one multiplication that may not fit is delayed, at most once, and is the last step of the word phase |
| BignumModel.Bignum.AssignPowerUInt16 | src/3rdparty/double-conversion/bignum.cc:412-482 | base^n for every base but 0 and every n within the capacity that the code checks |
| BignumModel.Bignum.SubtractTimes | src/3rdparty/double-conversion/bignum.cc:738-763 | subtracts a 16-bit multiple that is not larger; no borrow is left over and the result is clamped |
| BignumModel.Bignum.Excess | src/3rdparty/double-conversion/bignum.cc:503-508 | the two assertions inside the division loop hold: a divisor of leading bigit >= 2^24 and a dividend of leading bigit < 2^16, one step never subtracting too much |
| BignumModel.Bignum.RemoveExcess | src/3rdparty/double-conversion/bignum.cc:501-515 | the loop takes away multiples of the divisor only, and leaves fewer bigits than the divisor has, contrary to the assertion of line 515, exactly when the remainder of the whole division is below the weight of the divisor's leading bigit but not below what the divisor lacks to the next power of 2^28 |
| BignumModel.LengthsDiffer | src/3rdparty/double-conversion/bignum.cc:515 | 2^56 over 2^56 - 1 is an input for which the assertion of line 515 does not hold |
| BignumModel.Bignum.Estimate | src/3rdparty/double-conversion/bignum.cc:532-540 | the quotient estimated from the leading bigits never overshoots, and where the early return is taken it is exact; also when the dividend got shorter than the divisor |
| BignumModel.Bignum.DivideModuloIntBignum | src/3rdparty/double-conversion/bignum.cc:485-549 | quotient and remainder of every division with a quotient below 16, the remainder clamped |
| BignumModel.Bignum.Compare | src/3rdparty/double-conversion/bignum.cc:618-633 | the sign of a - b |
| BignumModel.Bignum.EarlyExits | src/3rdparty/double-conversion/bignum.cc:643-644 | each early exit on the lengths has the sign of a + b - c |
| BignumModel.Bignum.HiddenDigitsExit | src/3rdparty/double-conversion/bignum.cc:645-650 | the exit on a large hidden exponent of a is justified |
| BignumModel.Bignum.PlusCompare | src/3rdparty/double-conversion/bignum.cc:636-670 | the sign of a + b - c for all clamped a, b, c, without forming the sum; the swap ends |
| BignumModel.Bignum.Align | src/3rdparty/double-conversion/bignum.cc:698-719 | the value and the length stay, the exponent becomes the smaller of the two |
| StartValues.PositiveExponent | src/3rdparty/double-conversion/bignum-dtoa.cc:417-446 | for e >= 0: numerator / denominator = v / 10^k and the deltas are half the gap to the neighbours |
| StartValues.NegativeExponentPositivePower | src/3rdparty/double-conversion/bignum-dtoa.cc:450-480 | the same for e < 0 and k >= 0 |
| StartValues.NegativeExponentNegativePower | src/3rdparty/double-conversion/bignum-dtoa.cc:484-527 | the same for e < 0 and k < 0, where the numerator carries the power of ten |
| StartValues.InitialScaledStartValues | src/3rdparty/double-conversion/bignum-dtoa.cc:568-598 | in all three cases, with the closer lower boundary adjusted, the four numbers are exact |
| StartValues.FixupMultiply10 | src/3rdparty/double-conversion/bignum-dtoa.cc:612-639 | the estimate is raised exactly if the upper boundary reaches the next power, otherwise the three numbers are multiplied by ten |
| ExactDtoa.FixedUp | src/3rdparty/double-conversion/bignum-dtoa.cc:142-147 | after the fix-up the interval is below ten and reaches one, which is the precondition of the digit loop, and asks the same question about shortest decimals as v itself |
| PowerEstimate.NormalizedExponent | src/3rdparty/double-conversion/bignum-dtoa.cc:37-44 | the exponent with all 53 bits of the significand in use |
| PowerEstimate.PowerBelow | src/3rdparty/double-conversion/bignum-dtoa.cc:385-413 | 10^a <= 2^n if a is below n times the constant for lg 2, for all exponents of doubles: no fraction with such a denominator lies between the constant and lg 2 |
| PowerEstimate.EstimateIsOk | src/3rdparty/double-conversion/bignum-dtoa.cc:361-413 | the estimated power of ten of every positive double is right or one too low, whatever the rounding of the product and the difference adds |
| BignumDtoa.GeneratingStep | src/3rdparty/double-conversion/bignum-dtoa.cc:195-231 | what each round of the digit loop keeps: the digits so far are a prefix of v, the room tests decide whether they, or they plus one, read back as v, nothing shorter does, and rounding up never meets a nine |
| BignumDtoa.StillRoom | src/3rdparty/double-conversion/bignum-dtoa.cc:222-231 | the loop ends: the deltas grow tenfold while the remainder stays below the denominator |
| BignumDtoa.FirstDigit | src/3rdparty/double-conversion/bignum-dtoa.cc:182-184 | under the standard precondition a first digit 0 is always rounded up, so the first digit is not zero |
| BignumDtoa.RoundDecision | src/3rdparty/double-conversion/bignum-dtoa.cc:232-272 | the choice between rounding down and up takes the nearer decimal, ties to the even digit |
| BignumDtoa.GenerateShortestDigits | src/3rdparty/double-conversion/bignum-dtoa.cc:185-274 | the digits are the shortest decimal in the rounding interval (closed just for an even significand), closest to v among those of its length; also with delta_plus aliased to delta_minus |
| ShortestSpec.ClosestNeighbor | src/3rdparty/double-conversion/bignum-dtoa.cc:232-258 | the rounding decision is right against every other decimal of the same number of places |
| ShortestSpec.FewestDigits | src/3rdparty/double-conversion/bignum-dtoa.cc:172-184 | no decimal whatsoever, of any exponent, that reads back as v has fewer digits |
| ExactDtoa.SeventeenDigits | src/3rdparty/double-conversion/bignum-dtoa.cc:133-137 | a double never needs more than 17 digits |
| ExactDtoa.ShortestDtoa | src/3rdparty/double-conversion/bignum-dtoa.cc:89-168 | the whole shortest mode: from f, e and a power that is right or one too low to at most 17 digits that are the shortest decimal of v, without a leading zero |
| CountedDtoa.GenerateCountedDigits | src/3rdparty/double-conversion/bignum-dtoa.cc:283-318 | count digits of v, rounded half up, with the carry through nines moving the decimal point |
| CountedDtoa.BignumToFixed | src/3rdparty/double-conversion/bignum-dtoa.cc:326-367 | the number rounded half up to the requested places, also when it is too small for any digit or just rounds to one |
| ExactDtoa.FixedDtoa | src/3rdparty/double-conversion/bignum-dtoa.cc:89-168 | fixed mode denotes floor(v * 10^places + 1/2), including the shortcut for tiny numbers |
| ExactDtoa.PrecisionDtoa | src/3rdparty/double-conversion/bignum-dtoa.cc:160-164 | precision mode gives the count leading digits of v, rounded half up, the first one not zero; a carry through all nines moves the decimal point |
| ExactDtoa.OddIsNoPowerOfTen | src/3rdparty/double-conversion/bignum-dtoa.cc:612-639 | an odd significand never makes v an exact power of ten, so in the modes without deltas the fix-up takes the right branch |
| FastDtoa.Multiply | src/3rdparty/double-conversion/diy-fp.cc:34-55 | the upper 64 bits of the 128-bit product, rounded, computed from 32-bit halves without overflow |
| CachedPowers.Upward | src/3rdparty/double-conversion/cached-powers.cc:89-110 | each entry is normalized and less than half a unit off its power of ten |
| CachedPowers.HighPowers | src/3rdparty/double-conversion/cached-powers.cc:111-131 | the same for the entries from 10^180 on |
| CachedPowers.Downward | src/3rdparty/double-conversion/cached-powers.cc:67-88 | the same for the entries below 10^4 |
| CachedPowers.LowPowers | src/3rdparty/double-conversion/cached-powers.cc:45-66 | the same for the entries below 10^-172 |
| CachedPowers.GetCachedPowerForBinaryExponentRange | src/3rdparty/double-conversion/cached-powers.cc:141-158 | the entry found lies in the range asked for, whatever the rounding of the product adds |
| Scaling.Normalize | src/3rdparty/double-conversion/diy-fp.h:77-95 | the same number with the top bit set, by shifts of ten bits and of one |
| Scaling.AsNormalizedDiyFp | src/3rdparty/double-conversion/ieee.h:66-80 | the value of any positive double with the top bit set |
| Scaling.NormalizedBoundaries | src/3rdparty/double-conversion/ieee.h:171-185 | both boundaries of any positive double with the exponent of the normalized upper one |
| Scaling.SameExponent | src/3rdparty/double-conversion/fast-dtoa.cc:537 | the assertion that value and upper boundary are normalized to the same exponent holds |
| Scaling.ProductIsNear | src/3rdparty/double-conversion/fast-dtoa.cc:548-570 | the rounded product with a cached power is less than one unit off |
| Scaling.Scale | src/3rdparty/double-conversion/fast-dtoa.cc:519-570 | for every positive double, value and boundaries times a power of ten come out less than one unit off, with an exponent from -60 to -32 |
| FastDtoa.BiggestPowerTen | src/3rdparty/double-conversion/fast-dtoa.cc:240-256 | the largest power of ten not above the number, for every width the guess is used with |
| FastDtoa.RoundWeed | src/3rdparty/double-conversion/fast-dtoa.cc:61-166 | on success the weeded digits are inside the safe interval and the closest to w for every w within one unit; the last digit never drops below 0, and no 64-bit operation overflows, those in the conditions included |
| FastDtoa.AtMostSixteen | src/3rdparty/double-conversion/fast-dtoa.cc:348-395 | the loops end after at most 16 undecided digits, so the buffer and the 64-bit error unit suffice |
| FastDtoa.WeededIsShortest | src/3rdparty/double-conversion/fast-dtoa.cc:258-298 | what weeding establishes on scaled integers is the statement about reals: between the true boundaries, no multiple of a larger power of ten there, nothing closer to the true w |
| FastDtoa.DigitGen | src/3rdparty/double-conversion/fast-dtoa.cc:300-396 | whenever it succeeds, for all true low, w and high less than one unit off the inputs, the digits lie strictly between low and high, no shorter decimal does, and no other of that length is as close to w |
| FastCounted.RoundWeedCounted | src/3rdparty/double-conversion/fast-dtoa.cc:181-223 | rounds down or up when that is right for every value within the unit, with the carry through nines, and fails exactly when neither is certain |
| FastCounted.DigitGenCounted | src/3rdparty/double-conversion/fast-dtoa.cc:428-505 | on success the requested digits are, at the last place of w, the rounding of every true w less than one unit off; after a carry through all nines the place is one below the power returned; a digit of the fraction comes out only if w has one |
| PrecisionIsExact.CountedIsRoundV | src/3rdparty/double-conversion/fast-dtoa.cc:591-632 | the number of the fast precision path is v rounded half up at its last place |
| PrecisionIsExact.CountedIsPrecision | src/3rdparty/double-conversion/fast-dtoa.cc:591-632 | its characters are what precision mode means by definition: as many leading digits of v, rounded half up, seen from the power of ten of v itself, even if the approximation has reached the next one |
| PrecisionIsExact.SamePrecision | src/3rdparty/double-conversion/double-conversion.cc:400-413 | whenever the fast precision path succeeds, the exact path writes the same characters and the same decimal point |
| GrisuIsExact.BoundariesFollow | src/3rdparty/double-conversion/ieee.h:171-185 | the scaled boundaries of a double, each less than one unit off, are ordered and far enough apart for 16 digits, with the closer lower boundary too |
| GrisuIsExact.FastIsShortest | src/3rdparty/double-conversion/fast-dtoa.cc:519-583 | digits of the fast path are the shortest decimal of the exact interval, as the exact path defines it |
| GrisuIsExact.FastIsExact | src/3rdparty/double-conversion/fast-dtoa.cc:519-583 | fast and exact path agree on the number |
| GrisuIsExact.SameOutput | src/3rdparty/double-conversion/double-conversion.cc:388-413 | they agree on every character and on the decimal point |
| UInt128Model.UInt128.Multiply | src/3rdparty/double-conversion/fixed-dtoa.cc:42-57 | 128-bit times 32-bit multiplication is exact when the product fits |
| UInt128Model.UInt128.Shift | src/3rdparty/double-conversion/fixed-dtoa.cc:59-78 | shifts in both directions by up to 64 bits are division and multiplication by powers of two |
| UInt128Model.UInt128.DivModPowerOf2 | src/3rdparty/double-conversion/fixed-dtoa.cc:82-95 | quotient and remainder by 2^power, for powers 1 to 127 |
| UInt128Model.UInt128.BitAt | src/3rdparty/double-conversion/fixed-dtoa.cc:101-107 | the bit of that weight |
| FastFixed.FillDigits32 | src/3rdparty/double-conversion/fixed-dtoa.cc:130-150 | appends the digits of the number, exchanged into reading order, without a leading zero |
| FastFixed.FillDigits64FixedLength | src/3rdparty/double-conversion/fixed-dtoa.cc:153-165 | appends exactly 17 digits of a number below 10^17 |
| FastFixed.FillDigits64 | src/3rdparty/double-conversion/fixed-dtoa.cc:168-186 | appends the digits of any 64-bit number, inner parts padded |
| FastFixed.RoundUp | src/3rdparty/double-conversion/fixed-dtoa.cc:189-216 | one more in the last place, with the carry through nines and the empty buffer standing for zero |
| FastFixed.FillFractionals64 | src/3rdparty/double-conversion/fixed-dtoa.cc:237-264 | up to 64 fraction bits become digits rounded half up, without overflow; the last step shifts by -1 if and only if there are as many places as fraction bits and the lowest of them is set |
| FastFixed.PointAtZero | src/3rdparty/double-conversion/fixed-dtoa.cc:238-262 | the point comes down to 0 exactly then, and nothing is left of the fraction |
| FastFixed.ShiftByMinusOne | src/3rdparty/double-conversion/fixed-dtoa.cc:262 | 4503599627370495.5 with one place gets there |
| FastFixed.FillFractionals128 | src/3rdparty/double-conversion/fixed-dtoa.cc:265-285 | the same for up to 128 fraction bits |
| FastFixed.TrimZeros | src/3rdparty/double-conversion/fixed-dtoa.cc:291-306 | the number denoted stays; no zero is left at either end |
| FastFixed.FastFixedDtoa | src/3rdparty/double-conversion/fixed-dtoa.cc:309-402 | works exactly for e <= 20 and at most 20 places, and then denotes floor(v * 10^places + 1/2), the number of the exact fixed mode; a shift by -1 happens on the way exactly for odd significands with at most as many fraction bits as places |
| Ieee.SignificandBounds | src/3rdparty/double-conversion/ieee.h:111-128 | significand and exponent of every double are in range, also for denormals |
| Ieee.NextIsOneUlp | src/3rdparty/double-conversion/ieee.h:88-99 | the next double is one unit in the last place away, also where the exponent changes |
| Ieee.UpperBoundaryIsMid | src/3rdparty/double-conversion/ieee.h:162-165 | the upper boundary is exactly the midpoint to the next double |
| Ieee.LowerMid | src/3rdparty/double-conversion/ieee.h:187-198 | the lower boundary is half a unit away, and a quarter exactly where LowerBoundaryIsCloser says so |
| Ieee.RoundedIsNearest | src/3rdparty/double-conversion/strtod.cc:448-472 | the definition of rounding used here picks a nearest double, the even one of two |
| StrtodSpec.EveryDecimalReads | src/3rdparty/double-conversion/strtod.cc:448-472 | every decimal reads as some double |
| StrtodSpec.OneDouble | src/3rdparty/double-conversion/strtod.cc:448-472 | and as one only |
| StrtodModel.TrimLeadingZeros | src/3rdparty/double-conversion/strtod.cc:91-98 | all leading zeros and nothing else are cut off |
| StrtodModel.TrimTrailingZeros | src/3rdparty/double-conversion/strtod.cc:101-108 | all trailing zeros and nothing else are cut off |
| StrtodModel.CutToMaxSignificantDigits | src/3rdparty/double-conversion/strtod.cc:111-126 | 779 digits and a final one, with the exponent adjusted |
| StrtodSpec.ShortBoundary | src/3rdparty/double-conversion/strtod.cc:86-89 | every boundary between doubles is a number of at most 772 significant digits |
| StrtodSpec.CutReadsTheSame | src/3rdparty/double-conversion/strtod.cc:111-126 | replacing everything behind 772 or more digits by a final one does not change the double read, whatever its boundary |
| StrtodModel.TrimAndCut | src/3rdparty/double-conversion/strtod.cc:133-150 | the trimmed and cut digits read as the same double |
| StrtodModel.CompareBufferWithDiyFp | src/3rdparty/double-conversion/strtod.cc:392-419 | the sign of the exact difference between the decimal and f * 2^e, within the capacity of a bignum |
| StrtodSpec.HugeReadsAsInfinity | src/3rdparty/double-conversion/strtod.cc:429-432 | what is beyond the largest decimal power reads as infinity |
| StrtodSpec.TinyReadsAsZero | src/3rdparty/double-conversion/strtod.cc:433-436 | what is below the smallest decimal power reads as zero |
| ErrorBounds.MultiplyExact | src/3rdparty/double-conversion/strtod.cc:306-318 | multiplication by an exact power of ten adds half a unit of error at most |
| ErrorBounds.MultiplyCached | src/3rdparty/double-conversion/strtod.cc:320-331 | multiplication by an entry of the table adds one unit, and one eighth if there was an error before; the new bound is never reached |
| CachedPowers.GetCachedPowerForDecimalExponent | src/3rdparty/double-conversion/cached-powers.cc:161-173 | the entry found is at most seven powers below the exponent |
| FastStrtod.ReadUint64 | src/3rdparty/double-conversion/strtod.cc:158-169 | as many digits as surely fit 64 bits, and all if there are no more |
| FastStrtod.ReadDiyFp | src/3rdparty/double-conversion/strtod.cc:176-194 | the digits read are within half a unit of the number, and exact if all are read |
| FastStrtod.AdjustmentIsExact | src/3rdparty/double-conversion/strtod.cc:251-268 | the small powers of ten are exact and normalized |
| FastStrtod.WholeProduct | src/3rdparty/double-conversion/strtod.cc:309-312 | up to 19 digits times a small power lose no bit although the normalized product has 128 bits |
| FastStrtod.ScaleByTen | src/3rdparty/double-conversion/strtod.cc:297-331 | the number times its power of ten, with an error that the counter bounds |
| FastStrtod.DiyFpToUint64 | src/3rdparty/double-conversion/ieee.h:233-258 | significand and exponent as a double, infinity above the range and zero below |
| FastStrtod.BitsBounds | src/3rdparty/double-conversion/strtod.cc:355-376 | what the bits behind the precision say of the number: below or above the midpoint if they are further from half than the error, and never more than a quarter of a unit below or one and a half above |
| FastStrtod.NotJustAbove | src/3rdparty/double-conversion/strtod.cc:336-353 | where the significand has no bit left the number is not above half of the smallest double: the error bound alone would allow it, but the 19 digits of such numbers are known and their products with 10^6 and 10^-348 need no shift |
| FastStrtod.RoundInput | src/3rdparty/double-conversion/strtod.cc:337-380 | the rounded double is right if the error cannot matter, and otherwise right or one too low; zero, denormals and infinity included |
| FastStrtod.DiyFpStrtod | src/3rdparty/double-conversion/strtod.cc:274-381 | for all digits and exponents a certain result is the double read, and an uncertain one is it or its lower neighbour |
| ExactDoubles.PowerIsExact | src/3rdparty/double-conversion/strtod.cc:58-83 | the powers of ten up to 10^22 are doubles without rounding |
| ExactDoubles.ExactInteger | src/3rdparty/double-conversion/strtod.cc:212-240 | integers of 53 bits convert without rounding |
| ExactDoubles.DoubleStrtod | src/3rdparty/double-conversion/strtod.cc:197-246 | with correctly rounded operations the result of up to two of them is the double read |
| StrtodModel.ComputeGuess | src/3rdparty/double-conversion/strtod.cc:423-446 | a correct guess is the double read; any other is it or its lower neighbour |
| StrtodModel.Strtod | src/3rdparty/double-conversion/strtod.cc:448-472 | the double that the decimal reads as, ties to even, for all digits and exponents |
| RoundTrip.FitsIffReadsAs | src/3rdparty/double-conversion/bignum-dtoa.cc:172-181 | a decimal lies in the interval of the printing side exactly if the reading side reads it as the double |
| RoundTrip.ReadsBack | src/3rdparty/double-conversion/double-conversion.cc:161-196 | the shortest digits of a double read back as it and as no other |
| RoundTrip.NothingShorterReadsBack | src/3rdparty/double-conversion/double-conversion.cc:161-196 | no decimal of fewer digits, whatever its exponent, reads as it |
| DoubleToString.DoubleToAscii | src/3rdparty/double-conversion/double-conversion.cc:355-414 | in shortest mode the digits are the shortest and closest of the double, in fixed mode they denote it rounded half up at the requested place, in precision mode they are its leading digits rounded half up, from whichever path they come; zero is one digit, and no digits requested is an empty buffer |
| DoubleToString.DoubleToStringConverter.CreateDecimalRepresentation | src/3rdparty/double-conversion/double-conversion.cc:113-158 | in all three layouts the text is the decimal notation of exactly the number of the digits: that many places, no leading zero but a single one, and the point and zero that the flags add; without any place a number below one is written as zero |
| DoubleToString.DoubleToStringConverter.AddExponent | src/3rdparty/double-conversion/double-conversion.cc:96-110 | the numeral of the exponent, filled from the back, without leading zeros |
| DoubleToString.DoubleToStringConverter.CreateExponentialRepresentation | src/3rdparty/double-conversion/double-conversion.cc:75-110 | one digit, a point only if more follow, the exponent character, the sign the flag asks for and the numeral of the exponent: a literal of exactly digits * 10^(exponent + 1 - length) |
| DoubleToString.DoubleToStringConverter.ToShortestIeeeNumber | src/3rdparty/double-conversion/double-conversion.cc:161-196 | the text with its sign is a literal that reads as the double and as no other: the decimal notation of its shortest digits, or their exponential one if the size of the number asks for it |
| DoubleToString.DoubleToStringConverter.ToFixed | src/3rdparty/double-conversion/double-conversion.cc:199-232 | works exactly for at most 60 places and numbers below 10^60, and then writes the decimal notation, with exactly that many places, of v rounded half up to the places, in at most 122 characters |
| DoubleToString.DoubleToStringConverter.ToExponential | src/3rdparty/double-conversion/double-conversion.cc:235-281 | writes in exponential notation v rounded half up to the digits requested, or its shortest digits, in at most 128 characters; from 16 digits behind the point on the text reads as v and no other double |
| DoubleToString.DoubleToStringConverter.ToPrecision | src/3rdparty/double-conversion/double-conversion.cc:284-338 | writes v rounded half up to that many significant digits, in exponential notation exactly if padding would exceed the limits and in decimal notation otherwise; from 17 digits on the text reads as v and no other double |
| DoubleToString.DoubleToStringConverter.PaddingZeros | src/3rdparty/double-conversion/double-conversion.cc:312-336 | decimal notation has zeros in front of and behind the digits as said, and precision mode avoids it exactly if one of the two numbers of zeros exceeds its limit |
| DoubleToString.DoubleToStringConverter.PrecisionLength | src/3rdparty/double-conversion/double-conversion.h:267-269 | the bound on the length documented does not hold with six padding zeros: it is exceeded exactly by negative numbers with five zeros behind the point |
| DoubleToString.DoubleToStringConverter.LongestPrecision | src/3rdparty/double-conversion/double-conversion.h:267-269 | -2^-19 with 120 digits takes 128 characters |
| RoundedDigits.SeventeenReadBack | src/3rdparty/double-conversion/double-conversion.h:292-295 | 17 significant digits, rounded half up, identify a double |
| RoundedDigits.RoundedBelowSixty | src/3rdparty/double-conversion/double-conversion.cc:209-218 | a double below the limit has at most 60 digits before the point, however it is rounded, so the buffer is large enough |
| Literals.ParsesBack | src/3rdparty/double-conversion/double-conversion.cc:113-158 | a text composed of sign, digits, point, digits and exponent parses into those parts |
| Numerals.PlainIsNumeral | src/3rdparty/double-conversion/double-conversion.cc:96-110 | a number has one notation without leading zeros only |
| Numerals.WholeAndFraction | src/3rdparty/double-conversion/double-conversion.cc:113-158 | digits without a leading zero, divided by a point, are the decimal notation of their number: the quotient by a power of ten, and the last digits |
| Numerals.NumeralsDiffer | src/3rdparty/double-conversion/double-conversion.cc:96-110 | different numbers have different notations |
| StringToDouble.DroppedStaysBetween | src/3rdparty/double-conversion/double-conversion.cc:930-933 | when a non-zero digit is dropped, the appended one keeps the value strictly between the two adjacent truncations |
| StringToDouble.KeptReadsAlike | src/3rdparty/double-conversion/double-conversion.cc:433-440 | the 772 digits kept, with that one appended, read as the same double as all digits |
| StringToDouble.WholeDigits | src/3rdparty/double-conversion/double-conversion.cc:778-792 | the digits before the point: kept ones in the buffer, others counted into the exponent, a dropped non-zero one remembered |
| StringToDouble.FractionPart | src/3rdparty/double-conversion/double-conversion.cc:811-839 | the same behind the point, where leading zeros move into the exponent |
| StringToDouble.ExponentPart | src/3rdparty/double-conversion/double-conversion.cc:850-906 | accepts exactly well-formed exponents and clamps their value without overflow |
| StringToDouble.Convert | src/3rdparty/double-conversion/double-conversion.cc:911-945 | the buffer and the adjusted exponent read as the double of the whole literal, also when the exponent was clamped |
| StringToDouble.StringToIeee | src/3rdparty/double-conversion/double-conversion.cc:634-946 | empty exactly for the empty text, junk exactly for a text that is no literal, and otherwise the sign of the literal and the double it rounds to; all characters are consumed; for all texts that keep the counters in the range asserted |
| StringToDouble.CopyDigits | src/3rdparty/double-conversion/double-conversion.cc:753-840 | what the two digit loops leave: digits, flags, and counters with their exact values |
| StringToDouble.TooManyPlaces | src/3rdparty/double-conversion/double-conversion.cc:884 | the assertion on the exponent fails for a point, 2^29 zeros, a one and an exponent |
| DoubleToString.PrintAndRead | src/3rdparty/double-conversion/double-conversion.cc:161-196 | any finite double printed by the writer and read by the reader is that double, with its sign |
| DoubleToString.DenotedReads | src/3rdparty/double-conversion/double-conversion.cc:634-946 | any text of the two layouts is read as the double nearest to the number written |
| DoubleToString.PrintedReadsBack | src/3rdparty/double-conversion/double-conversion.cc:634-946 | reading what was printed for a double gives that double, sign included |
| Lz77.CopyIsText | src/3rdparty/zlib/deflate.c:1226-1230 | a copy from any distance, overlapping itself or not, reproduces a text that repeats at that distance |
| Lz77.BlocksDecode | src/3rdparty/zlib/deflate.c:1605-1614 | blocks that spell a text decode to it, symbol by symbol |
| Lz77.DecodedInLimits | src/3rdparty/zlib/deflate.h:289-292 | in anything that decodes, every pair has a length of 3 to 258 and a distance from 1 to the reach of the decoder |
| HashChain.HashRolls | src/3rdparty/zlib/deflate.c:157-163 | the hash of three bytes does not depend on the bytes before, so it can be rolled, for every hash size |
| HashChain.ThirdByte | src/3rdparty/zlib/deflate.c:1335-1340 | equal hashes and two equal bytes leave no choice for the third, for every hash size in use |
| HashChain.HashedAlike | src/3rdparty/zlib/deflate.c:1335-1342 | so two strings of one chain that agree in two bytes agree in three, the comparison left out |
| HashChain.InsertKeepsChains | src/3rdparty/zlib/deflate.c:181-185 | inserting a string keeps the chains: the head of a chain is the newest string of its hash, and each link leads to the newest one before it |
| HashChain.SlideKeepsChains | src/3rdparty/zlib/deflate.c:201-225 | sliding both tables keeps the chains, and forgets only what is out of reach |
| HashChain.InputKeepsChains | src/3rdparty/zlib/deflate.c:1534-1535 | more input keeps the chains |
| HashChain.ChainStep | src/3rdparty/zlib/deflate.c:1372-1373 | the next link of a string inside the window leads to the newest earlier string of the same hash, or nowhere if there is none |
| MatchSearch.ChainIsNewest | src/3rdparty/zlib/deflate.c:1372-1373 | following a chain finds the newest strings of its hash, as many as asked for, without a gap |
| MatchSearch.HeadReaches | src/3rdparty/zlib/deflate.c:1961-1962 | the strings within reach are those of the chain from its head on: none if the head is too far away |
| MatchSearch.BestIsLongest | src/3rdparty/zlib/deflate.c:1375-1376 | the longest match of the window, cut at the end of the input, is the longest of the input, and the nearest of those: what lies behind the input does not matter |
| MatchRules.LazyRound | src/3rdparty/zlib/deflate.c:1943-2033 | a round keeps the lazy rule: a match is emitted if and only if that of the next string is not longer, and a literal otherwise |
| MatchRules.GreedyRound | src/3rdparty/zlib/deflate.c:1858-1906 | a round keeps the greedy rule: a match is emitted if and only if there is one |
| MatchRules.LongerThanWaiting | src/3rdparty/zlib/deflate.c:1984-1986 | a match emitted is longer than the one that waited when it was found |
| MatchRules.MatchMeans | src/3rdparty/zlib/deflate.c:1967-1986 | what a match emitted says, at any time in a stream: it repeats one of the newest strings of its hash within reach, as many as are searched, none of which agrees in more bytes unless the match is as long as is looked for, and no nearer one in as many |
| MatchRules.LiteralMeans | src/3rdparty/zlib/deflate.c:1955-2020 | what a literal emitted says: there was no search, or no string searched agrees in three bytes, or the match does not pay, or that of the next string is longer |
| DeflateModel.DeflateState.constructor | src/3rdparty/zlib/deflate.c:1194-1220 | a new stream satisfies the invariants of both compressors |
| DeflateModel.DeflateState.InsertString | src/3rdparty/zlib/deflate.c:163-185 | rolls the hash, links the string in and returns the newest string of the same hash before it, or nil |
| DeflateModel.DeflateState.SlideHash | src/3rdparty/zlib/deflate.c:201-225 | every entry of both tables moves down by the window size or becomes nil |
| DeflateModel.DeflateState.Compare | src/3rdparty/zlib/deflate.c:1341-1357 | the unrolled comparison counts equal bytes up to 258 and stops at the first difference |
| DeflateModel.DeflateState.TryMatch | src/3rdparty/zlib/deflate.c:1330-1357 | a candidate is skipped only if it cannot be longer than the best match |
| DeflateModel.DeflateState.LongestMatch | src/3rdparty/zlib/deflate.c:1236-1377 | the answer is right for the input: the nearest of the longest matches among the newest strings of the hash, as many as the chain length allows, cut at the lookahead, or the nearest that is nice enough, at a distance from 1 to MAX_DIST |
| DeflateModel.DeflateState.SlideWindow | src/3rdparty/zlib/deflate.c:1510-1518 | after the upper half moves down, window, chains and output describe the same stream, also if match_start becomes negative |
| DeflateModel.MatchStartBelowZero | src/3rdparty/zlib/deflate.c:1513 | match_start of a waiting match becomes negative exactly for a match at the largest distance found one byte before the window slides, and its distance stays right |
| DeflateModel.DeflateState.ReadBuf | src/3rdparty/zlib/deflate.c:1164-1189 | bytes move from the input to the end of the window, none lost |
| DeflateModel.DeflateState.InsertLeftOver | src/3rdparty/zlib/deflate.c:1537-1556 | strings that could not be hashed at the end of an earlier call are inserted now, exactly those that have become complete |
| DeflateModel.DeflateState.ZeroTail | src/3rdparty/zlib/deflate.c:1563-1595 | the high-water mark covers everything a comparison may touch, and no input byte is overwritten |
| DeflateModel.DeflateState.FillWindow | src/3rdparty/zlib/deflate.c:1482-1599 | the stream position and all bytes stay, the invariants too; afterwards the window is full or the input used up, there is room for a search, and the strings left over are inserted |
| DeflateModel.DeflateState.TallyDist | src/3rdparty/zlib/deflate.h:333-342 | the pair is stored in 16 and 8 bits, and the last free slot of the symbol buffer asks for a flush |
| DeflateModel.DeflateState.FlushBlockOnly | src/3rdparty/zlib/deflate.c:1605-1614 | the symbols so far become a block that stands for the bytes since the last one, with those bytes if the window still holds them; its bytes join those that wait, and as many go out as there is room for |
| DeflateModel.DeflateState.SearchChain | src/3rdparty/zlib/deflate.c:1283-1373 | the loop over a chain ends with the nearest of the longest matches, or the nearest that is nice enough, or none longer than the one before |
| DeflateModel.DeflateState.LazyMatch | src/3rdparty/zlib/deflate.c:1967-1981 | the length of the longest match, or 2 exactly if it is 5 at most and the stream is filtered, or 3 and further away than TOO_FAR |
| DeflateModel.DeflateState.EmitPrevious | src/3rdparty/zlib/deflate.c:1986-2009 | the previous match goes out, one byte before the current position, and exactly the complete strings inside it into the table |
| DeflateModel.DeflateState.SlowStep | src/3rdparty/zlib/deflate.c:1948-2033 | each round of the lazy compressor emits exactly what the lazy rule makes of the find for the current string, which is a right answer of the search, ends a block exactly if its buffer is full, and keeps everything: window, chains, hash, and symbols that decode to the input up to strstart - match_available |
| DeflateModel.DeflateState.DecodesSoFar | src/3rdparty/zlib/deflate.c:1926-2049 | at every step the blocks and symbols emitted decode to exactly that much of the input |
| DeflateModel.DeflateState.LazySoFar | src/3rdparty/zlib/deflate.c:1926-2049 | at any time between calls every symbol emitted follows the lazy rule from right finds, so that MatchMeans and LiteralMeans hold of it |
| DeflateModel.DeflateState.EndInput | src/3rdparty/zlib/deflate.c:2041-2048 | the end of both compressors: a last block to finish, or one of the symbols that are left, and the state that the room left asks for |
| DeflateModel.DeflateState.DeflateSlow | src/3rdparty/zlib/deflate.c:1926-2049 | one call: what is read and what is left make up the input, the invariant is kept across slides and refills, all blocks but the last are full, a call asks for more only if the output is full or no input is left, finishes exactly as the room left allows, and if it does not ask for more leaves blocks that decode to all input |
| DeflateModel.DeflateState.CompressAll | src/3rdparty/zlib/deflate.c:1926-2049 | any sequence of calls of deflate(), each with its own input, flush mode and output size, also after errors and after the end, greedy and lazy: after every call the blocks extend those before and decode to a prefix of what was given so far, to all of it if the stream ended or a flush had room enough, only the block that ends the stream is marked as the last, errors are answered exactly to calls behind the end, and finishing stops only for lack of room; behind a full flush a decoder can start |
| DeflateModel.DeflateState.ForgetHistory | src/3rdparty/zlib/deflate.c:1029-1035 | after a full flush the hash table is empty and the window is filled from its start; both invariants hold for the stream from there on |
| Lz77.DecodesBehind | src/3rdparty/zlib/deflate.c:1030 | blocks that decode on their own decode to the same text behind any others |
| DeflateCalls.OneMoreCall | src/3rdparty/zlib/deflate.c:1003-1043 | a call adds to what all calls before have given: replies, blocks, text and restarting points |
| DeflateModel.DeflateState.Deflate | src/3rdparty/zlib/deflate.c:763-1051 | one call of deflate() at levels 1 to 9: each error is answered exactly when it should be, a call that is not refused gets on, finishing is over unless the output is full, and blocks and input are accounted for |
| DeflateModel.DeflateState.MarkFlush | src/3rdparty/zlib/deflate.c:1020-1039 | the mark of a flush, and the compressor that has forgotten everything after a full one |
| DeflateModel.DeflateState.FastStep | src/3rdparty/zlib/deflate.c:1845-1908 | the same for each round of the greedy compressor with the greedy rule, and which strings inside a match are inserted |
| DeflateModel.DeflateState.FastDecodesSoFar | src/3rdparty/zlib/deflate.c:1824-1918 | the blocks and symbols of the greedy compressor decode to exactly that much of the input |
| DeflateModel.DeflateState.GreedySoFar | src/3rdparty/zlib/deflate.c:1824-1918 | every symbol of the greedy compressor follows the greedy rule from right finds |
| DeflateModel.DeflateState.DeflateFast | src/3rdparty/zlib/deflate.c:1824-1918 | one call of the greedy compressor, with the promises of one call of the lazy one |
| StoredModel.InflatesToPayloads | src/3rdparty/zlib/deflate.c:1689-1696 | stored blocks with right lengths and only a final last mark inflate to their payloads, section 3.2.4 of RFC 1951 |
| StoredModel.NeededStep | src/3rdparty/zlib/deflate.c:1660-1684 | a block as long as possible leaves the rest to the blocks behind it, so that the room needed is that of all of them |
| StoredModel.StoredState.DirectLength | src/3rdparty/zlib/deflate.c:1660-1684 | a direct block is as long as the limit, the input and the output allow, and there is none exactly if it would be too small or nothing is to be written |
| StoredModel.StoredState.DirectBlock | src/3rdparty/zlib/deflate.c:1686-1727 | a direct block holds the next bytes of window and input, its lengths patched in; nothing is lost |
| StoredModel.StoredState.CopyDirectly | src/3rdparty/zlib/deflate.c:1657-1728 | the loop ends, conserves the input and output space, and gets to the last block if and only if there is room for everything in blocks as long as possible |
| StoredModel.StoredState.UpdateWindow | src/3rdparty/zlib/deflate.c:1730-1761 | the window ends with the bytes copied past it, in all three cases |
| StoredModel.StoredState.FillRest | src/3rdparty/zlib/deflate.c:1772-1790 | the rest of the input enters the window after a slide that only drops bytes already written |
| StoredModel.StoredState.PendingBlock | src/3rdparty/zlib/deflate.c:1792-1811 | a block through the pending buffer, last only if nothing remains; unless the call ends there, the output is full or the input used up without a flush |
| StoredModel.StoredState.EveryByteKept | src/3rdparty/zlib/deflate.c:1628-1642 | payloads written and the window from block_start on are all input consumed, at every call |
| StoredModel.StoredState.DeflateStored | src/3rdparty/zlib/deflate.c:1643-1815 | one call conserves the input and output space, finishes at once exactly if there is room, reports finish only when nothing remains, and then the blocks inflate to all input; it asks for more only if the output is full or the input used up without a flush |
| StoredModel.StoredState.MarkFlush | src/3rdparty/zlib/deflate.c:1021-1038 | the empty block that marks a flush with the bytes it takes, and the window started anew after a full flush |
| StoredModel.StoredState.Deflate | src/3rdparty/zlib/deflate.c:763-1051 | one call of deflate() at level 0: an error is answered exactly when it should be, the stream ends exactly if there is room for what is pending and everything else, a call that is not refused gets on, and the room gone is that of the blocks written |
| StoredModel.StoredState.StoreAll | src/3rdparty/zlib/deflate.c:763-1051 | any sequence of calls, also after errors and after the end: after each the blocks inflate to a prefix of the input given, to all of it if the stream ended or a flush had space enough, no block is taken back, errors come exactly behind the end, and a call to finish with enough room ends the stream |
| Crc32Model.Polynomial | src/3rdparty/zlib/crc32.c:103-106 | the exponents of the polynomial give the pattern 0xedb88320 |
| Crc32Model.CrcTables.MakeFirst | src/3rdparty/zlib/crc32.c:108-114 | entry n is the register after shifting byte n through, bit by bit |
| Crc32Model.CrcTables.MakeOthers | src/3rdparty/zlib/crc32.c:116-127 | the other tables add one to three zero bytes, and the upper four are their byte-swapped forms |
| Crc32Model.StepsLinear | src/3rdparty/zlib/crc32.c:60-79 | shifting any number of zero bits is linear over exclusive-or |
| Crc32Model.RegisterWord | src/3rdparty/zlib/crc32.c:259-263 | four bytes are 32 zero bits after adding the word |
| Crc32Model.CrcTables.LittleWord | src/3rdparty/zlib/crc32.c:260-262 | one word by four table lookups is 32 steps of the register |
| Crc32Model.CrcTables.Crc32Little | src/3rdparty/zlib/crc32.c:266-297 | equals the bit-by-bit definition of section 8 of RFC 1952, for every buffer, length and starting alignment |
| Crc32Model.CrcTables.BigWord | src/3rdparty/zlib/crc32.c:300-302 | the same on the byte-swapped register with the swapped tables |
| Crc32Model.CrcTables.Crc32Big | src/3rdparty/zlib/crc32.c:306-337 | the big-endian form gives the same checksum |
| Crc32Model.CrcTables.Crc32Z | src/3rdparty/zlib/crc32.c:202-234 | and so does the byte loop: all ways through crc32_z agree |
| Crc32Model.RegisterAffine | src/3rdparty/zlib/crc32.c:372-425 | the checksum is affine in its starting value |
| Crc32Model.CrcOfConcatenation | src/3rdparty/zlib/crc32.c:400-424 | the checksum of a concatenation from those of its parts |
| Crc32Model.ProductIsSteps | src/3rdparty/zlib/crc32.c:344-358 | multiplying by a matrix that represents n zero bits is shifting n zero bits |
| Crc32Model.MatrixSquare | src/3rdparty/zlib/crc32.c:361-369 | squaring a matrix doubles the number of zero bits it represents |
| Crc32Model.OneZeroBit | src/3rdparty/zlib/crc32.c:386-392 | the first matrix represents one zero bit |
| Crc32Model.Crc32Combine | src/3rdparty/zlib/crc32.c:372-425 | the loop that squares alternately in two matrices applies exactly 8 * length zero bits; nothing for a length <= 0 |
| Crc32Model.CombineIsConcatenation | src/3rdparty/zlib/crc32.c:372-425 | combining crc(A) and crc(B) by the length of B gives the crc of A followed by B, for all byte strings |
| Crc32Meaning.BurstsAreDetected | src/3rdparty/zlib/crc32.c:202-234 | texts that differ in up to four consecutive bytes have different checksums |
| Crc32Meaning.LeadingZeroCounts | src/3rdparty/zlib/crc32.c:225-233 | a zero byte in front changes the checksum of any text |
| Crc32Meaning.Residue | src/3rdparty/zlib/crc32.c:202-234 | the checksum of any text followed by its own checksum is 0x2144df1c |
| Crc32Meaning.OnlyItsOwn | src/3rdparty/zlib/crc32.c:202-234 | and no other four bytes behind it give that |
| Crc32Meaning.CheckValue | src/3rdparty/zlib/crc32.c:202-234 | the checksum of 123456789 is 0xcbf43926 |
| Adler32Model.ChopKeeps | src/3rdparty/zlib/adler32.c:27-32 | CHOP keeps the residue and shrinks, for the ranges used |
| Adler32Model.Mod28Is | src/3rdparty/zlib/adler32.c:33-37 | MOD28 is % 65521 below 2^28 |
| Adler32Model.ModIs | src/3rdparty/zlib/adler32.c:38-42 | MOD is % 65521 on all 32-bit values |
| Adler32Model.Mod63Is | src/3rdparty/zlib/adler32.c:43-54 | MOD63 is % 65521 on all non-negative 63-bit values |
| Adler32Model.RunningFits | src/3rdparty/zlib/adler32.c:13-14 | sums deferred over up to 5552 bytes fit 32 bits |
| Adler32Model.AddBytes | src/3rdparty/zlib/adler32.c:16-20 | the unrolled additions are the plain sums |
| Adler32Model.Adler32Z | src/3rdparty/zlib/adler32.c:63-131 | equals the per-byte definition of section 9 of RFC 1950 for every length and every starting value, with and without division, except for one byte after a second sum that one subtraction does not reduce |
| Adler32Model.UnreducedStart | src/3rdparty/zlib/adler32.c:74-80 | such a starting value |
| Adler32Model.SumsConcat | src/3rdparty/zlib/adler32.c:143-169 | the sums over a concatenation continue those over the first part |
| Adler32Model.Adler32Combine | src/3rdparty/zlib/adler32.c:143-169 | the combined sums are reduced modulo 65521 without 32-bit overflow, and a negative length is answered by all ones |
| Adler32Model.CombineIsConcatenation | src/3rdparty/zlib/adler32.c:143-169 | combining gives the checksum of the concatenation for every two byte strings |
| Adler32Model.HalvesMean | src/3rdparty/zlib/adler32.c:63-131 | one half of the checksum is the sum of the bytes and one, the other the sum of each byte times the number of bytes from it on and the length, both modulo 65521 |
| Adler32Model.CheckValue | src/3rdparty/zlib/adler32.c:63-131 | the checksum of Wikipedia is 0x11e60398 |

## Left out

- Strtof and everything for single precision: they repeat the double path with other constants.
- NaN, infinity, hexadecimal and octal numbers and all flags of the reader: gmio reads with no flags and no special symbols.
- AssignHexString and ToHexString: not used by the conversions.
- Huffman trees, bit packing and the pending buffer's overlay: trees.c is not part of this model; a block is a list of symbols, or a stored payload with its header.
- The checksum and gzip bookkeeping of read_buf, deflate()'s headers and trailers, deflateParams, deflateSetDictionary, deflateCopy: one level and strategy per stream.
- deflate_rle and deflate_huff: simple cases beside the lazy compressor.
- The FASTEST and UNALIGNED_OK variants, and the assembler versions of longest_match.
- The null buffers that adler32_z and crc32_z accept: a sequence of bytes is never null.
- UInt128.DivModPowerOf2: power 0 is not covered, because shifting a 64-bit word by 64 is undefined.
- DoubleToStringConverter: the exponent character has to be e or E and a trailing zero comes with a trailing point, as the header demands, since otherwise the text would not read back.
- gmio's own readers and writers for STL and AMF, streams, memory blocks, base64 and the digit table: plumbing with much easier claims.
- gz*.c, compress.c, OpenCascade and Qt support, benchmarks, examples and scripts.
