# Exact arithmetic and layout in the engine's foundation libraries

A Dafny model of six pieces of third-party and foundation code, with proofs that they do what they are for:

1. **David Gay's binary/decimal conversion** (`External/dtoa.c`): big integers in 32-bit words changed in place, the
   lazily built chain of powers of five, one-digit division, the exact fraction a double is turned into, both digit
   generators, every mode of `dtoa`, and the error test in the correction loop of `strtod`. The main results: for every
   finite double and every mode, the digits are what the mode promises, measured against the double itself (shortest,
   reading back and closest; or correctly rounded half-even at the place asked for); and the test of `strtod` compares
   the true distance between double and decimal with half a unit in the last place.
2. **The BC6H and BC7 block codec** (`External/DirectXTex/BC6HBC7.cpp`, `BC.h`): bit store, scattered header, delta
   transform, index swap, endpoint search, and the format's own tables. What the encoder writes for one shape decodes to
   exactly the colours of the choice it settled on: always in the unsigned format; in the signed one when the choice, if
   it is stored as deltas, lies in the precision range, which the search does not ensure. The condition is exact for the
   endpoints to come back.
3. **BipBuffer** (`External/BipBuffer.h`): first in, first out under every interleaving of its operations.
4. **Texture layout** (`DirectXTexImage.cpp`): sizing, layout and lookup agree.
5. **DDS headers** (`DirectXTexDDS.cpp`): what is written reads back, and exactly when the short form loses nothing.
6. **MT19937-64** (`External/mt19937_64.hpp`): the in-place batches give the recurrence, for every seed and every call.

## How it is built

Code that changes words, arrays or fields step by step is imperative here too: `Bigint`, `MemInfo`, `Pool`, `CBits`,
`BipBuffer`, `ScratchImage` and `Generator` are classes, and each loop of the source is a loop with invariants. Each
such method is proved equal to a function on values, and what the source promises is proved about that function. For
`dtoa` the chain is: word loops refine functions on word sequences (`WordLoops` on `Words`); these are exact on values
(`BigArith`, `FivePowers`, `Quotient`, `Doubles`); the digit loops refine two recursive generators (`DigitLoops` on
`DigitGen`); the generators are proved correct for any fraction (`DigitGen`, `Readback`); a bridge turns statements
about the fraction b/S into statements about the double (`Scaling`), and these into rounding to the nearest of all
doubles (`Nearest`); and `Dtoa` assembles them.

A double is given by its two words. Its value is `Quarters` times two to the `QuarterExp`, counted in quarters of the
last place so that the half gaps to both neighbours are whole; `LowGap` is 2, or 1 above a power of two, and `HIGH_GAP`
is 2. Decimals and doubles are compared by multiplying both with the powers of two and ten that make them whole
(`DecimalSide`, `BinarySide`), so no rational numbers are needed. Conversion is as in section 5.12 of IEEE 754-2008, the
encoding as in section 3.4, and rounding as in section 4.3.1.

Values proportional to a product are often written with `Shl` (times a power of two), `Fives`, `Tens` and `Times`,
defined by repeated steps, which keeps the proofs linear; `Powers` and `Words` tie them to powers and products.

## Where the code differs from what is said about it

- `BipBuffer::Reserve` is documented to return nothing while a reservation is pending; the code replaces the pending
  one (`PendingIsReplaced`), and `ReserveKeeps` says exactly when it refuses.
- `EndPointsFit` accepts deltas of signed endpoints that do not come back, in every mode (`FitsYetWraps`,
  `EveryModeWraps`), and the search, which looks at the unsigned range whatever the format, can propose them. They come
  back exactly when they lie in the precision range (`TransformedComesBack`, `EmittedComesBack`).
- BC6H endpoints of full precision are quantized as they are, but scaled down when shown, so they do not come back
  (`FullPrecisionShrinks`); below full precision they do, within a step (`QuantizeShows`).
- An infinity or NaN in an unsigned source is not cut to the largest finite code, which `Quantize` asks for
  (`HalfQuantizable` gives the exact codes).
- BC7 `Quantize` does not undo `Unquantize`; `QuantizeUnquantize` gives the exact values for which it does.
- A legacy DDS header loses some metadata; `LegacyExact` gives the exact condition under which it loses none.
- `cmp` tells a zero without words from a zero of one word (`Cmp`); the tie at which that would mislead the digit loop
  never arises (`NoZeroTie`).

## Model

| member | source | states |
|---|---|---|
| BlockPool.Pool.Balloc | External/dtoa.c:637-680 | the block handed out has the class asked for, is not live already, and shares its words with no live block, reused or new |
| BlockPool.Pool.Bfree | External/dtoa.c:682-704 | the block is no longer live, and is kept for reuse exactly when its class is within the limit |
| Words.MultAddExact | External/dtoa.c:733-752 | the word loop computes s·m + carry, the last carry being the top word |
| WordLoops.MultAddWords | External/dtoa.c:733-752 | the loop in place leaves the words of that function and touches no word beyond |
| WordLoops.TimesPlus | External/dtoa.c:733-752 | so the array and the carry returned are worth value·m + a |
| BigArith.MultAdd | External/dtoa.c:710-765 | b := b·m + a, in a larger block when the words run out, trimmed if it was |
| BigArith.I2b | External/dtoa.c:893-909 | a one-word number of the given value |
| Words.RowExact | External/dtoa.c:953-966 | one row of the schoolbook product adds a·y to the words it is laid over, with no carry lost |
| WordLoops.MultRowWords | External/dtoa.c:955-964 | the row loop writes the words of that function and returns the carry still to be stored |
| WordLoops.AddProduct | External/dtoa.c:953-966 | one row in place adds a·y from word j on and leaves every other word alone |
| BigArith.Mult | External/dtoa.c:912-1020 | a new trimmed number worth the product; the size class chosen always holds it |
| Words.ShiftExact | External/dtoa.c:1110-1120 | shifting word by word multiplies by the power of two, the bits shifted out coming last |
| WordLoops.ShiftedUp | External/dtoa.c:1110-1120 | the loop in place does that from word n on and leaves the words below alone |
| BigArith.Lshift | External/dtoa.c:1083-1140 | a new number worth b·2^k, for whole words and left-over bits, trimmed if b was and not zero |
| BigArith.LongerIsLarger | External/dtoa.c:1143-1174 | a trimmed number with more words is larger, unless both are zero |
| BigArith.Cmp | External/dtoa.c:1143-1174 | the sign of the result is the order of the values; on equal values it is zero but for a zero without words |
| Words.WrappedBorrow | External/dtoa.c:1223-1226 | digit and borrow of a subtraction are the low word and one bit of the wrapped 64-bit difference |
| Words.DiffExact | External/dtoa.c:1222-1233 | subtracting word by word, then the borrow alone, gives the difference |
| WordLoops.Difference | External/dtoa.c:1222-1233 | the two loops leave the difference in the result array |
| BigArith.Diff | External/dtoa.c:1177-1269 | a new trimmed number worth the absolute difference, with the sign of a − b |
| BigArith.Bcopy | External/dtoa.c:706-707 | sign, word count and words are copied |
| BigArith.RippleUp | External/dtoa.c:2190-2196 | the words count one up, and run over to zero exactly when all were full |
| BigArith.Increment | External/dtoa.c:2180-2210 | b := b + 1, growing by a word when every word runs over |
| FivePowers.FactorsIsPow | External/dtoa.c:1039-1077 | node i of the chain stands for 5^(4·2^i) |
| FivePowers.MemInfo.Node | External/dtoa.c:1038-1077 | node i is reached or built, and every node of the chain keeps its value however earlier calls extended it |
| FivePowers.WalkIsFives | External/dtoa.c:1054-1078 | walking the chain along the binary digits of k multiplies by the factors they stand for |
| FivePowers.WalkCounts | External/dtoa.c:1032-1078 | those factors are 4·k in all |
| FivePowers.ChainStep | External/dtoa.c:1054-1078 | one step of the walk leaves a number from which the rest of the walk gives the same result |
| FivePowers.Pow5Mult | External/dtoa.c:1023-1080 | b := b·5^k for every k, with a sound chain before and after |
| Quotient.EstimateIsClose | External/dtoa.c:2250-2258 | with four leading zero bits in the divisor, the quotient of the top words is the digit or one less |
| Quotient.EstimateDigit | External/dtoa.c:2250-2258 | so on numbers the estimate is at most 9 and leaves less than two divisors |
| Words.SubExact | External/dtoa.c:2260-2289 | the subtraction loop, borrow and carry interleaved, computes x − q·s |
| WordLoops.SubtractMultiple | External/dtoa.c:2260-2289 | the loop in place leaves the words of that function |
| Quotient.TakeAway | External/dtoa.c:2259-2296 | b := b − q·S in place, trimmed, down to no words at all |
| Quotient.QuoremTimes | External/dtoa.c:2225-2340 | the estimate and at most one correction leave less than one divisor |
| Quotient.Quorem | External/dtoa.c:2225-2340 | the digit returned is at most 9, b holds the remainder, and together they are the old b |
| Doubles.Hi0bits | External/dtoa.c:812-843 | the number of leading zero bits: shifting by it sets the top bit and loses nothing |
| Doubles.Lo0bits | External/dtoa.c:846-891 | trailing zero bits are stripped: an odd number and how often to double it |
| Doubles.JoinLow | External/dtoa.c:1425-1429 | joining the words after shifting both keeps every bit |
| Doubles.StripWords | External/dtoa.c:1424-1445 | both words together, with their common trailing zeros stripped |
| Doubles.NormalBits | External/dtoa.c:1492-1499 | a normal number has 53 significand bits less those stripped |
| Doubles.D2b | External/dtoa.c:1384-1513 | an odd number b, exponent and bit count with b·2^e equal to the double, normal or denormal |
| Doubles.Dshift | External/dtoa.c:2211-2223 | the shift after which the divisor has 28 bits above whole words |
| Dtoa.ArrangedDivisor | External/dtoa.c:4162-4185 | such a divisor has exactly four leading zero bits, which quorem needs |
| Digits.RoundOffAddsOne | External/dtoa.c:4331-4339 | rounding off, back over nines and into a new place if need be, adds one in the last place |
| Digits.TrimKeepsValue | External/dtoa.c:4344-4345 | trimming zeros keeps the value and leaves no trailing zero |
| Digits.NearestEvenUnique | External/dtoa.c:4328-4330 | rounding to nearest with ties to even has one answer |
| DigitGen.BlockedWhenNotStopped | External/dtoa.c:4227-4304 | at a digit that does not stop, both neighbours with that many digits lie outside the rounding interval |
| DigitGen.NoNine | External/dtoa.c:4283-4286 | only the first digit can be a nine that is rounded up, so the carry always makes a new place |
| DigitGen.StopClosest | External/dtoa.c:4227-4290 | the digit chosen at a stop, kept or raised, is the closest in the interval but for one exit |
| DigitGen.LastRounds | External/dtoa.c:4328-4346 | after the last digit, the doubled comparison, carry or trimming round the fraction half-even |
| DigitGen.CutCorrect | External/dtoa.c:4295-4346 | a run cut at ilim digits is rounded, and nothing so short lies in the interval |
| DigitGen.ShortestOutcome | External/dtoa.c:4222-4304 | the generator ends for every fraction, inside the interval and past every shorter decimal, or cut and rounded |
| DigitGen.FixedOutcome | External/dtoa.c:4306-4346 | digits and remainder always make up the fraction, so the result is rounded half-even to ilim digits, exact if shorter |
| Readback.FinerUnits | External/dtoa.c:4222-4304 | counting in smaller decimal units does not change what lies in the interval |
| Readback.NoShorterDecimal | External/dtoa.c:4222-4304 | a decimal with fewer digits lies outside the interval whatever its exponent |
| Readback.ShortestIsShortest | External/dtoa.c:3684-3689 | the generator started on a fraction from one to ten reads back and is shortest, or is cut and rounded |
| Scaling.IntervalsMeet | External/dtoa.c:3684-3689 | the rounding intervals of neighbouring doubles meet in one point, half way between them |
| Nearest.ReadsBackIsRounding | External/dtoa.c:3684-3689 | reading back, with midpoints left to even doubles, is rounding to the nearest of all doubles with ties to even; without midpoints, every other double is farther away |
| Nearest.RoundsToOne | External/dtoa.c:3684-3689 | a decimal rounds to at most one double |
| Scaling.PlaceCompare | External/dtoa.c:4101-4220 | comparing a decimal with the fraction b/S in units of 10^k is comparing it with the double |
| Scaling.ReadsBackMeans | External/dtoa.c:4101-4220 | a decimal lies between b − mlo and b + mhi over S exactly when it reads back as the double |
| Scaling.FirstDigit | External/dtoa.c:4186-4194 | S ≤ b < 10·S holds exactly when the double lies in the decade of 10^k |
| Scaling.RoundingMeans | External/dtoa.c:4328-4346 | rounding the fraction half-even is rounding the double half-even |
| Scaling.ClosestMeans | External/dtoa.c:4227-4290 | closest to the fraction in its interval is closest to the double among decimals that read back |
| Scaling.NoNineAtTheTop | External/dtoa.c:4232-4246 | the one exit that need not be closest never happens for a double |
| Scaling.ShortestMeans | External/dtoa.c:3684-3702 | modes 0, 1, 4, 5: shortest, reading back and closest, or, with more digits than asked for, correctly rounded |
| Scaling.FixedMeans | External/dtoa.c:3690-3697 | modes 2 and 3: the double correctly rounded to ilim digits |
| DigitLoops.NextDigit | External/dtoa.c:4223-4223 | quorem gives the digit of the generator and leaves its remainder |
| DigitLoops.Compare | External/dtoa.c:4227-4230 | the three-way results are those of b against mlo and of b + mhi against S, but for a zero tie |
| DigitLoops.StopDigit | External/dtoa.c:4231-4290 | the order of the tests at a stop rounds up exactly in the listed cases |
| DigitLoops.Decide | External/dtoa.c:4227-4290 | whether the digit ends the result and is raised, as the generator decides |
| DigitLoops.ShortestStep | External/dtoa.c:4222-4304 | one round: digit, remainder and decision |
| DigitLoops.RoundOffDigits | External/dtoa.c:4331-4339 | the walk back over nines gives the decimal of the specification |
| DigitLoops.TrimDigits | External/dtoa.c:4344-4345 | the walk back over zeros gives the trimmed digits |
| DigitLoops.LastDigit | External/dtoa.c:4328-4346 | the last digit is rounded on the remainder as specified |
| DigitLoops.FixedDigits | External/dtoa.c:4306-4346 | the fixed-count loop on big integers returns exactly the generator's decimal |
| DigitLoops.ShortestDigits | External/dtoa.c:4222-4346 | the shortest-output loop on big integers, margins in place or shared, returns exactly the generator's decimal |
| Dtoa.Balance | External/dtoa.c:3876-3894 | the exponents of two and five differ by what the fraction needs, for either sign of k and of the shift |
| Dtoa.CommonTwos | External/dtoa.c:4118-4123 | removing common twos keeps both differences |
| Dtoa.ScMeasures | External/dtoa.c:4124-4140 | 5^b5·2^b2 over 5^s5·2^s2 in units of 10^k is the power of two left when the fives balance |
| Dtoa.MakeDivisor | External/dtoa.c:4138-4185 | S becomes 5^s5·2^(s2+i), arranged for one-word digit estimates |
| Dtoa.RaiseBoth | External/dtoa.c:4125-4131 | number and half gap are both multiplied by 5^b5, computed once |
| Dtoa.FirstEstimate | External/dtoa.c:3870-3875 | for small powers of ten one comparison makes the estimate exact |
| Dtoa.WrongEstimate | External/dtoa.c:4186-4194 | b < S says exactly that the estimate was one too large |
| Dtoa.FixedFraction | External/dtoa.c:4118-4185 | without margins: b/S is the double in units of 10^k |
| Dtoa.CorrectEstimate | External/dtoa.c:4186-4194 | afterwards k is the exponent of the first digit and S ≤ b < 10·S |
| Dtoa.FewDigits | External/dtoa.c:4195-4206 | no place left: nothing, or a single one above |
| Dtoa.FewDigitsRound | External/dtoa.c:4195-4206 | and that is the double rounded half-even at the place asked for |
| Dtoa.FixedCount | External/dtoa.c:4118-4346 | modes 2 and 3 from the exponents to the digits meet their promise |
| Dtoa.ExponentsMeasure | External/dtoa.c:4101-4160 | with the exponents of the margins, b/S is the double and mhi/S the lower half gap, also for a power of two |
| Dtoa.MarginFraction | External/dtoa.c:4101-4185 | number, divisor and half gap are set up to that, for normal, denormal and power-of-two inputs |
| Dtoa.CorrectBoth | External/dtoa.c:4186-4194 | a wrong estimate is put right in the number and in its half gap |
| Dtoa.Margins | External/dtoa.c:4207-4220 | mlo/S and mhi/S are half the gaps to the lower and upper neighbour |
| Dtoa.NoZeroTie | External/dtoa.c:4229-4232 | the tie at which cmp would be misled by a zero without words never happens |
| Dtoa.IntervalDigits | External/dtoa.c:4207-4346 | the digits for modes 0, 1, 4 and 5 are as promised |
| Dtoa.LeftRight | External/dtoa.c:4101-4346 | modes 0, 1, 4 and 5 from the exponents to the digits meet their promise |
| Dtoa.ClosedRounds | External/dtoa.c:4231-4253 | the parity test on the mantissa gives each midpoint to the double it rounds to; in mode 1 to neither |
| Dtoa.MeetsRounds | External/dtoa.c:3679-3712 | so the modes that look for a short result promise a decimal that rounds to the double, and none with fewer digits does, or none with the digits asked for |
| Dtoa.Digitize | External/dtoa.c:3800-4346 | every positive finite double in every mode: k is the exponent of its first digit, the digits meet the promise, and a short result rounds to the double, ties to even |
| Dtoa.Dtoa | External/dtoa.c:3679-4346 | any double: sign, the special results, and the promise of its mode |
| Strtod.S2b | External/dtoa.c:768-809 | the number of a digit string with a point in it, nine digits at a time and then one |
| Strtod.Exponents | External/dtoa.c:3033-3085 | the powers of two of double, decimal and half a unit stay in the right ratio, scaled or not, normal or denormal |
| Strtod.OneScale | External/dtoa.c:3033-3099 | the three big numbers are the double, the decimal and half a unit at one scale |
| Strtod.SameDecision | External/dtoa.c:3100-3103 | the comparisons do not depend on the scale |
| Strtod.CompareDifference | External/dtoa.c:3100-3103 | the sign of the difference and its comparison with bs are those of the values |
| Strtod.ErrorTest | External/dtoa.c:3027-3103 | the test decides which of double and decimal is larger, and their distance against half a unit in the last place |
| Strtod.SameNumberDecides | External/dtoa.c:3100-3103 | the test does not depend on how the double is written, scaled or not |
| Strtod.TestAgrees | External/dtoa.c:3100-3103 | a decimal that reads back as the double an approximation stands for, scaled or not, passes the test, and conversely except just below a power of two |
| Strtod.TestRounds | External/dtoa.c:3100-3103 | a decimal that rounds to the double passes the test with less than half a unit, or with half and an even mantissa, and conversely except just below a power of two |
| BlockBits.ReadStraddle | External/DirectXTex/BC.h:461-466 | a field straddling two bytes is assembled from the right bits |
| BlockBits.ReadWithin | External/DirectXTex/BC.h:467-470 | a field within a byte is cut out |
| BlockBits.WriteStraddle | External/DirectXTex/BC.h:496-504 | writing a straddling field changes its bits and no others |
| BlockBits.WriteWithin | External/DirectXTex/BC.h:505-509 | writing a field within a byte changes its bits and no others |
| BlockBits.CBits.GetBit | External/DirectXTex/BC.h:443-451 | one bit of the block, and the cursor one on |
| BlockBits.CBits.GetBits | External/DirectXTex/BC.h:453-474 | the number whose bits stand at the cursor |
| BlockBits.CBits.SetBit | External/DirectXTex/BC.h:476-485 | the bit is written, every other bit is what it was |
| BlockBits.CBits.SetBits | External/DirectXTex/BC.h:487-511 | the field holds the value, every other bit is what it was |
| Endpoints.NBits | External/DirectXTex/BC6HBC7.cpp:604-623 | a number fits a field of p bits exactly when p is at least the result |
| Endpoints.FieldIsLossless | External/DirectXTex/BC.h:33-33 | and it fits exactly when it survives masking and sign extension |
| Endpoints.TransformForward | External/DirectXTex/BC6HBC7.cpp:575-580 | the pairs are replaced in place by their deltas |
| Endpoints.TransformInverse | External/DirectXTex/BC6HBC7.cpp:582-597 | the deltas are replaced in place by the wrapped, sign-extended endpoints |
| Endpoints.InverseUndoes | External/DirectXTex/BC6HBC7.cpp:575-597 | the inverse undoes the transform on exactly the endpoints in the precision range |
| Endpoints.DeltasStable | External/DirectXTex/BC6HBC7.cpp:1777-1802 | forward, inverse and forward again gives the same deltas |
| Bc6hBlock.IsFixUpOffset | External/DirectXTex/BC6HBC7.cpp:561-573 | exactly the fix-up pixels of the shape |
| Bc6hBlock.BlockIsFull | External/DirectXTex/BC6HBC7.cpp:1718-1758 | header and indices fill the block to bit 128 for every mode and shape |
| Bc6hBlock.EmitHeader | External/DirectXTex/BC6HBC7.cpp:1726-1746 | every header position holds the bit of its field |
| Bc6hBlock.EmitIndex | External/DirectXTex/BC6HBC7.cpp:1750-1756 | one more index in its field, the header and the earlier indices kept |
| Bc6hBlock.EmitBlock | External/DirectXTex/BC6HBC7.cpp:1717-1758 | the cursor ends at bit 128, with the header and all sixteen indices in place |
| Bc6hDecode.HeaderFieldReads | External/DirectXTex/BC6HBC7.cpp:1107-1138 | every field scattered over the header is collected again, cut to its width |
| Bc6hDecode.ReadHeader | External/DirectXTex/BC6HBC7.cpp:1106-1138 | shape and raw endpoint fields are what the header positions say |
| Bc6hDecode.ReadMode | External/DirectXTex/BC6HBC7.cpp:1082-1087 | two mode bits, or five when they are not enough |
| Bc6hDecode.ReadIndices | External/DirectXTex/BC6HBC7.cpp:1168-1189 | sixteen indices, the shortened ones at the fix-up pixels |
| Bc6hDecode.Decode | External/DirectXTex/BC6HBC7.cpp:1078-1189 | the reader computes what the block means, reserved modes included |
| Bc6hDecode.EndsRead | External/DirectXTex/BC6HBC7.cpp:1143-1166 | deltas that fit are read back, or the endpoints they stand for |
| Bc6hDecode.RoundTrip | External/DirectXTex/BC6HBC7.cpp:1078-1189 | decoding an emitted block gives back mode, shape, endpoints and all sixteen indices |
| Bc6hEncode.WeightsMirror | External/DirectXTex/BC6HBC7.cpp:35-37 | the weight of the mirrored index is 64 minus the weight |
| Bc7Indices.WeightsEvenlySpaced | External/DirectXTex/BC6HBC7.cpp:35-37 | the weights are evenly spaced from 0 to 64, each rounded to the nearest integer |
| Bc6hEncode.SwapIndices | External/DirectXTex/BC6HBC7.cpp:1628-1652 | each region whose fix-up index has its high bit set is exchanged and mirrored, and no other |
| Bc6hEncode.SwapFits | External/DirectXTex/BC6HBC7.cpp:1628-1652 | afterwards every index fits its field, the shortened ones too |
| Bc6hEncode.SwapKeepsColors | External/DirectXTex/BC6HBC7.cpp:1628-1652 | and no pixel changes |
| Bc6hEncode.QuantizeFits | External/DirectXTex/BC6HBC7.cpp:1284-1311 | quantized values lie in the precision range |
| Bc6hColors.UnquantizeRange | External/DirectXTex/BC6HBC7.cpp:1313-1347 | an endpoint in range is stretched to sixteen bits, symmetrically but for the least signed number of sixteen |
| Bc6hColors.UnquantizeMono | External/DirectXTex/BC6HBC7.cpp:1313-1347 | larger endpoints are stretched to larger values |
| Bc6hColors.InterpolateNearest | External/DirectXTex/BC6HBC7.cpp:1204-1206 | the mix is the weighted mean of the ends rounded to the nearest integer |
| Bc6hColors.InterpolateMoves | External/DirectXTex/BC6HBC7.cpp:1204-1206 | it starts at the first end, moves one way with the weight, and ends at the second |
| Bc6hColors.ShownRange | External/DirectXTex/BC6HBC7.cpp:1349-1361 | the colour of an end is at most the largest finite half-float code, and not negative in unsigned formats; the exception is exactly the least signed number of sixteen bits |
| Bc6hColors.ShownMono | External/DirectXTex/BC6HBC7.cpp:1313-1361 | larger endpoints show larger colours, in both formats |
| Bc6hColors.ComponentMoves | External/DirectXTex/BC6HBC7.cpp:1195-1206 | a pixel shows the first end at weight 0, the second at 64, and moves from one to the other between |
| Bc6hColors.DecodedEndsInRange | External/DirectXTex/BC6HBC7.cpp:1107-1166 | whatever bits a block holds, its decoded endpoints are in the precision range |
| Bc6hColors.PixelsAreHalves | External/DirectXTex/BC6HBC7.cpp:1191-1214 | so every pixel of every block is a finite half-float code, with the one exception |
| Bc6hColors.QuantizeShows | External/DirectXTex/BC6HBC7.cpp:1284-1361 | quantizing a half-float code and showing it again stays within one step of the quantization, for every precision below full |
| Bc6hColors.FullPrecisionShrinks | External/DirectXTex/BC6HBC7.cpp:1284-1361 | at full precision the code shown is 31/64 of the one quantized, or 31/32 if signed, and the same only for zero |
| Bc6hColors.HalfRoundTrip | External/DirectXTex/BC.h:386-428 | finite half-float codes survive the way to a number and back |
| Bc6hColors.HalfQuantizable | External/DirectXTex/BC.h:386-404 | a code becomes a number that can be quantized exactly when it is not a positive infinity or NaN in the unsigned format |
| Bc6hColors.DecodePixels | External/DirectXTex/BC6HBC7.cpp:1078-1236 | sixteen colours as half-float codes, as the block says, or black in a reserved mode |
| Bc6hEncode.EndPointsFit | External/DirectXTex/BC6HBC7.cpp:1364-1403 | true exactly when every delta fits its field |
| Bc6hEncode.TransformedComesBack | External/DirectXTex/BC6HBC7.cpp:1364-1403 | transformed endpoints come back exactly when they are in range |
| Bc6hEncode.FitsYetWraps | External/DirectXTex/BC6HBC7.cpp:1364-1403 | whatever the mode, the endpoint one above the largest signed number passes the fit test as a delta and does not come back |
| Bc6hEncode.BlockShowsColors | External/DirectXTex/BC6HBC7.cpp:1717-1806 | through swap, transform, header and short indices, the block decodes to the colours of the choice, in a delta mode when its endpoints are in range |
| Bc6hRefine.QuantizeEndPts | External/DirectXTex/BC6HBC7.cpp:1697-1715 | the quantized endpoints of every region in use, all in the precision range |
| Bc6hRefine.OptimizeEndPoints | External/DirectXTex/BC6HBC7.cpp:1601-1624 | the search in every region in use, all channels done; each component is an original one or lies in the unsigned range |
| Bc6hRefine.UnsignedInRange | External/DirectXTex/BC6HBC7.cpp:1489-1599 | so in unsigned formats the search cannot leave the precision range |
| Bc6hRefine.SignedLeavesRange | External/DirectXTex/BC6HBC7.cpp:1489-1599 | in signed formats it can: originals in range, and endpoints one step of the search away that are not and still pass the fit test |
| Bc6hRefine.EmittedShows | External/DirectXTex/BC6HBC7.cpp:1717-1806 | whatever is emitted for a choice shows that choice at every pixel, in a delta mode when it is in range |
| Bc6hRefine.EmittedComesBack | External/DirectXTex/BC6HBC7.cpp:1364-1403 | in a delta mode the decoded endpoints are those written exactly when the choice is in range |
| Bc6hRefine.EmittedSettles | External/DirectXTex/BC6HBC7.cpp:1760-1806 | for originals in range, an emitted choice drawn from them is shown: always if unsigned, and if signed when it is in range or not stored as deltas |
| Bc6hRefine.BackAgain | External/DirectXTex/BC6HBC7.cpp:1777-1802 | endpoints that went through the transform and back are the same choice and fit as before |
| Bc6hRefine.Prepare | External/DirectXTex/BC6HBC7.cpp:1775-1778 | endpoints swapped and transformed, and whether they then fit the mode |
| Bc6hRefine.EmitBetter | External/DirectXTex/BC6HBC7.cpp:1785-1806 | the better of the originals and a search result that fits is written if it lowers the error |
| Bc6hRefine.Refine | External/DirectXTex/BC6HBC7.cpp:1760-1806 | if the originals fit, the new error is the least of the best so far and the better choice, and a block is written exactly when that lowers it, showing that choice as EmittedSettles says; otherwise nothing changes |
| Bc6hRefine.RefinedWrites | External/DirectXTex/BC6HBC7.cpp:1760-1806 | so a block is written whenever the originals fit and err less than the best so far, and the error never rises |
| Bc6hRefine.FullEndpointsStorable | External/DirectXTex/BC6HBC7.cpp:1778-1806 | originals in range always fit a mode that stores endpoints in full |
| Bc6hTables.TablesValid | External/DirectXTex/BC6HBC7.cpp:309-534 | the mode, header, partition and fix-up tables of the format are as the codec needs them |
| Bc6hTables.FormatInTables | External/DirectXTex/BC6HBC7.cpp:309-534 | every mode and shape of the format is one that Refine and its results apply to |
| Bc6hTables.FullModesStore | External/DirectXTex/BC6HBC7.cpp:482-498 | the two modes of the format that store endpoints in full therefore always have a block to write |
| Bc6hTables.FormatPixelsAreHalves | External/DirectXTex/BC6HBC7.cpp:1191-1214 | whatever its bits, every pixel of a block of the format is a finite half-float code, or minus infinity for signed components of sixteen bits |
| Bc6hTables.FormatShowsColors | External/DirectXTex/BC6HBC7.cpp:1717-1806 | for every mode and shape of the format, what is emitted decodes to the colours of the choice: always if unsigned, and if signed when the choice is in range or not stored as deltas |
| Bc6hTables.EveryModeWraps | External/DirectXTex/BC6HBC7.cpp:1364-1403 | every mode of the format has signed endpoints that pass the fit test as deltas and do not come back |
| EndpointSearch.PerturbOne | External/DirectXTex/BC6HBC7.cpp:1490-1547 | the outcome of the search by halving steps: one component moves to exactly the error returned and below the old one, or nothing moves and no step helps |
| EndpointSearch.PerturbPath | External/DirectXTex/BC6HBC7.cpp:1509-1545 | at every step size, from half the range down to one, the search is at the best of a pair and its two neighbours |
| EndpointSearch.TryStep | External/DirectXTex/BC6HBC7.cpp:1512-1544 | one step size leads to the best of the three, unchanged if none is better, the lower one on a tie |
| EndpointSearch.Alternate | External/DirectXTex/BC6HBC7.cpp:1585-1597 | the alternation ends, with an end that no step improves, and goes on as long as a search helps |
| EndpointSearch.ChannelIsDone | External/DirectXTex/BC6HBC7.cpp:1563-1598 | a channel ends unchanged with both ends stuck, or with a smaller error, that of its pair, one end stuck, and no more than either end alone could gain; other channels are kept |
| EndpointSearch.OptimizeOne | External/DirectXTex/BC6HBC7.cpp:1550-1599 | all three channels are done in turn, each from the pair the one before reached; the error never rises, is that of the endpoints once anything moved, and stays only if no search of any channel and end helps |
| Bc7Indices.QuantizeUnquantize | External/DirectXTex/BC.h:655-680 | quantizing an unquantized value returns it exactly in the lower half of the range and at the top |
| Bc7Indices.QuantizeNear | External/DirectXTex/BC.h:655-680 | quantizing a component and unquantizing it moves it by less than half a step down and one and a half up |
| Bc7Indices.InterpolateNearest | External/DirectXTex/BC.h:118-129 | interpolated alpha is the weighted mean rounded to the nearest integer, with the two ends at weights 0 and 64 |
| Bc7Indices.InterpolateMonotone | External/DirectXTex/BC.h:118-129 | interpolated alpha moves one way from end to end |
| Bc7Indices.AlphaPaletteOneWay | External/DirectXTex/BC6HBC7.cpp:2234-2260 | so the alpha palette is monotone |
| Bc7Indices.ErrorKeepsGrowing | External/DirectXTex/BC6HBC7.cpp:1037-1052 | once the error has grown along a monotone palette it does not shrink again |
| Bc7Indices.SearchAlpha | External/DirectXTex/BC6HBC7.cpp:1037-1052 | the scan that stops early finds the least error of the whole palette, at its first index |
| Bc7Indices.BestAlpha | External/DirectXTex/BC6HBC7.cpp:1037-1052 | so it finds the least error of the whole alpha palette, for any two ends and any index precision |
| Bc7Indices.SwapOnePlane | External/DirectXTex/BC6HBC7.cpp:2505-2518 | each region whose fix-up index has its high bit set is exchanged and mirrored |
| Bc7Indices.OnePlaneKeepsColors | External/DirectXTex/BC6HBC7.cpp:2505-2518 | and no pixel changes |
| Bc7Indices.OnePlaneClears | External/DirectXTex/BC6HBC7.cpp:2505-2518 | and every fix-up index ends with a clear high bit |
| Bc7Indices.SwapTwoPlanes | External/DirectXTex/BC6HBC7.cpp:2519-2542 | colour and alpha are exchanged and mirrored independently |
| Bc7Indices.TwoPlanesKeepColors | External/DirectXTex/BC6HBC7.cpp:2519-2542 | no pixel changes and both fix-up indices end with a clear high bit |
| BipBuffer.ReservationApart | External/BipBuffer.h:122-164 | no byte of the reservation belongs to what is stored |
| BipBuffer.NonEmptyHasBlock | External/BipBuffer.h:232-242 | a buffer with anything in it has something in its first region |
| BipBuffer.ReserveKeeps | External/BipBuffer.h:122-164 | reserving stores nothing, gives the size asked for or the whole of the larger free stretch, and is refused exactly when there is none |
| BipBuffer.PendingIsReplaced | External/BipBuffer.h:118-164 | a reservation can be replaced while it is pending, against the documentation |
| BipBuffer.WriteKeeps | External/BipBuffer.h:106-122 | writing into the reservation changes nothing stored and waits at its front |
| BipBuffer.CommitAppends | External/BipBuffer.h:181-220 | committing appends the first bytes of the reservation and releases the rest, wherever the regions are by then |
| BipBuffer.DecommitDrops | External/BipBuffer.h:254-268 | dropping removes the oldest bytes, at most one block, and keeps the reservation |
| BipBuffer.StepKeeps | External/BipBuffer.h:80-268 | every operation keeps the state sound and moves the queue as it should |
| BipBuffer.FirstInFirstOut | External/BipBuffer.h:80-268 | after any run the queue is what was committed less the oldest bytes dropped, in order |
| BipBuffer.BipBuffer.constructor | External/BipBuffer.h:28-69 | empty and sound |
| BipBuffer.BipBuffer.Clear | External/BipBuffer.h:80-83 | the fields as the state machine says |
| BipBuffer.BipBuffer.Reserve | External/BipBuffer.h:122-164 | the state machine's step, and the block it reserved or none |
| BipBuffer.BipBuffer.Fill | External/BipBuffer.h:106-122 | the writer's own bytes land in the reserved block |
| BipBuffer.BipBuffer.Commit | External/BipBuffer.h:181-220 | the state machine's step |
| BipBuffer.BipBuffer.GetContiguousBlock | External/BipBuffer.h:232-242 | none exactly when empty, otherwise the oldest bytes of the queue, all that one drop can take |
| BipBuffer.BipBuffer.DecommitBlock | External/BipBuffer.h:254-268 | the state machine's step |
| BipBuffer.BipBuffer.GetCommittedSize | External/BipBuffer.h:280-283 | the length of the queue |
| BipBuffer.BipBuffer.GetReservationSize | External/BipBuffer.h:298-301 | the length of the pending block |
| TextureLayout.DimIsShift | External/DirectXTex/DirectXTexImage.cpp:45-60 | halving with a floor of one, level by level, is max(1, size >> level) |
| TextureLayout.DetermineImageArray | External/DirectXTex/DirectXTexImage.cpp:29-101 | the totals are the number of images and the bytes of all of them |
| TextureLayout.SetupImageArray | External/DirectXTex/DirectXTexImage.cpp:108-225 | succeeds exactly when the texture is not empty and fits, and then places every image in order |
| TextureLayout.Tiles | External/DirectXTex/DirectXTexImage.cpp:108-225 | the images tile the memory: each begins where the one before ends, the last ends at its end |
| TextureLayout.ImageHasSize | External/DirectXTex/DirectXTexImage.cpp:108-225 | each image is max(1, width >> mip) by max(1, height >> mip), with the pitch of that size |
| TextureLayout.PositionOfCell | External/DirectXTex/DirectXTexImage.cpp:707-756 | every image of the texture has its place in the order |
| TextureLayout.CellAtPosition | External/DirectXTex/DirectXTexImage.cpp:707-756 | every place in the order is one image: the two correspond one to one |
| TextureLayout.ScratchImage.GetImage | External/DirectXTex/DirectXTexImage.cpp:707-756 | found exactly when the texture has the image, at its place in the layout |
| TextureLayout.ScratchImage.Check | External/DirectXTex/DirectXTexImage.cpp:257-310 | accepts exactly the metadata a texture can have |
| TextureLayout.ScratchImage.Initialize | External/DirectXTex/DirectXTexImage.cpp:256-348 | succeeds exactly on acceptable metadata with a possible level count, and never fails for lack of room |
| TextureLayout.CountMips | External/DirectXTex/DirectXTexMipmaps.cpp:35-51 | the length of the chain down to a single texel |
| TextureLayout.CalculateMipLevels | External/DirectXTex/DirectXTexMipmaps.cpp:53-113 | zero asks for the whole chain, more than that is refused |
| TextureLayout.ChainUnique | External/DirectXTex/DirectXTexMipmaps.cpp:35-113 | the length is determined, so a refusal is final |
| DdsFormats.EntryMeans | External/DirectXTex/DirectXTexDDS.cpp:55-129 | no code and no set of masks stands for two formats in the legacy table |
| DdsFormats.EntryFlagsMean | External/DirectXTex/DirectXTexDDS.cpp:55-129 | the conversions a row asks for are exactly those its record needs to become its format |
| DdsFormats.WrittenMeans | External/DirectXTex/DirectXTexDDS.cpp:464-517 | what the writer stores for a format stands for that format |
| DdsFormats.MatchIsRight | External/DirectXTex/DirectXTexDDS.cpp:144-176 | whichever row matches what was written, it names the format written and its alpha |
| DdsFormats.FirstMatchFinds | External/DirectXTex/DirectXTexDDS.cpp:144-176 | the first match is no later than any match |
| DdsFormats.GetDXGIFormat | External/DirectXTex/DirectXTexDDS.cpp:144-193 | the row found decides, except for refused expansions and the undone mask correction |
| DdsFormats.SearchFindsWritten | External/DirectXTex/DirectXTexDDS.cpp:144-193 | the search returns the written format, and premultiplied alpha for the two formats that record it |
| DdsHeader.WriteDimensions | External/DirectXTex/DirectXTexDDS.cpp:535-602 | dimensions, levels and flags, refused exactly when one does not fit 32 bits |
| DdsHeader.WriteExt | External/DirectXTex/DirectXTexDDS.cpp:628-667 | the extended header, a cube counted in sixths |
| DdsHeader.HeaderFlags | External/DirectXTex/DirectXTexDDS.cpp:535-622 | each flag of the header says what it is for: levels, volume, cube faces, and which size the pitch field holds |
| DdsHeader.EncodeDDSHeader | External/DirectXTex/DirectXTexDDS.cpp:441-675 | the size needed; succeeds exactly for writable textures and then makes the file specified, or, without a destination, for every format that can be stored |
| DdsHeader.DecodeDDSHeader | External/DirectXTex/DirectXTexDDS.cpp:199-379 | the reader computes what the file means, every error included |
| DdsHeader.ExtendedRoundTrip | External/DirectXTex/DirectXTexDDS.cpp:441-675 | with an extended header everything comes back; the second flag word exactly when it was asked for |
| DdsHeader.LegacyRoundTrip | External/DirectXTex/DirectXTexDDS.cpp:199-379 | with a legacy header the written format and dimensions come back in the form such a header can hold |
| DdsHeader.LegacyExact | External/DirectXTex/DirectXTexDDS.cpp:199-379 | the metadata come back unchanged exactly when they hold nothing that form cannot say |
| Mt19937.Recurrence64 | External/mt19937_64.hpp:46-73 | the sequence is the recurrence of section 26.5.3.2 of ISO/IEC 14882:2011 with this seeding |
| Mt19937.TwistInverse | External/mt19937_64.hpp:64-73 | the twist loses nothing of the bits it takes |
| Mt19937.SeedInverse | External/mt19937_64.hpp:51-53 | a step of the seeding can be undone |
| Mt19937.TemperInverse | External/mt19937_64.hpp:78-85 | tempering can be undone, so different terms give different words |
| Mt19937.WordAdvances | External/mt19937_64.hpp:64-73 | a word written in place is the term 312 further on, from old and new entries mixed |
| Mt19937.RefillIsRecurrence | External/mt19937_64.hpp:64-73 | a table of 312 consecutive terms becomes the next 312 |
| Mt19937.Start | External/mt19937_64.hpp:46-54 | the seeded table is the first 312 terms |
| Mt19937.Generator.constructor | External/mt19937_64.hpp:46-54 | the generator starts at the first term after the seeded table |
| Mt19937.Generator.Refill | External/mt19937_64.hpp:63-76 | the three loops leave the next 312 terms |
| Mt19937.Generator.Next | External/mt19937_64.hpp:56-86 | the n-th call returns the tempering of term n + 312 |
| Mt19937.Calls | External/mt19937_64.hpp:56-86 | n calls on a fresh generator, of whatever words, give terms 312 to 311 + n, tempered |
| Mt19937.Calls64 | External/mt19937_64.hpp:46-86 | for every seed and n, n calls of the 64-bit generator give the tempered terms 312 to 311 + n of the recurrence |

## Left out

Conversion:

- The floating-point shortcuts of `dtoa` (lines 3947-4099: the quick path and the path for small integers) and the
  logarithm estimate of k (lines 3800-3869). The estimate enters as a parameter that is exact or one too large; the
  comparison of the double with a power of ten up to 10^22 is made exactly.
- Dtoa.Digitize: k is an estimate given by the caller, exact or one too large; the logarithm that supplies it is
  floating-point code.
- The starting approximation of `strtod`, its adjustment by ratio and ulp, and `bigcomp`. The test is modelled for any
  finite positive double as approximation, scaled or not. It is scaled only for decimal exponents of at most -240, which
  lines 2772, 2852, 2941 and 3012 guarantee.
- Configurations other than 32-bit words with 64-bit products and IEEE doubles in round-to-nearest: hexadecimal input,
  `Honor_FLT_ROUNDS`, `Sudden_Underflow`, VAX and IBM formats. Allocation never fails.
- The arithmetic takes fresh blocks; that blocks taken from the free lists are never in use is proved separately
  (`BlockPool`). Free lists and the power chain are sequences instead of `next` links, and a block given back is not
  reused by the arithmetic of the model.
- Output characters are digit values, and the terminating zero and the buffer are not modelled.
- BigArith.Lshift: asks for at least one word, as every caller has; without words the source reads one it never wrote.
- BigArith.Diff: asks for at least one word in each number, for the same reason.
- BigArith.Mult: asks for a word in one of the factors; without any the source leaves the first word of the product
  unset.
- BigArith.Cmp: asks that not both numbers are without words, since the source would read in front of them.
- Joining words by a bitwise or is written as a sum where the bits are disjoint, which the proofs establish.

Block codec:

- Conversion between floats and half-float codes, the choice of pixels, the floating-point search for starting
  endpoints, and errors as floating-point numbers: errors are natural numbers given by a function of the endpoints.
- Bc6hRefine.Refine: the index assignment, its error per region and the error the search looks at are parameters, so
  which index is nearest is not part of it. The endpoints of a region not in use, which the source leaves unset in the
  search result, are the original ones.
- Bc6hRefine.UnsignedInRange: there is no such result for signed formats, because it is false there
  (`SignedLeavesRange`); `EmittedComesBack` says exactly what then happens.
- EndpointSearch.PerturbOne: searches the unsigned range of the precision whether or not the format is signed, as the
  source does.
- The checks of the reader for an index beyond the palette or past the end of the block, and for a header position
  without a field: they are never met, since the tables are as proved (`TablesValid`) and the fields have the right size.
- Turning the half-float codes of decoded pixels into floats.
- Bc7Indices.SwapTwoPlanes: for modes with one region, the only ones with a second index plane.
- Bc7Indices.QuantizeUnquantize: for 1 to 7 bits; with 8 the source shifts by a negative amount.
- BC7 headers, P-bits, the colour scans and its endpoint search; BC1 to BC5.

Other parts:

- BipBuffer: the memory is an array of fixed size, sizes are not negative, and allocating and freeing pages is left out.
  Writing into the reserved block is the operation `Fill`.
- TextureLayout.ScratchImage.Initialize: sizes are unbounded, so overflow of 64-bit totals is not modelled, and memory
  never runs out. `ComputePitch` and the questions asked of a format are parameters.
- DdsHeader.DecodeDDSHeader: decoding with conversion flags set (expanding luminance, forcing RGB order, avoiding
  16-bit formats), the 32-bit build, reserved words, and the bytes behind the record fields.
- Mt19937.Generator.Refill: the table work is written for any type of word; the 64-bit operations are one instance
  (`WORDS64`).
- Compression on several threads or on the graphics processor, Direct3D resources, image codecs of the system, file
  input and output.
