# A model of the decFloat decimal arithmetic

The decDouble and decQuad types (`src/decBasic.c`, `src/decCommon.c`) do IEEE 754 decimal arithmetic by changing
strings of decimal digits and arrays of base-billion units in place, and promise that each operation gives the
exact mathematical result rounded once. This project models those operations on arrays, with the same loops,
estimates, shortcuts and paddings, and proves each against one specification of correct rounding. It also models
the parser and the printers, the packers between numbers of any length and declets, 64-bit words or packed
decimal, and the comparisons.

How it is arranged:

- `Rounding` says what correct rounding of a fraction is: the exponent to round at (`Quantum`), the eight modes,
  overflow, underflow before rounding, and the preferred exponent of exact results (`Rounded`). `Meaning` shows what
  that comes to in terms of representable numbers, `Modes` the same mode by mode on signed values, and `Existence` that
  there is always exactly one such result.
- `Finalize` is the single rounding point of the source. Everything that ends in it states the exact value it hands
  over: `DivideLoop` to `DivideOps` (the four divisions), `Multiply` to `MultiplyNumber`, `Sums` to `Fma`, `Swar` to
  `Add`, `Narrow` (format to format), `Quantize`, `NextAfter` and `NextToward`, `FromString`.
- `StandIns`, `FmaShorten`, `LongText` and `Add` show that a coefficient cut short with a sticky digit, or a single
  digit in place of a long operand, rounds as the full one does in every mode.
- `FarExponents`, `CutAlike` and `FmaAlike` give the exact conditions for the two places where that is not so (see
  Findings).
- `Numerals` says which texts denote which numbers; `Scanning`, `FromString`, `ToString` and `RoundTrip` are the
  parser, the printers and their round trips. `TextLaws` spells out what is read and printed, character by character.
- `Dpd`, `DpdWords`, `DpdPack`, `DpdUnpack` are densely packed decimal, `Interchange64` is the 64-bit format and
  `Canonical` the repair of redundant words. `Decimal64`, `Bcd64` and `Text64` are the decimal64 codec, the words of a
  decDouble, and decimal64ToString; `Codecs` runs both encoders on one number, and `RoundTrip64` prints and parses
  words. `Packed` is packed decimal with a sign nibble.

A format is a parameter (`Format(pmax, emin, emax)`). The definitions
the contracts rest on are pinned by laws in other terms as well: values and fields of the data, bits, bytes and numbers
written out. Predicates on formats (`Compiled`, `Arithmetic`, `Textual`,
`Printable`, ...) say what the source fixes when it is compiled, and lemmas show that the formats of the source meet
them. A coefficient buffer is an array with the positions of its first and last digit (`BcdNum`), a context is an
object with a rounding mode and a set of flags, and machine arithmetic is written out where it can wrap or lose bits.

## Model

| member | source | states |
|---|---|---|
| Finalize.DecFinalize | src/decCommon.c:230-560 | for a digit string of any length, in all eight modes, the stored datum and the flags are those of correct rounding of the exact value; special values are stored unchanged |
| Meaning.Nearest | src/decCommon.c:326-405 | in the three to-nearest modes no representable number is closer to the exact value, ties go the way of the mode, and infinity results exactly from the midpoint past the largest number on |
| Meaning.DirectedDown | src/decCommon.c:326-405 | in a mode toward zero the result is the greatest representable magnitude not above the exact one, never infinite |
| Meaning.DirectedUp | src/decCommon.c:326-452 | in a mode away from zero the result is the least representable magnitude not below the exact one, infinite exactly past the largest number |
| Meaning.StatusMeaning | src/decCommon.c:318-452 | Inexact exactly when the value changed; Underflow exactly when inexact and below 10^emin before rounding; Overflow exactly when the value, rounded with no limit on the exponent, exceeds the largest number: from the midpoint past it on, in the modes toward zero from 10^(emax+1) on, in the modes away from zero past it |
| Meaning.ExactPreferred | src/decCommon.c:412-472 | an exactly representable value is returned without a flag, at the representable exponent closest to the preferred one (fold-down and zero clamp lose nothing) |
| Meaning.InexactFull | src/decCommon.c:270-405 | an inexact result has a full coefficient, or the least exponent |
| Meaning.ReRoundTrace | src/decCommon.c:354-361 | round-for-reround never overflows to infinity, an inexact coefficient is no multiple of five, and short of overflow the error is below one unit in the last place |
| Modes.ExactOfMeans | src/decCommon.c:230-270 | the exact value rounded is n/d*10^e multiplied out, with the sign given and e as the preferred exponent |
| Modes.IntegerByMode | src/decCommon.c:326-375 | what each of the eight modes asks of an integer k in place of n/d, as inequalities between k*d and n |
| Modes.CeilingMeans | src/decCommon.c:326-405 | toward plus infinity the result is the least representable signed number not below the exact one, or infinity if there is none |
| Modes.FloorMeans | src/decCommon.c:326-405 | toward minus infinity it is the greatest one not above |
| Modes.UpMeans | src/decCommon.c:326-405 | round-up takes the nearest representable number at least as far from zero |
| Modes.DownMeans | src/decCommon.c:326-405 | round-down takes the nearest one no farther from zero, never an infinity |
| Modes.HalfMeans | src/decCommon.c:326-405 | the half modes by name: none closer, half-up away from zero on a tie, half-down toward it, half-even to an even coefficient, and infinity exactly from the midpoint past the largest number on |
| Modes.ReRoundMeans | src/decCommon.c:354-405 | round-for-reround stays finite, is within one unit, and an inexact coefficient does not end in 0 or 5 |
| Modes.FlagsMean | src/decCommon.c:318-452 | when each flag is set, mode by mode, with the limits written out |
| Specials.NaNsPropagate | src/decBasic.c:3595-3611 | the first signaling NaN wins, quieted with sign and payload kept and Invalid raised; else the first quiet NaN, unchanged |
| Rounding.RoundedUnique | src/decCommon.c:230-560 | the specification leaves no freedom: result and flags are determined by value, mode and pending flags |
| Existence.RoundedTotal | src/decCommon.c:230-560 | every exact value has a correctly rounded result |
| QuotientUnits.Estimate | src/decBasic.c:351-419 | the multiplier estimate of the inner division loop is positive, below a billion and times the divisor never exceeds what is left |
| QuotientUnits.QuotientUnit | src/decBasic.c:330-484 | the multiply-and-subtract passes end with a quotient unit below a billion and what is left below the divisor, dividend = unit * divisor + rest |
| DivideLoop.LongDivide | src/decBasic.c:277-516 | the outer loop stays in its arrays, ends with enough digits or none left over, and its units are the quotient of the scaled dividend, with a non-zero rest exactly when flagged inexact |
| QuotientNumber.MakeQuotient | src/decBasic.c:517-578 | the digits handed on, with the sticky last unit and dropped zeros, stand for the exact quotient: exact at the best exponent, or inexact with one sticky unit below the digits that are kept |
| Division.MakeInteger | src/decBasic.c:583-649 | the quotient so represented is reduced to its integer part, or the nearest integer with ties to even |
| DivideOps.DecDivide | src/decBasic.c:167-663 | Divide is the exact quotient correctly rounded; DivideInteger, Remainder and RemainderNear are exact; Division_impossible exactly when the integer quotient has more than pmax digits; all special operands |
| DivideOps.RemainderIdentity | src/decBasic.c:583-663 | x = n*y + r with n the truncated or nearest-even quotient, the bound on r, ties even, and the sign of a zero remainder |
| DivideOps.DivideLaw | src/decBasic.c:167-581 | Divide: the result has the sign of the true quotient, and Inexact is absent exactly when result times divisor is the dividend, on signed values |
| DivideOps.DivideIntegerLaw | src/decBasic.c:583-649 | DivideInteger: result times divisor differs from the dividend by less than the divisor and lies between it and zero; or Division_impossible, exactly when the quotient has more than pmax digits |
| DivideOps.RemainderLaw | src/decBasic.c:583-663 | Remainder: x = N*y + r on signed values, the remainder below the divisor and zero or of the sign of x, at the lower exponent |
| DivideOps.RemainderNearLaw | src/decBasic.c:583-663 | RemainderNear: the same with twice the remainder at most the divisor, and N even on a tie |
| DivideOps.SpecialQuotients | src/decBasic.c:194-211 | NaNs and infinities, operation by operation |
| DivideOps.ZeroDivisors | src/decBasic.c:212-225 | zero divisors, operation by operation |
| Remainders.RemainderSum | src/decBasic.c:653-663 | the FMA with the negated quotient yields that remainder exactly, never shortening an overlapped operand |
| Multiply.Accumulate | src/decBasic.c:767-775 | the lazy column sums keep their bounds, and their base-billion value is the product |
| Multiply.SplitColumn | src/decBasic.c:831-855 | the magic-number estimate with its corrections splits a column sum into carry and unit exactly |
| Multiply.Resolve | src/decBasic.c:828-860 | resolving the columns leaves proper units of the same value, the last column needing no split |
| Multiply32.LongMul32Hi | src/decNumberLocal.h:127-135 | four half-word products and their carries give the high word of a 64-bit product |
| Multiply32.Accumulate32 | src/decBasic.c:879-891 | the pairs of 32-bit words that take the place of 64-bit columns hold the same product |
| Multiply32.Resolve32 | src/decBasic.c:943-997 | resolving the pairs leaves proper units of the product |
| Multiply32.SameDigits | src/decBasic.c:708-1053 | proper units are determined by their value, so the 32-bit and the 64-bit path give the same array |
| MultiplyNumber.FiniteMultiply | src/decBasic.c:708-1053 | the digits laid out are the exact product, with sign, exponent and place |
| MultiplyNumber.DecFloatMultiply | src/decBasic.c:2659-2679 | the exact product correctly rounded, and all special operands |
| Swar.WordAdds | src/decBasic.c:1435-1452 | one biased 32-bit addition and its masks add four digits and a carry, digit by digit |
| Swar.AddWord | src/decBasic.c:1435-1452 | the same on four bytes of the accumulator, with the carry out |
| AddLayout.AddRegion | src/decBasic.c:1420-1452 | the loop over words adds the two digit strings, with the final carry |
| Thousands.AddThousands | src/decNumberLocal.h:632-733 | the base-1000 fast path adds two coefficients |
| Add.StickyRounds | src/decBasic.c:1336-1367 | an operand far below replaced by a single digit gives a sum that rounds as the exact one, in every mode |
| Add.DecFloatAdd | src/decBasic.c:1102-1568 | every finite pair: the exact sum correctly rounded, sign of exact zeros included; all special operands |
| Add.DecFloatSubtract | src/decBasic.c:3457-3466 | the same for the difference; an infinity subtracted gives the one of the other sign, two of one sign Invalid |
| Add.SumByValue | src/decBasic.c:1102-1568 | what is rounded is the sum of the signed values, a zero sum having the common sign, else minus only in round-floor, and the lower exponent |
| Add.DifferenceByValue | src/decBasic.c:3457-3466 | the same of the difference, on the operands as they are given |
| FmaShorten.ShortenedRounds | src/decBasic.c:2144-2162 | an addend wholly below the product, reduced to one digit, gives a sum that rounds as the exact one, in every mode |
| Fma.DecFloatFMA | src/decBasic.c:1996-2263 | the exact product plus the addend rounded once unless the addend overlaps a product longer than pmax+2 digits, in which case the sum with the replacement digit is rounded; all special operands with their flags |
| Fma.FmaByValue | src/decBasic.c:1996-2263 | what is rounded is product plus addend on signed values, with the sign and exponent of an exact zero |
| Fma.OverlapsMeans | src/decBasic.c:2144-2162 | when the addend is replaced although it overlaps, and by what, on digit counts |
| FmaAlike.FmaRightly | src/decBasic.c:2144-2162 | in every mode that is the correctly rounded sum if and only if no overlapped addend is replaced, or the full sum and the replaced one are cut at the same exponent, with the same digits kept and the rest on the same side of a half, or both are out of range |
| FmaOverlap.OverlapMisrounds | src/decBasic.c:2144-2162 | in every compiled format there are three operands for which the replacement gives a wrong result |
| CutAlike.AlikeIffSameCut | src/decCommon.c:270-405 | two coefficients, the second inexact, round alike in all modes if and only if they are cut alike or both are out of range |
| Narrow.ReRoundNarrows | src/decCommon.c:1018-1041 | a value rounded under round-for-reround in the wider format and then in any mode in the narrower equals the value rounded once, subnormal, zero and overflow outcomes included: if and only if |
| Narrow.DecFloatFromWider | src/decCommon.c:1018-1041 | narrowing rounds the wide datum once; infinities and NaNs keep what fits |
| NextAfter.DecFloatNextMinus | src/decBasic.c:2692-2722 | the greatest representable number below, or the matching infinity; mode and pending flags restored |
| NextAfter.DecFloatNextPlus | src/decBasic.c:2735-2766 | the least representable number above, likewise |
| NextAfter.NextPlusMeans | src/decBasic.c:2735-2766 | on signed values: above the operand and not above any other representable number that is, infinite only past the largest; infinities and NaNs outright |
| NextAfter.NextMinusMeans | src/decBasic.c:2692-2722 | the same below |
| NextToward.DecFloatNextToward | src/decBasic.c:2781-2831 | the neighbour on the side of the second operand, the first with the second's sign if equal, and Overflow, Underflow and Inexact exactly when the result leaves the normal range |
| NextToward.TowardMeans | src/decBasic.c:2781-2831 | on signed values: the neighbour toward the second operand, a zero on the side it came from; the first operand with the second sign when equal; the largest finite number inside an infinity |
| NextToward.TowardFlags | src/decBasic.c:2781-2831 | Overflow and Inexact exactly for an infinite result, Underflow and Inexact exactly below 10^emin |
| Quantize.DecFloatQuantize | src/decBasic.c:2899-3174 | the left operand rounded once to the right one's exponent; Invalid exactly when the coefficient grows past pmax digits; special operands |
| Quantize.QuantizedMeaning | src/decBasic.c:2899-3174 | no flag exactly when the value is unchanged, Invalid exactly when padding does not fit, and the exponent is the one asked for |
| Quantize.QuantizedByMode | src/decBasic.c:2899-3174 | digits dropped: for each mode, on which side of the value and how far from it the result lies, ties and Inexact included |
| Compare.DecNumCompare | src/decBasic.c:3621-3772 | the padded scan by words and the no-overlap shortcut decide the numeric order, or the total order |
| Compare.OrderIsDifference | src/decBasic.c:3621-3772 | the numeric order of finite data is the sign of their exact difference |
| Compare.TotalOrderLaws | src/decBasic.c:3621-3772 | the total order is antisymmetric and transitive, and equal exactly for equal data |
| Compare.NumericOrderByValue | src/decBasic.c:3621-3772 | the numeric order is that of the signed values, with the infinities at the ends |
| Compare.TotalOrderByFields | src/decBasic.c:3740-3772 | the total order agrees with the numeric one where that decides; -0 is below +0; of equal positive data the one of greater exponent is greater, of equal negative data the one of lesser |
| Numerals.Unambiguous | src/decCommon.c:792-850 | a text is the text of at most one numeral |
| LongText.CutRounds | src/decCommon.c:905-945 | digits that do not fit the buffer, replaced by a sticky last digit, round as all of them do, in every mode |
| FromString.DecFloatFromString | src/decCommon.c:776-1002 | a text that does not lose all its digits converts to what its numeral denotes with the exponent as read, correctly rounded, to infinity or NaN with payload, or to a syntax error |
| TextLaws.NumeralReads | src/decCommon.c:792-945 | a numeral is sign, digits with or without a point, and exponent; it denotes its digits without the point times ten to the written exponent less the number of fraction digits |
| TextLaws.ExponentForms | src/decCommon.c:827-855 | an exponent is an E in either case, a sign if any, and digits |
| TextLaws.OneMoreDigit | src/decCommon.c:792-850 | digits are the characters 0 to 9, read in base ten |
| TextLaws.InfinityConverted | src/decCommon.c:948-954 | "inf" and "infinity" in any case, with a sign or none, become the infinity of that sign |
| TextLaws.NaNConverted | src/decCommon.c:955-994 | "nan" and "snan" in any case with up to pmax-1 significant digits become that NaN with that payload, with more the default NaN and a syntax error |
| FromString.LimitsOfFormats | src/decCommon.c:776-790 | the digits that fit the buffer and the exponent digits read in full, in each format |
| FromString.ExponentAsRead | src/decCommon.c:827-868 | the exponent as read: as written if it has no more significant digits than the exponents of the format, else twice emax with its sign, less the fraction digits |
| FromString.EmptiedExactly | src/decCommon.c:905-918 | a text loses all its digits if and only if it is too long for the buffer, ends its coefficient with a point and has only zeros before it |
| FromString.AccurateEnough | src/decCommon.c:836-856 | a numeral with no more significant exponent digits than the format's exponents have, or short beside twice emax, is read with an interchangeable exponent (this includes every numeral whose digits fit the buffer) |
| FromString.ReadRounds | src/decCommon.c:836-856 | where the exponent as read is interchangeable with the one written, the result is the text's value correctly rounded |
| FromString.ReadRightly | src/decCommon.c:836-856 | for any numeral the result is right in every mode if and only if that holds |
| FarExponents.AlikeIffInterchangeable | src/decCommon.c:836-856 | a coefficient rounds alike at two exponents if and only if they are equal, give zeros clamped alike, are both out of range, or both negligible |
| ReadLimits.FarOneMisread | src/decCommon.c:854 | there is a text, long enough, that is converted without a flag to a number that is not its value |
| ReadLimits.ManyZeros | src/decCommon.c:905-918 | in every format one zero more than fits the buffer, and a point, is such a text, of the value zero |
| CharBuffer.OpenGap | src/decCommon.c:1617-1628 | moving characters four at a time from the right opens a gap for the point and keeps the rest |
| CharBuffer.ShiftRight | src/decCommon.c:1668-1687 | the same for leading zeros |
| ToString.DecFloatToString | src/decCommon.c:1500-1698 | the buffer ends up with the scientific form of the datum, or its special text, and a terminator |
| ToString.DecFloatToEngString | src/decCommon.c:1221-1438 | the same with the engineering form, whose exponent is a multiple of three |
| Printing.EngineeringMeans | src/decCommon.c:1329-1360 | the engineering form denotes the datum, zeros with their exponent |
| TextLaws.ScientificShape | src/decCommon.c:1596-1698 | plain notation when the exponent is not positive and the adjusted one at least -6; else one digit before the point and the adjusted exponent with its sign |
| TextLaws.EngineeringShape | src/decCommon.c:1318-1438 | the same cases, with one to three digits before the point and an exponent that is a multiple of three |
| TextLaws.SpecialTexts | src/decCommon.c:1534-1554 | Infinity, NaN and sNaN with sign and payload |
| RoundTrip.ParserUndoesPrinter | src/decCommon.c:776-1002 | reading what was printed gives back the datum itself, in any mode and without a flag, NaN payloads included |
| RoundTrip.EngineeringReadsBack | src/decCommon.c:1221-1438 | reading the engineering form gives the same value and no flag, and the datum itself for a zero |
| RoundTrip.PrintAndParse | src/decCommon.c:1500-1698 | the same of the two methods run one after the other |
| Dpd.DecodeEncode | src/decimal64.c:698 | decoding a declet undoes encoding |
| Dpd.EncodeBits | src/decDPD.h:317-320 | the ten bits of every code are those of the Boolean equations of IEEE 754-2019, section 3.5.2 |
| Dpd.DecodeBits | src/decimal64.c:734-839 | the three digits of each of the 1024 codes are those of the converse equations of that section |
| Dpd.CanonicalCodes | src/decNumberLocal.h:424-433 | encoding undoes decoding exactly for the codes the bit test accepts; the rest are those of three large digits with an unused bit set |
| Dpd.SmallCanonical | src/decNumberLocal.h:424-433 | codes below 0x16e are canonical, so the quick test of the high bits never passes a redundant one |
| DpdPack.DigitsToDPD | src/decimal64.c:608-709 | a number of up to 34 digits, with zeros added below, becomes the declets of its digits, across units of two digits and words of 32 bits |
| DpdPack.DecletsOf | src/decimal64.c:608-709 | the lowest declet is that of the three lowest digits |
| DpdUnpack.DigitsFromDPD | src/decimal64.c:734-839 | the declets become the digits they encode, without leading zeros, counted and cut into units |
| DpdUnpack.DecodedOf | src/decimal64.c:734-839 | the three lowest digits are those of the lowest declet |
| DpdUnpack.UnpackedPacked | src/decimal64.c:608-839 | unpacking what was packed gives the digits with the zeros added, or a single zero |
| DpdUnpack.PackAndUnpack | src/decimal64.c:608-839 | the same of the two methods run one after the other |
| Decimal64.FromNumber | src/decimal64.c:80-198 | any number becomes canonical words: a finite one is rounded once, with the flags of that, one that needs no rounding is kept without a flag (folded down or clamped if its exponent is too large), infinities and NaNs keep sign, kind and the payload that fits, and what decNumberPlus has rounded keeps its sign even as a zero |
| Decimal64.ToNumber | src/decimal64.c:206-268 | any two words: the number, infinity or NaN with payload that they denote, with only as many declets processed as hold it |
| Decimal64.EncodedIs | src/decimal64.c:102-198 | the datum encoded, outright: an exponent above 369 is brought down with zeros, a payload of sixteen digits dropped |
| Interchange64.FieldPlaces | src/decimal64.c:173-198 | the places of sign, combination field, exponent and coefficient in the high word |
| Interchange64.CombBits | src/decCommon.c:112-124 | exponent bits and leading digit as IEEE 754-2019, section 3.5.2 assigns them to the five bits of the combination field |
| Interchange64.DenotedMeans | src/decimal64.c:206-268 | exponent less 398, the leading digit before fifteen others, infinities, and NaNs that signal by the top exponent bit |
| Interchange64.FiveDeclets | src/decimal64.c:734-839 | the places of the five declets and what each is worth |
| Interchange64.CanonicalMeans | src/decBasic.c:75-149 | which words are canonical: one pair for each infinity, no stray bit in a NaN, and canonical declets |
| Decimal64.CodecsAgree | src/decimal64.c:80-198 | for a number that needs no rounding the datum encoded is exactly the one decFinalize stores, in every mode and without a flag |
| Interchange64.WordsDetermined | src/decimal64.c:173-198 | two canonical encodings of one datum, special or not, are the same words, so encoders that agree on the datum agree on the bits |
| Decimal64.ThereAndBack | src/decimal64.c:80-268 | a number encoded and decoded is that number rounded once; one that needs no rounding keeps sign and value, a special value its kind and the payload that fits |
| Bcd64.StoreDouble | src/decCommon.c:479-531 | decFinalize's digits, exponent and sign become canonical words that denote them, whether or not all sixteen digits are there |
| Bcd64.EncodeDouble | src/decCommon.c:479-531 | every datum of the format, special ones included, has canonical words that denote it |
| Codecs.CodecsSameWords | src/decCommon.c:479-531 | decimal64FromNumber and decFinalize make the very same words of a number the format holds |
| Codecs.BothCodecs | src/decimal64.c:80-198 | both run one after the other on any finite number, or a special value whose payload fits, in any mode: equal words, and the second raises no flag that the first has not raised |
| Canonical.RepairDeclets | src/decBasic.c:118-147 | the repair loop, over any number of words: each declet becomes the canonical one of the same digits, also across two words, and the bits above stay |
| Canonical.DecCanonical | src/decBasic.c:75-149 | the canonical words of the same datum, special values included; the words themselves exactly when they are canonical |
| RoundTrip64.PrintAndParse64 | src/decimal64.c:292-422 | any two words printed by decimal64ToString, parsed and stored are canonical words of the same datum, the same words if they were canonical, and no flag is raised |
| RoundTrip64.PrintedIsCanonical | src/decBasic.c:75-149 | those words are the ones decCanonical makes |
| Text64.Decimal64ToString | src/decimal64.c:292-422 | any two words print as the text decFloatToString gives for the datum they denote, special values and payloads included, into any string with room for it |
| Text64.DocumentedLength | src/decimal64.c:281 | the 24 characters asked of the caller hold text and terminator if and only if the words do not denote a negative number of sixteen digits with exponent -21; 25 always do |
| Packed.PackedFromNumber | src/decPacked.c:59-121 | a finite number that fits becomes its nibbles with zeros in front and the sign nibble 13 for minus, 12 for plus; otherwise it is refused |
| Packed.PackedToNumber | src/decPacked.c:147-219 | an acceptable array becomes its digits, exponent and sign, minus exactly for the sign nibbles 11 and 13; any other is refused and the number zero |
| Packed.DigitsWorth | src/decPacked.c:147-219 | the value unpacked is base one hundred in the bytes, the last byte giving one digit |
| Packed.AcceptedBytes | src/decPacked.c:147-190 | accepted are digits in every nibble but the last, a sign of at least 10 there, and an exponent in range |
| DecNumbers.UnitsWorth | src/decPacked.c:59-121 | the digits of a number are base one hundred in its units |
| Packed.UnpackedPacked | src/decPacked.c:59-219 | unpacking what was packed gives digits and sign back, for arrays of any length |
| Packed.RepackedUnpacked | src/decPacked.c:59-219 | packing what was unpacked gives the array back byte for byte, but for the sign nibble becoming 12 or 13 |

## Findings

- The guard that shortens the lower operand of an FMA (src/decBasic.c:2144) asks only how far the addend's first digit
  lies below the product's first digit. A product longer than pmax+2 digits satisfies it although the addend overlaps
  the product's low digits, and replacing the addend by one digit then changes the sum by more than a sticky digit
  may. `FmaOverlap.OverlapMisrounds` gives operands in every compiled format that come out wrong: 24999...9 times
  1000...01 plus 1.0, where the sum is a tie and the replaced sum falls short of it. `FmaAlike.FmaRightly` gives the
  exact condition on the two sums under which such operands are still right in every mode.
- A long exponent is replaced by twice emax when it has more significant digits than the exponents of the format
  (src/decCommon.c:854). With enough leading zeros or a long fraction the exponent written is still in range, and the
  text is converted to another number without a flag (`ReadLimits.FarOneMisread`). `FromString.ReadRightly` gives the
  exact condition, which can be told from the text. It holds for all texts whose digits fit the buffer.
- A text of zeros that ends in a point and is too long for the buffer loses all its digits when zeros are stripped
  (src/decCommon.c:908-917), after which the source reads before the digits it has. `FromString.EmptiedExactly` tells
  exactly which texts these are, and `ReadLimits.ManyZeros` shows one for every format; for them the model of the parser
  leaves result and flags open.
- The string decimal64ToString fills is documented as 24 characters (src/decimal64.c:281, and the length in
  src/decimal64.h:33), one fewer than decDouble's. A negative number of sixteen digits printed after `0.00000` needs 25
  with the terminator; `Text64.DocumentedLength` shows that only those do.
- The comments beside the two outcomes of the subtraction (src/decBasic.c:2231 and 2240) name the operands the wrong way
  round; the code is as it should be.

## Left out

- FromString.DecFloatFromString: says nothing of the result for the texts of `EmptiedText`, because what the source does with them is undefined; strings of 0x70000000 characters or more, whose digits an int cannot count, are excluded.
- Decimal64.FromNumber: what decNumberPlus leaves behind is a parameter with what that function promises (`RoundedInto`), because decNumber.c is not part of this model; it is used only for numbers that need it.
- Fma.DecFloatFMA: for an overlapped addend the contract states what the code rounds, because correct rounding fails there; the exact condition is FmaAlike.FmaRightly.
- Formats whose precision is a multiple of nine digits, which no compiled type has: the division and multiplication models assume the top unit is not full.
- The invalid rounding mode (one past the last): the source reports it as an invalid context.
- The words of a decFloat in the operations: there a datum is its decoded sign, coefficient and exponent. Words are modelled for 64 bits (Bcd64, Interchange64, Canonical); of the words of a decQuad only the repair loop is.
- Text64.Decimal64ToString: requires room for the text besides the documented 24 characters, because 24 are too few for some.
- Moves of four bytes at a time are modelled byte by byte where they differ only in padding that is not read again: the fold-down copy of decFinalize, the tail and gap of decFloatAdd, the zero fill of decFloatQuantize, the copy of digits that fit in decFloatFromString, and the copies of converted declets in the printers.
- The loop that strips leading zero units in decDivide reads a unit before it checks the bound; the model checks the bound first.
- The mirrored code of decNumCompare for a negative shift is one method here with its operands exchanged.
- The order of NaN payloads in decFloatCompareTotal.
- decimal32 and decimal128; decimal64FromString and decimal64ToEngString, which go through decNumber.c.
- decToInt32, decToIntegral, decFloatFromPacked and decFloatToBCD, Reduce, ScaleB, LogB, Shift and Rotate, the digitwise logical operations, class and sign tests, copies: they would add members of one branch or repeat loops shown here.
- The Clamped flag of a context; Decimal64.FromNumber returns it.
- Traps, tracing and big-endian storage.
