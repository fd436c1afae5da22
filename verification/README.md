# A verified model of the numeric core of SAD

SAD is a program for the design of particle accelerators. This project models, in Dafny, four parts of it whose
results rest on exact integer or real algebra, and proves what they are for.

**Printing and reading of floating-point numbers (`contrib/gdtoa`).** Multiple-precision integers are objects of a
class `Bigint` with an array of 32-bit words, changed word by word with carries and borrows. On them stand the
scaling set-up and the digit loop of `gdtoa` in mode 0, the layouts of `g__fmt`, `g_dfmt` for doubles, the
hexadecimal reader `gethex`, and the decimal scanner of `strtodg` with `s2b`. The main results are `Gdtoa.Gdtoa`
(the decimal printed reads back as the number, no shorter one does, none of its length is nearer, and a tie goes to the
even one) with `UniqueText.OneText` (these promises leave only one text and one flag),
`ReadingBack.PrintedIsRounded` (exactly when correct rounding of that decimal gives the number again),
`Gethex.GetHex` (correct rounding, exactly outside one small interval), `DecimalRoundTrip.WriteAndRead` (what is
written is read back, exactly when the exponent is not too large) and `DoubleReading.WriteAndReadDouble`, which joins
them: the text of every finite double, scanned, is a decimal that correct rounding takes to that double.
What the readers take a text for is proved against its spelling: `DecimalSpelling` and `HexSpelling` build every
literal from its parts and show that it is read as the number these spell, and that nothing else is read;
`DoubleNumbers` shows that the two words of a double count through the numbers of the format in their order.

**Fourier transforms (`src/ft.c`).** Bit reversal, radix-4 passes, table making, and the complex, real, cosine and
sine transforms, in place over arrays of reals. Cosines and sines are powers of unit numbers about which only the laws
of such powers are used. The main results are `BitReversal.Bitrv2` (exactly the bit-reversal permutation),
`Cdft.Cdft`, `RealTransforms.CallRdft` with `InverseSums.RealInverse`, and `CosineSums.CallDdct` (exactly the sums of
the file's documentation, for every power-of-two length and any history of earlier calls, which share their tables),
and the documented inverses
`Cdft.ForwardAndBackward`, `Rdft.RealForwardAndBackward` and `Ddct.BackwardAndForward`. Parseval
(`FourierLaws.Parseval`) needs no more than a table of modulus one.

**Dates and leap seconds (`contrib/libtai-0.60`, `src/tfDateTAI_.c`).** Day numbers, UTC, zones and ISO text as
classes with the fields of the C structures, over unbounded days and 64-bit seconds. The main results are
`Calendar.Caldate.FromMjd` with `Calendar.DatesDiffer` (dates and day numbers undo each other),
`CivilTime.ThereAndBack` (any instant survives the way to UTC, any zone and back, leap seconds included) and
`DateText.TextAndBack` (exactly which printed texts give their instant back); `IsoSpelling` says for every text in ISO
form, with a zone by name, by number or by default, what it is read as.

**Space charge (`src/spch.c`).** The tridiagonal solver `splined`, the line density of `epotkick`, and the charge
grid of `rhocal`, over reals. The main results are `Spline.Splined` with `Spline.OneSolution`,
`LineDensity.SlopesMeet` and `LineDensity.SlopesAtEnds` (the density's slope has no jump at inner knots and is the given
one at the ends) and `ChargeGrid.PotentialSolver.Rhocal`
(charge and the first moments across the beam are conserved).

Code that changes things step by step is modelled by methods with loops over arrays and fields; every such method is
proved against a function or a predicate, and the laws are proved about these. Each file holds one module, and
`dafny verify dfyconfig.toml` checks them all.

## What the proofs found in the code

* `gdtoa` sets the inexact flag to the wrong side when both the digit and the next one read back: the branch for
  rounding up is followed by the test that overwrites it, and the case of nothing left over is called inexact.
  `DigitLoop.FlagMisnames` is the exact condition for the integers, `PrintedMeaning.Misnamed` the same for the number
  and its gap; the doubles of `Exceptions.FlagNamesWrongSide` and `Exceptions.ExactCalledInexact` are inputs.
* `gdtoa` takes the numbers below a power of two for half as far apart only when its exponent is above `emin + 1`, where
  `emin` would be right. In every format one power of two has a gap that goes down twice too far
  (`ReadingBack.ReadsIsRounding`), and in a small format a text can be printed that is rounded to another number
  (`Exceptions.TextReadsAsOther`). Among doubles that number is 2^-1021, and its text is right all the same
  (`WideDouble.WideText`).
* `gdtoa` prints whole numbers below 10^15 with all their digits, also where fewer would read back.
  `SmallIntegers.ExactShortest` is the exact condition and `Exceptions.LongInteger` an input of 24 bits; doubles that
  small have no shorter text.
* `gethex` rounds a number just above half the least one to zero, because the arm for shifts of `nbits` or more does
  not look at what earlier shifts lost; in a format of one bit it rounds exactly half up. `Gethex.Misrounds` is
  the exact interval; `Exceptions.ReadsAsZero` is an input.
* `gethex` answers zero or infinity without looking further once the digits of the exponent before the last one reach
  2^27. `Gethex.FarAnswer` says exactly when that is right, as it is for texts and formats small against 2^27;
  `Exceptions.FarReadsAsZero` is an input for which it is not.
* `rhocal` adds both parts of a charge to `rhoz[ii]` in the first half of a cell. The total is right all the same, but
  the first moment along the beam is kept only for particles on a place or halfway between two
  (`ChargeGrid.PotentialSolver.DepositAlong`, with `ChargeGrid.QuarterCell` for an input); `Rhocal` states what it is
  instead.
* `caldate_frommjd` gives a day of the year that is one too large from March on in years like 1900: the first of four
  years counts as a leap year (`Calendar.Caldate.FromMjd`, `Calendar.MarchOfACentury`).
* `splined` tests the two ends against different bounds for "no slope given", .99e33 and .99e30; the model keeps both.
* `SpaceChargeMapping` passes `splined` the number of cells, one less than the number of knots that `epotkick` reads.
  The slopes therefore meet at the knots 1 to n - 2 of the spline, and nothing is claimed for the last cell.
* A printed negative year, or a zone of a day or more, is not read back; `IsoText.TextReads` is exact about it, and
  `IsoText.YearBeforeZero` and `IsoText.ZoneOfADay` are inputs.
* `DecodeTimeZone` hands the four characters behind the sign of a zone to strtol, which takes spaces and a second sign:
  +-123 is read as 83 minutes west (`IsoSpelling.SecondSign`, with `IsoSpelling.SignedZone` for all such zones).
* An exponent beyond 19999 is clamped by the scanner; `DecimalRoundTrip.NumberMeans` is exact about it, and
  `DecimalRoundTrip.HugeExponent` is an input.
* `g__fmt` reserves no byte for the point in its first test of the buffer; the later tests make up for it, and
  `DecimalWriter.FormatDecimal` shows that nothing is written past the end and when null is returned.

## Model

| member | source | states |
|---|---|---|
| `Bigints.Bcopy` | contrib/gdtoa/gdtoaimp.h:481-483 | copying sign and words leaves the target's words above the copied ones as they were |
| `Bigints.MultAdd` | contrib/gdtoa/misc.c:147-202 | b m + a exactly, in normal form, in b itself or in a new block of twice the size when the carry needs one more word |
| `Bigints.I2B` | contrib/gdtoa/misc.c:238-252 | a one-word number in a block of two words |
| `Bigints.Cmp` | contrib/gdtoa/misc.c:477-509 | the sign of a - b; for two zeros the difference of their lengths, which is what later lets an empty zero pass for smaller |
| `Bigints.Increment` | contrib/gdtoa/strtodg.c:47-90 | b + 1; the number grows by a word exactly when all words were full, and otherwise stays in place |
| `Products.Mult` | contrib/gdtoa/misc.c:254-361 | a b exactly, in a new block in normal form |
| `Differences.Diff` | contrib/gdtoa/misc.c:511-602 | the absolute difference in normal form, with sign 1 exactly when a < b |
| `Quorems.TrialQuotient` | contrib/gdtoa/dmisc.c:137-152 | the digit guessed from the top words is never too large and at most one too small when S's top word has 28 bits |
| `Quorems.TakeAway` | contrib/gdtoa/dmisc.c:153-186 | the multiply-and-subtract loop leaves exactly b - q S in b's words |
| `Quorems.Quorem` | contrib/gdtoa/dmisc.c:101-216 | for b < 10 S and a 28-bit top word: returns floor(b/S), at most 9, and leaves b mod S in b in normal form |
| `Quorems.NotLonger` | contrib/gdtoa/dmisc.c:121-130 | below ten times such an S b has no more words than S, what the routine otherwise only checks when debugging |
| `Shifts.LShift` | contrib/gdtoa/misc.c:423-475 | b 2^k in a new block in normal form, with room to spare |
| `RightShifts.RShift` | contrib/gdtoa/gmisc.c:36-64 | floor(b / 2^k) in place |
| `BitCounts.Hi0Bits` | contrib/gdtoa/misc.c:205-236 | the number of leading zero bits: the word has exactly 32 - k digits |
| `BitCounts.Lo0Bits` | contrib/gdtoa/misc.c:100-145 | the trailing zero bits are counted and shifted out, leaving an odd number |
| `BitCounts.Trailz` | contrib/gdtoa/gmisc.c:69-86 | the exponent of two in the number |
| `BitCounts.AnyOn` | contrib/gdtoa/smisc.c:165-191 | whether b is not a multiple of 2^k |
| `BitCounts.BitsFromTop` | contrib/gdtoa/gethex.c:231 | the bits of a number: 32 for every word less the leading zeros of the top one |
| `PowersOfFive.PowerCache.constructor` | contrib/gdtoa/misc.c:364 | the cache starts empty |
| `PowersOfFive.PowerCache.MultByNodes` | contrib/gdtoa/misc.c:385-420 | the squaring loop multiplies by 625^k; nodes made before stay, and node i is always 5^(4 2^i) |
| `PowersOfFive.PowerCache.Pow5Mult` | contrib/gdtoa/misc.c:366-421 | b 5^k for every k, with the cache kept valid for the next call |
| `Scaling.BitsToB` | contrib/gdtoa/gdtoa.c:34-74 | the words of the mantissa as a number without leading zero words, and its exact bit count |
| `Scaling.ChooseExponents` | contrib/gdtoa/gdtoa.c:492-525 | after the removal of the common power of two, b, S and the gap are still scaled by 2^be / 10^k, 1 and half a unit in the last place / 10^k |
| `Scaling.Align` | contrib/gdtoa/gdtoa.c:563-581 | the common shift that leaves S's top word with 28 bits and keeps all ratios |
| `Scaling.ExponentsGiveRatio` | contrib/gdtoa/gdtoa.c:259-277 | matching exponents of two and five mean that b/S is the number over 10^k |
| `SetUp.FivePowers` | contrib/gdtoa/gdtoa.c:526-542 | the powers of five are multiplied in on all three numbers |
| `SetUp.TopBits` | contrib/gdtoa/gdtoa.c:563-565 | the bits in the top word of S |
| `SetUp.Divisor` | contrib/gdtoa/gdtoa.c:526-585 | b, the gap and S multiplied and shifted so that S's top word has 28 bits, by the same shift for all |
| `SetUp.CorrectK` | contrib/gdtoa/gdtoa.c:586-594 | an estimate one too large is corrected, after which S <= b < 10 S |
| `SetUp.Gaps` | contrib/gdtoa/gdtoa.c:609-622 | one gap number shared by both sides, or two with the upper one twice the lower for a power of two |
| `SetUp.GapNotSmall` | contrib/gdtoa/gdtoa.c:496-501 | S is at most 2^(nbits+1) gaps, so the digit loop ends within its buffer |
| `SetUp.Prepare` | contrib/gdtoa/gdtoa.c:492-622 | the whole set-up: b/S is v 2^be / 10^k and lies between 1 and 10, and mhi/S is half a unit in the last place over 10^k |
| `ShortestDecimal.EmptyGridNoneShorter` | contrib/gdtoa/gdtoa.c:624-708 | when no decimal of n - 2 fraction digits is in the gap, none of fewer than n significant digits is, whatever its exponent |
| `DigitLoop.JudgeDigit` | contrib/gdtoa/gdtoa.c:629-697 | the comparisons of one round, on big integers, decide what the integer specification decides |
| `DigitLoop.LastIsNearest` | contrib/gdtoa/gdtoa.c:634-695 | the last digit gives a decimal in the gap, none with as many digits is nearer, and of two equally near ones in the gap it is the even one; for every gap that the number is no odd multiple of |
| `DigitLoop.LastFlag` | contrib/gdtoa/gdtoa.c:634-695 | the inexact flag, exactly: it names the right side unless the remainder is in one of the listed cases, and then it is the stated wrong one |
| `DigitLoop.NineIsRight` | contrib/gdtoa/gdtoa.c:634-692 | rounding a 9 up stays in the gap and is the nearest choice and the even one of two, unless the gap ends exactly at ten |
| `DigitLoop.MoreMissesGrid` | contrib/gdtoa/gdtoa.c:698-707 | the loop goes on only when no decimal with this many digits is in the gap |
| `Digits.RoundOff` | contrib/gdtoa/gdtoa.c:728-737 | adds one to the last digit in place: nines are dropped, and all nines become a 1 with a larger exponent |
| `Mode0.Pass` | contrib/gdtoa/gdtoa.c:624-708 | one round keeps the loop's invariant and, when it goes on, leaves room in the buffer for another digit |
| `Mode0.GenerateDigits` | contrib/gdtoa/gdtoa.c:624-754 | the loop ends; its text, carry through nines included, is in the gap (closed for even mantissas, open for odd ones), no shorter decimal is, none of its length is nearer, a tie goes to the even one, and its flag is right exactly outside the listed cases and the stated wrong one in them |
| `BinaryGaps.NoTieAtTen` | contrib/gdtoa/gdtoa.c:634-636 | after the set-up no gap ends exactly at ten around a first digit 9: it would make a power of five lie between ten and twenty |
| `BinaryGaps.NoOddGaps` | contrib/gdtoa/gdtoa.c:634-636 | nor is a number an odd multiple of its gap, which would let a tie go to an odd digit: it has more twos than the gap |
| `PrintedMeaning.NearestOverall` | contrib/gdtoa/gdtoa.c:624-708 | the nearest on its grid is the nearest of all decimals with as many digits, whatever their exponents |
| `PrintedMeaning.MisnamedMeans` | contrib/gdtoa/gdtoa.c:654-695 | the listed cases of the flag in terms of the number, its two neighbouring decimals and its gap |
| `PrintedMeaning.WrittenWell` | contrib/gdtoa/gdtoa.c:624-754 | among the reals: the text reads back, no shorter one does, none of its length is nearer, of two equally near ones it is the even one, and the flag names its side if and only if the case is not a listed one, and is the stated other one in these |
| `UniqueText.OneBest` | contrib/gdtoa/gdtoa.c:624-754 | for every number and gap there is at most one decimal that reads back, is shortest, nearest and even in a tie, also among different exponents |
| `UniqueText.OneText` | contrib/gdtoa/gdtoa.c:186-759 | so what is promised of the result determines it: digits, decimal point and flag, for every number of every format |
| `SmallIntegers.PutInteger` | contrib/gdtoa/gdtoa.c:439-489 | the digits of a whole number, exactly, without zeros at their end |
| `SmallIntegers.ExactShortest` | contrib/gdtoa/gdtoa.c:439-489 | these digits are the shortest text if and only if the neighbours with zero for the last digit do not read back |
| `SmallIntegers.ExactWell` | contrib/gdtoa/gdtoa.c:439-489 | so always when the gaps are less than one |
| `Gdtoa.OddPart` | contrib/gdtoa/gdtoa.c:186-193 | the mantissa without its trailing zero bits, which go to the exponent |
| `Gdtoa.QuickWay` | contrib/gdtoa/gdtoa.c:439 | the test for the quick way is passed exactly by the whole numbers below 10^15 |
| `Gdtoa.Gdtoa` | contrib/gdtoa/gdtoa.c:186-759 | from the bits of a number to its text, over the reals: whole numbers below 10^15 exactly; for all others the decimal reads back, no decimal of fewer digits does, none of as many digits is nearer, a tie goes to the even one, and the flag is determined, right if and only if the case is not a listed one; zero gives 0 |
| `ReadingBack.ReadsIsRounding` | contrib/gdtoa/gdtoa.c:546-554 | for every format: a decimal is in the gap of a number exactly when correct rounding gives the number, but for one power of two whose gap goes down twice too far |
| `ReadingBack.PrintedIsRounded` | contrib/gdtoa/gdtoa.c:128-131 | the promise of mode 0: what is printed is rounded to the number again, if and only if it does not lie in that excess |
| `DecimalMeaning.ShortestMeans` | contrib/gdtoa/gdtoa.c:624-708 | what the integers of the loop say about the gap holds for the real numbers they stand for |
| `DecimalMeaning.RPowAdd` | contrib/gdtoa/gdtoa.c:259-277 | exponents of any sign add |
| `DecimalWriter.WriteExponent` | contrib/gdtoa/g__fmt.c:96-106 | writes an exponent with two digits at least, or gives up exactly when they do not fit |
| `DecimalWriter.PutExponential` | contrib/gdtoa/g__fmt.c:76-108 | the layout with an exponent, or a refusal exactly when the buffer is too small |
| `DecimalWriter.PutSmall` | contrib/gdtoa/g__fmt.c:109-122 | the layout of a number below one |
| `DecimalWriter.PutWhole` | contrib/gdtoa/g__fmt.c:123-143 | the layout with the point among or behind the digits |
| `DecimalWriter.FormatDecimal` | contrib/gdtoa/g__fmt.c:69-146 | the buffer holds the text of the number and a zero byte, or the result is null, exactly when n + 6 or the text itself does not fit; nothing is written past blen |
| `DecimalWriter.DigitsUnique` | contrib/gdtoa/g__fmt.c:96-106 | as many digits spelling the same number are the same digits |
| `DecimalText.TextReads` | contrib/gdtoa/g__fmt.c:76-143 | in every layout the text is one literal over its whole length, and denotes the digits times 10^(decpt - n) |
| `DecimalText.LayoutIs` | contrib/gdtoa/g__fmt.c:76-143 | an exponent is written if and only if decpt is at most -4 or more than the number of digits and 5; and how long each layout is, so that no zero stands before a leading point |
| `DecimalScanner.ScanPower` | contrib/gdtoa/strtodg.c:453-492 | the exponent part: its value, clamped at 19999 either way; without digits it is not an exponent |
| `DecimalScanner.ScanFraction` | contrib/gdtoa/strtodg.c:435-451 | zeros behind the point are taken only once another digit follows, and the first nine digits are collected |
| `DecimalScanner.ScanMantissa` | contrib/gdtoa/strtodg.c:404-452 | the run of digits found, times the power of ten of the dropped zeros, is the number that all digits spell; nf counts the places behind the point |
| `DecimalScanner.Scan` | contrib/gdtoa/strtodg.c:361-544 | for every text: exactly the sign, end, digits and exponent of the literal it begins with, or no number, zero, or the other notations |
| `DecimalSpelling.SpelledReads` | contrib/gdtoa/strtodg.c:361-492 | every literal built from spaces, a sign, digits, a point and digits, and e or E with a sign and digits, is read with exactly these parts, whatever follows that does not go on with it; an e without digits is none |
| `DecimalSpelling.ReadIsSpelled` | contrib/gdtoa/strtodg.c:361-492 | nothing else is read as a literal: what is read was spelled so |
| `DecimalSpelling.SpelledFound` | contrib/gdtoa/strtodg.c:361-544 | what the scanner finds in a spelled literal is the number that its parts spell, if and only if its exponent is at most 19999 either way or its digits are all zero |
| `DecimalScanner.S2b` | contrib/gdtoa/smisc.c:35-70 | the integer that the digits on both sides of the point spell |
| `DecimalRoundTrip.NumberMeans` | contrib/gdtoa/strtodg.c:477-529 | digits and power of ten denote what the text denotes if and only if its exponent is within 19999 |
| `DecimalRoundTrip.ReadNumber` | contrib/gdtoa/strtodg.c:404-529 | scanner and s2b together, for every text |
| `DecimalRoundTrip.TextFound` | contrib/gdtoa/g__fmt.c:76-143 | what the scanner finds in a written number: zero for zero, and otherwise the number itself if and only if its exponent survives |
| `DecimalRoundTrip.WriteAndRead` | contrib/gdtoa/g__fmt.c:69-146 | writing and reading give the same sign and the same rational number if and only if the text has no exponent or decpt - 1 is at most 19999 either way |
| `DecimalRoundTrip.HugeExponent` | contrib/gdtoa/strtodg.c:477-484 | 1e+20000 is read as another number |
| `DoubleText.FormatDouble` | contrib/gdtoa/g_dfmt.c:51-92 | every double: NaN, infinities and zeros by name, others as their shortest decimal, and of its length the nearest, the even one in a tie, with at most 17 digits and 24 characters; with 25 bytes the buffer is never too small |
| `DoubleNumbers.NumberIsIeee` | contrib/gdtoa/g_dfmt.c:80-87 | mantissa and exponent as they are passed on are the number that exponent and fraction stand for, section 3.4 of IEEE 754-2008 |
| `DoubleNumbers.ClassesAre` | contrib/gdtoa/g_dfmt.c:59-79 | infinity is one value of the joined words, NaN all beyond it, zero the first, numbers those between |
| `DoubleNumbers.SignBit` | contrib/gdtoa/g_dfmt.c:58-87 | with bit 31 of the upper word set a double gets the minus sign, is the negated number, and is otherwise printed the same |
| `DoubleNumbers.OneIsOne` | contrib/gdtoa/g_dfmt.c:80-87 | the words 0x3ff00000 and 0 are the number 1 |
| `DoubleNumbers.NextDouble` | contrib/gdtoa/g_dfmt.c:80-87 | joined words one larger are the next number: one unit in the last place more, and none of the format between them |
| `DoubleNumbers.DoubleOf` | contrib/gdtoa/g_dfmt.c:80-87 | every number of the format is that of a double |
| `DoubleText.DoubleExponent` | contrib/gdtoa/g_dfmt.c:80-92 | the decimal point of a double's shortest decimal lies between places -323 and 326 |
| `DoubleText.TextFits` | contrib/gdtoa/g__fmt.c:69-143 | 24 characters are enough for any double |
| `DoubleText.PrintsDouble` | contrib/gdtoa/gdtoa.c:439-489 | whole numbers printed the quick way are shortest and nearest, too, when they are doubles |
| `WideDouble.WideText` | contrib/gdtoa/gdtoa.c:546-554 | 2^-1021, the one double whose gap goes down too far: its text is near enough all the same |
| `DoubleReading.ReadsBackRounds` | contrib/gdtoa/g_dfmt.c:80-92 | for every double: what reads back is what is correctly rounded to it |
| `DoubleReading.TextIsRounded` | contrib/gdtoa/g_dfmt.c:80-92 | the text of every finite non-zero double is correctly rounded to that double |
| `DoubleReading.WriteAndReadDouble` | contrib/gdtoa/g_dfmt.c:80-92 | the same after scanning: what the scanner and s2b make of the text is a decimal that correct rounding takes to the double |
| `HexText.ScanMantissa` | contrib/gdtoa/gethex.c:69-122 | where the significant digits are, whether any digit was there, whether all are zero, and four bits of exponent for every digit behind the point |
| `HexText.ScanExponent` | contrib/gdtoa/gethex.c:123-149 | the exponent part, and whether it is too large to be trusted |
| `HexSpelling.HexDigitsAre` | contrib/gdtoa/hd_init.c:52-54 | the sixteen digits in either case have their values |
| `HexSpelling.OnlyHexDigits` | contrib/gdtoa/hd_init.c:52-54 | and no other character is a digit |
| `HexSpelling.HexNumeralReads` | contrib/gdtoa/gethex.c:69-122 | every whole number written in base 16 behind 0x, in either case, is read as itself |
| `HexSpelling.HexSpelledReads` | contrib/gdtoa/gethex.c:69-149 | every literal built from digits, a point and digits, and p or P with a sign and digits, stands for its digits times 2^(x - 4 f); a p without digits is none |
| `HexSpelling.EveryTextIsSpelled` | contrib/gdtoa/gethex.c:69-149 | every text behind 0x is such a literal, perhaps without digits, and a rest |
| `Packing.Pack` | contrib/gdtoa/gethex.c:201-231 | the digits between s0 and s1 as a big integer, points left out, with its bit count |
| `Rounding.NearestEvenUnique` | contrib/gdtoa/gethex.c:315-318 | no two integers are both the nearest, ties to even |
| `HexBits.FirstLost` | contrib/gdtoa/gethex.c:235-245 | what a right shift loses: nothing, less than half, half or more than half a unit |
| `HexBits.SecondLost` | contrib/gdtoa/gethex.c:299-305 | the same for a number that has already lost something |
| `HexBits.WordsForBits` | contrib/gdtoa/gethex.c:230-231 | a number in normal form has the words its bits need |
| `Gethex.RoundTail` | contrib/gdtoa/gethex.c:310-346 | rounding up or not gives the nearest multiple, ties to even, and the flag names the side |
| `Gethex.RoundNormal` | contrib/gdtoa/gethex.c:310-346 | a mantissa that rounds to 2^nbits is halved and the exponent raised |
| `Gethex.RoundDenormal` | contrib/gdtoa/gethex.c:299-334 | below emin the result is the nearest multiple of 2^emin, and is called normal exactly when it reaches 2^(nbits-1) |
| `Gethex.TinyAnswer` | contrib/gdtoa/gethex.c:267-297 | when all bits go the answer is correct if and only if the number is not just above half the least one |
| `Gethex.RoundTo` | contrib/gdtoa/gethex.c:231-349 | for every mantissa and exponent: correctly rounded, ties to even (section 4.3.1 of IEEE 754-2008), if and only if the number is outside that interval; overflow and underflow are named |
| `Gethex.GetHex` | contrib/gdtoa/gethex.c:69-349 | for every hexadecimal text whose exponent is read: correctly rounded exactly outside the faulty interval; the same for exponents that are too large to be read when text and format are small against 2^27, and for all of them the answer is correct if and only if the number is at most half the least one, or at least half a place above the largest |
| `Gethex.FarAnswer` | contrib/gdtoa/gethex.c:155-185 | when zero and when infinity is the correct answer for an exponent that is not read |
| `Gethex.WrongAnswer` | contrib/gdtoa/gethex.c:271-273 | the other of 0 and the least number is never correct |
| `Exceptions.FlagNamesWrongSide` | contrib/gdtoa/gdtoa.c:673-682 | 72057594037928016, a double, is printed as 72057594037928020, which is more, and the flag says that it is less |
| `Exceptions.ExactCalledInexact` | contrib/gdtoa/gdtoa.c:673-680 | 2^54 is printed with all its digits and the flag says that they are too many |
| `Exceptions.LongInteger` | contrib/gdtoa/gdtoa.c:439-489 | 2^40 + 2^17, a number of 24 bits, is printed with thirteen digits where eight are enough |
| `Exceptions.TextReadsAsOther` | contrib/gdtoa/gdtoa.c:548 | in a format of four bits 0.03125 is printed as 0.03, which is rounded to another number |
| `Exceptions.ReadsAsZero` | contrib/gdtoa/gethex.c:271-273 | 0x1.00000000000001p-1075, just above half the least double, reads as zero |
| `Exceptions.FarReadsAsZero` | contrib/gdtoa/gethex.c:155-170 | 0x1p-1342177280 reads as zero, also in a format that has this number |
| `BitReversal.MakeIndex` | src/ft.c:690-703 | ip[j] is l times the reversal of j, for both parities of the length |
| `BitReversal.SwapByFour` | src/ft.c:701-755 | the loops for l = 8m move every entry to its reversed index |
| `BitReversal.SwapByTwo` | src/ft.c:756-782 | the loops for l = 4m do the same |
| `BitReversal.Bitrv2` | src/ft.c:685-783 | every power-of-two length: exactly the bit-reversal permutation of the complex entries, and nothing beyond n is touched |
| `BitReversal.Bitrv2Conj` | src/ft.c:785-892 | the same permutation with every entry conjugated exactly once |
| `BitReversal.ReversedTwice` | src/ft.c:685-783 | the permutation is its own inverse |
| `BitReversal.RevParts` | src/ft.c:690-703 | reversal exchanges the low and high parts of an index and reverses both |
| `Butterflies.Butterfly` | src/ft.c:1165-1195 | one butterfly with twiddles, in place, on four complex entries |
| `Butterflies.Rows` | src/ft.c:1107-1223 | the butterflies of one block, each row once |
| `Cft.Cft1st` | src/ft.c:995-1098 | the first radix-4 pass, for any table with modulus one and the double-angle law, is two stages of the network |
| `Cft.Cftmdl` | src/ft.c:1100-1225 | the same for a middle pass, four loops with the twiddles of both block kinds |
| `Cft.TripleAngle` | src/ft.c:1035-1042 | wk3 computed as w - 2 w2 w is the product of the other two twiddles |
| `Cft.ThirdIsUnit` | src/ft.c:1035-1042 | wk3 has modulus one when wk1 does and the imaginary parts alone keep the double-angle law |
| `Cft.EighthTurn` | src/ft.c:1019-1021 | w[2] serves as both parts of the eighth root of unity |
| `Passes.PassAdvances` | src/ft.c:894-915 | a pass takes the blocks of 2^k to blocks of 2^(k+2) |
| `LastPass.LastPairs` | src/ft.c:931-940 | the last stage of an odd number of stages: sums and differences, conjugated by the backward transform |
| `LastPass.BackwardFour` | src/ft.c:959-980 | the last radix-4 pass of the backward transform is the plain one, conjugated |
| `Cdft.FirstPasses` | src/ft.c:899-908 | the passes before the last make all but one or two stages of the network |
| `Cdft.Cftfsub` | src/ft.c:894-942 | all passes together are the radix-2 network |
| `Cdft.Cftbsub` | src/ft.c:944-993 | the same with the results conjugated |
| `Dft.NetworkIsTransform` | src/ft.c:45-51 | on reversed input, with a table of powers of a root of unity, the network is the discrete Fourier transform sum |
| `Cdft.NaturalTable` | src/ft.c:643-656 | mirror images fill the table from an eighth of a turn |
| `Cdft.Makewt` | src/ft.c:634-660 | the table left behind is the bit-reversed powers of the unit, as the passes read them |
| `Cdft.SubTable` | src/ft.c:299-301 | a table made for a longer transform serves a shorter one |
| `Cdft.NeedTable` | src/ft.c:299-301 | a new table is made exactly when n is too large for the old one |
| `FourierLaws.TableDoublesAngles` | src/ft.c:634-660 | such a table has modulus one and keeps the double-angle law |
| `FourierLaws.NetworkEnergy` | src/ft.c:894-993 | every stage doubles the energy, for any table of modulus one |
| `FourierLaws.Parseval` | src/ft.c:297-313 | Parseval for any table of modulus one: the output's energy is n/2 times the input's |
| `FourierLaws.Orthogonal` | src/ft.c:76-83 | different powers of the kernel are orthogonal |
| `FourierLaws.Inverse` | src/ft.c:76-83 | the conjugate kernel inverts the transform up to n/2 |
| `FourierLaws.ConjugateSum` | src/ft.c:45-51 | conjugate, transform, conjugate is the transform with the conjugate kernel |
| `Cdft.CdftForward` | src/ft.c:302-312 | reversal and network for every length, also 2 and 4 |
| `Cdft.CdftBackward` | src/ft.c:302-312 | conjugate, forward transform, conjugate |
| `Cdft.Cdft` | src/ft.c:297-313 | for every power-of-two length, whatever calls came before: forward is the DFT sum, backward the one with the conjugate kernel, both with Parseval's factor |
| `Cdft.ForwardAndBackward` | src/ft.c:76-83 | forward and backward give the numbers back n/2 times as large, as documented |
| `RealFft.Rftfsub` | src/ft.c:1227-1249 | the pairs (j, n - j) are combined each exactly once |
| `RealFft.Rftbsub` | src/ft.c:1252-1276 | the same backwards, conjugating every entry |
| `RealFft.BackIsConjugate` | src/ft.c:1227-1276 | rftbsub after rftfsub conjugates every entry, given c[kk]^2 + c[nc-kk]^2 = 1/4 |
| `RealFft.ForwardIsInverse` | src/ft.c:1227-1276 | and rftfsub undoes rftbsub without its conjugation |
| `RealFft.RealTransform` | src/ft.c:1227-1249 | rftfsub turns the transform of packed pairs into the transform of the reals |
| `Rdft.RdftForward` | src/ft.c:331-341 | what the forward real transform leaves in the array |
| `Rdft.SpectrumMeans` | src/ft.c:88-91 | that is the DFT of the reals: entries 0 < k < n/2, with entries 0 and n/2 packed in front |
| `Rdft.RdftBackward` | src/ft.c:342-352 | the backward real transform |
| `Rdft.RealForwardAndBackward` | src/ft.c:125-132 | real forward and backward give the reals back n/2 times as large, as documented |
| `Rdft.SpectrumOfRebuilt` | src/ft.c:331-352 | the other order of the passes gives n/2 times the spectrum |
| `CosineTables.Makect` | src/ft.c:663-679 | half the cosines of the powers of one angle, with the sines from the other end and one whole cosine in front |
| `CosineTables.CosinesServe` | src/ft.c:1227-1249 | such a table made for any length serves every shorter real transform |
| `CosineTables.NeedTables` | src/ft.c:321-330 | the table part of rdft, ddct and ddst: from any state that earlier calls leave, both tables are there and belong to one angle, a new table of factors taking the old cosines with it |
| `RealTransforms.CallRdft` | src/ft.c:316-353 | rdft after any earlier calls: the documented DFT of the reals, and backward the reals whose DFT is n/2 times the input |
| `InverseSums.RealInverse` | src/ft.c:92-95 | these reals are the documented sum of R[0], R[n/2] and the cosines and sines between |
| `Ddct.SpreadOut` | src/ft.c:371-378 | neighbours are mixed in place from the far end |
| `Ddct.GatherIn` | src/ft.c:396-402 | and mixed back |
| `Ddct.Dctsub` | src/ft.c:1279-1318 | dctsub and dstsub: each pair (j, n - j) is turned exactly once and the middle entry scaled |
| `Ddct.TurnedTwice` | src/ft.c:1279-1318 | dctsub twice halves everything, given c[0]^2 = 1/2 and the half-circle law; dstsub likewise |
| `Ddct.DdctBackward` | src/ft.c:371-387 | ddct and ddst with isgn < 0 |
| `Ddct.DdctForward` | src/ft.c:387-403 | ddct and ddst with isgn >= 0 |
| `Ddct.BackwardAndForward` | src/ft.c:163-171 | the documented inverse: backward, a[0] halved, forward give n/2 times the numbers, for the cosine and the sine transform |
| `CosineSums.TurnLobes` | src/ft.c:1279-1318 | one turn of dctsub or dstsub takes cosine plus or minus sine of a full angle to one cosine or sine |
| `CosineSums.TurnedSymmetric` | src/ft.c:1279-1318 | dctsub and dstsub are symmetric |
| `CosineSums.ForwardSum` | src/ft.c:137-141 | isgn >= 0: the documented sums over cos or sin of pi j (k + 1/2) / n |
| `CosineSums.BackwardSum` | src/ft.c:137-141 | isgn < 0: the documented sums over cos or sin of pi (j + 1/2) k / n |
| `CosineSums.CallDdct` | src/ft.c:356-404 | ddct and ddst after any earlier calls, tables included: exactly these sums, both ways |
| `Calendar.Caldate.Mjd` | contrib/libtai-0.60/caldate_mjd.c:16-43 | for any year and any overflowing month and day: the day number of the proleptic Gregorian calendar |
| `Calendar.Caldate.FromMjd` | contrib/libtai-0.60/caldate_fmjd.c:13-47 | for every day number: the valid date that has it, its weekday, and the day of the year, one too large exactly from March on in centuries that are no leap years |
| `Calendar.MarchOfACentury` | contrib/libtai-0.60/caldate_fmjd.c:31 | 1 March 1900 is such a day |
| `Calendar.Caldate.Normalize` | contrib/libtai-0.60/caldate_norm.c:3-7 | a valid date with the same day number; valid dates stay as they are |
| `Calendar.Caldate.Easter` | contrib/libtai-0.60/caldate_ster.c:12-23 | for every year from 0 on: a Sunday, and the first after the full moon of spring as Clavius's tables give it; so between 22 March and 25 April |
| `Calendar.DatesDiffer` | contrib/libtai-0.60/caldate_mjd.c:16-43 | day numbers tell valid dates apart, so either routine undoes the other |
| `Calendar.NextDayNumber` | contrib/libtai-0.60/caldate_mjd.c:16-43 | the next Gregorian day has the next number |
| `Calendar.DayZero` | contrib/libtai-0.60/caldate_fmjd.c:23 | the numbers start on 17 November 1858 |
| `Calendar.MoonFound` | contrib/libtai-0.60/caldate_ster.c:14-19 | the sum of the code finds that full moon, by the epact, for every year from 0 on |
| `LeapSeconds.LeapTable.AddLine` | contrib/libtai-0.60/leapsecs.c:20-25 | one line of the table's source; lines in order keep the table well formed |
| `LeapSeconds.LeapTable.Add` | contrib/libtai-0.60/leapsecs_add.c:18-25 | the counting loop is the recursive specification, in 64-bit arithmetic |
| `LeapSeconds.LeapTable.Sub` | contrib/libtai-0.60/leapsecs_sub.c:18-28 | the same for taking leap seconds out |
| `LeapSeconds.SubtractedCounts` | contrib/libtai-0.60/leapsecs_sub.c:18-28 | as many seconds are taken out as the table has entries up to the instant, and it is a leap second if and only if the table holds it |
| `LeapSeconds.AddUndoesSub` | contrib/libtai-0.60/leapsecs_sub.c:18-28 | for any well-formed table, taken out and counted in again is the same instant, leap seconds included |
| `LeapSeconds.SubUndoesAdd` | contrib/libtai-0.60/leapsecs_add.c:18-25 | counted in and taken out again is the same second |
| `CivilTime.Caltime.Utc` | contrib/libtai-0.60/caltime_utc.c:21-34 | exactly the fields of the instant without its leap seconds, also where 64 bits run over; second 60 exactly for a leap second |
| `CivilTime.Caltime.ShiftOffset` | src/tfDateTAI_.c:167-181 | another zone, the same minute in UTC, valid fields and the weekday there |
| `CivilTime.Caltime.Tai` | contrib/libtai-0.60/caltime_tai.c:17-24 | the instant that the fields stand for |
| `CivilTime.ThereAndBack` | src/tfDateTAI_.c:167-181 | any instant, to UTC, to any zone and back is the same instant, leap seconds included |
| `CivilTime.BackAndThere` | contrib/libtai-0.60/caltime_tai.c:17-24 | any civil time below second 60, to TAI and back to its zone, is the same civil time |
| `IsoText.ZoneReads` | src/tfDateTAI_.c:191-199 | the printed zone is read back if and only if it is less than a day |
| `IsoText.TextReads` | src/tfDateTAI_.c:380-423 | the printed text is read back as its fields if and only if the year is not negative and the zone, if shown, below a day |
| `IsoText.ShapeIs` | src/tfDateTAI_.c:543-562 | the printed text has 19 or 25 characters, with hyphens, a space, colons and the sign of the zone at their places, for years from -999 to 9999 |
| `IsoText.YearBeforeZero` | src/tfDateTAI_.c:380-423 | the first day of the year -1 is printed and not read |
| `IsoText.ZoneOfADay` | src/tfDateTAI_.c:191-199 | a zone of a whole day is printed and not read |
| `DateText.DecodeTimeZone` | src/tfDateTAI_.c:189-207 | for every text and list of names: the offset of a zone, or a refusal, as ParseZone says, about which IsoSpelling.HoursAndMinutes and NamedZone speak |
| `IsoSpelling.HoursAndMinutes` | src/tfDateTAI_.c:191-199 | a sign, two digits for the hours and two for the minutes: plus or minus 60 h + m, refused beyond 23 and 59 |
| `IsoSpelling.SignedZone` | src/tfDateTAI_.c:191-199 | a sign and what strtol takes for a number behind it: read exactly when these are four characters and hours and minutes are in range |
| `IsoSpelling.NamedZone` | src/tfDateTAI_.c:201-207 | a zone without a sign has the offset that the list gives its name, and is refused when the list has it not |
| `IsoSpelling.ZoneWasSpelled` | src/tfDateTAI_.c:189-207 | nothing else is a zone |
| `IsoSpelling.SecondSign` | src/tfDateTAI_.c:193-199 | a second sign is taken: +-123 is 83 minutes west |
| `DateText.DecodeFields` | src/tfDateTAI_.c:373-423 | the fields of every text in ISO form, or a refusal, as ParseIso says, about which IsoSpelling.SpelledReads and ReadWasSpelled speak |
| `IsoSpelling.SpelledReads` | src/tfDateTAI_.c:373-423 | every text built from date, spaces, clock, perhaps a fraction, and spaces or spaces and a zone is read as its numbers, with the default offset or the one of its zone, and refused when the zone is |
| `IsoSpelling.ReadWasSpelled` | src/tfDateTAI_.c:373-423 | nothing else is read |
| `DateText.DecodeDateString` | src/tfDateTAI_.c:373-461 | and the instant they stand for |
| `DateText.EpochIs` | contrib/libtai-0.60/caltime_tai.c:18-24 | the first second of 1970 is 2^62 + 10 before leap seconds, and seconds count on from there |
| `DateText.FirstLeapSecond` | contrib/libtai-0.60/leapsecs.txt:14-16 | the leap second at the end of June 1972 and the seconds around it, as consecutive instants |
| `DateText.FormatDate` | src/tfDateTAI_.c:494-562 | the text of the fields that the instant has in the zone |
| `DateText.ShowsOne` | src/tfDateTAI_.c:494-497 | an instant has only one set of fields in a zone |
| `DateText.ShowsInstant` | contrib/libtai-0.60/caltime_tai.c:17-24 | and these fields stand for it, leap seconds included |
| `DateText.TextAndBack` | src/tfDateTAI_.c:380-562 | printing and parsing give the same instant if and only if the local year is not negative and the zone, if shown, is below a day |
| `Spline.Eliminate` | src/spch.c:509-522 | the elimination loop; every coefficient lies in (-1, 0], so no divisor is zero |
| `Spline.Splined` | src/spch.c:504-535 | on increasing knots the array holds second derivatives that solve every inner equation and both end conditions |
| `Spline.SolvesIffSubstituted` | src/spch.c:516-533 | elimination and back substitution give a solution, and only that one |
| `Spline.OneSolution` | src/spch.c:504-535 | the system has one solution |
| `LineDensity.ValuesMeet` | src/spch.c:489-490 | lambda agrees from both sides at every knot |
| `LineDensity.SlopesMeet` | src/spch.c:491-492 | dlambda_dz agrees from both sides at the knots 1 to n - 2 when rhoz_sp comes from splined |
| `LineDensity.SlopesAtEnds` | src/spch.c:491-492 | at each end the density has the slope that splined was given, or no curvature when that is beyond .99e33 at the start or .99e30 at the end |
| `LineDensity.FlatEnds` | src/spch.c:223 | the call that the solver makes gives slope zero at both ends |
| `LineDensity.SlopeIsDerivative` | src/spch.c:489-492 | dlambda_dz is the derivative of lambda |
| `ChargeGrid.PotentialSolver.constructor` | src/spch.c:57-92 | the grids and the window inside them |
| `ChargeGrid.Axis.Window` | src/spch.c:86-92 | a particle counts if and only if it lies between the places 1 and 2 (n/2) - 1 |
| `ChargeGrid.TentAt` | src/spch.c:264-280 | only the two places around a particle have a share, by their distance |
| `ChargeGrid.HumpAt` | src/spch.c:297-312 | the shares along the beam: all to the particle's own place in the first half of its cell |
| `ChargeGrid.PotentialSolver.DepositAcross` | src/spch.c:264-280 | the four shares are non-negative, fall inside the grid, add up to one charge at the particle's own place, and are the products of tents over both axes |
| `ChargeGrid.PotentialSolver.DepositAlong` | src/spch.c:284-312 | one charge along the beam, inside the grid, in exactly the shares that the code gives; its position is added to the first moment if and only if the particle is on a place or halfway between two |
| `ChargeGrid.DriftIsNone` | src/spch.c:297-312 | the charge is put below the particle in the first half of a cell and above it in the second, and where it is only at 0 and 1/2 |
| `ChargeGrid.QuarterCell` | src/spch.c:297-305 | a particle at a quarter of a cell is put at its lower end |
| `ChargeGrid.PotentialSolver.Rhocal` | src/spch.c:250-316 | over any particle list: every place holds the sum of the particles' shares; the total is the number of particles in the window, the first moments across the beam are the sums of their positions; rhoz counts those also inside the z window, with the sum of the shifted positions for its first moment |

## Left out

- Gdtoa.Gdtoa: takes the estimate of the decimal exponent, which the source computes in floating point, as exact or (where it is still checked) one too large; the floating-point operations for small integers are exact and modelled on integers; the fast floating-point digits for a given number of digits, other modes than 0 and directed rounding are not modelled.
- DoubleText.FormatDouble: takes the same estimate, and the number of digits asked for as 0, which is what SAD passes.
- DecimalScanner.Scan: the digits 10 to 16, which only feed a floating-point approximation, infinity and NaN by name, and everything in strtodg after the digits and the exponent are known (its correction loop) are not modelled.
- DecimalScanner.ScanMantissa: also sets nd0 to nd for digits that all stand behind the point, which the source does after the exponent.
- DecimalScanner.ScanPower: the 32-bit overflow of more than eight exponent digits is not modelled, since its result is not looked at.
- Gethex.GetHex: rounds to nearest only; NaN payloads, other word sizes and errno are not modelled.
- HexText.ScanExponent: overflow of a 32-bit exponent counter, for texts of half a gigabyte, is not modelled.
- DecimalWriter.FormatDecimal: the decimal point is a full stop; locales are not modelled, and the freeing of the digits is left out.
- The allocator: free lists, the bound on block sizes and running out of memory. A new block holds arbitrary words, as a recycled one does.
- Packing.Pack: the bits of a digit are added where the source uses `|`, which is the same on disjoint bits.
- Cdft.Makewt: cosine and sine are given as the powers of a unit number with their laws; floating-point rounding is not modelled.
- Rdft.RdftForward: takes the tables as given; RealTransforms.CallRdft makes them.
- Ddct.BackwardAndForward: takes the tables as given; CosineSums.CallDdct makes them.
- CosineTables.NeedTables: cosine and sine of the angles are given as powers of unit numbers, each the square of the next; rounding is not modelled.
- Ddct.Dctsub: dctsub and dstsub, ddct and ddst share one body with a flag for the signs, as bitrv2 and bitrv2conj do.
- Cft.Cftmdl: the four inner loops that the source writes out for the kinds of twiddles are one loop with the kind as a parameter.
- The transforms dfct and dfst over half-length work arrays.
- Calendar.Caldate.Easter: before year 0, where the remainders of C turn negative, nothing is promised.
- LeapSeconds.LeapTable.AddLine: keeps the table well formed while the day after the leap second fits 64 bits; reading and refreshing the table file is not modelled.
- CivilTime.BackAndThere: is about times that are no leap second; CivilTime.ThereAndBack covers these.
- DateText.FormatDate: prints without a fraction of a second, as for tick 0; the value of a fraction that is read is not kept, and the list of named zones is a map.
- DateText.DecodeDateString: only the ISO formats; strtol is not cut off at the ends of a long integer.
- Spline.Splined: over reals, so rounding is not modelled; the knots are increasing, as the solver makes them.
- ChargeGrid.PotentialSolver.Rhocal: the Poisson solver, the boundary rows of makebcu, the kicks and all printing are not modelled.
- SAD's interpreter, graphics, sockets and the other libraries it carries.
