# Verified model of cbase

This project models the hardest parts of `cbase`, the C library that cecup is built on, and proves what they
promise: exact printing of `long double`, the formatter pipeline, the open-addressing hash map and the arena its
keys are in, the thread pool, the k-way merge, path normalization, integer parsing and printing, the rapidhash variants, and the
calendar code of `strftime`. `dafny verify dfyconfig.toml` checks everything.

Code that changes things in place is modelled in place: classes for the big integer, the sink, the plan, the hash map
and the arena nodes, arrays and loops for digit buffers, paths, heaps and probing. Each such method is proved against a
function or predicate of its inputs, and lemmas say what that function means. The thread pool is a state machine
whose steps are the critical sections of the caller and the workers.

## Modules

| area | modules |
|---|---|
| arithmetic and sequences | Powers, Bits, Results, Sequences, Words, Decimal, IntegerText |
| `long double` printing (`fmt.c`) | BigUInt, Rounding, BinaryFloat, Magnitude, FixedStyle, ExpStyle, SignificantDigits, ExpText, ExpRoom, GeneralStyle, LongDoublePrint, TextLengths |
| hexadecimal and `double` printing (`fmt.c`) | FloatBits, FloatEncoding, HexStyle, HexPrint, DoublePrint, RyuTexts, DoubleCorrect |
| formatter (`fmt.c`) | FormatSink, FormatSpec, FormatGrammar, FormatRender, FormatInteger, FormatIntegerFacts, FormatFloats, FormatConversion, FormatFields, FormatArguments, FormatMeaning, FormatExecute, FormatRuns, FormatRooms, FormatPlan, FormatEntry |
| hash map (`hash.c`) | Probing, Tables, HashTable, HashRuns |
| arena and duplicated keys (`arena.c`, `hash.c`) | Arena, KeyArena, DuplicatedKeys, DuplicatedRuns |
| thread pool (`threads.c`) | Slices, ThreadPool, ThreadPoolSafety, ThreadPoolRuns |
| merge (`sort.c`) | Heaps, MergeSort |
| paths (`fs.c`, `mem_literal_short.h`) | PathText, PathNormalize |
| numbers as text (`strtonum.c`, `numtostr.c`) | Strtonum |
| hash function (`rapidhash.c`) | Rapidhash, RapidhashBytes |
| calendar (`fmt.c`) | Calendar |

## Main results

- Printing a finite `long double` with `%Lf`, `%Le` or `%Lg` denotes the correctly rounded value: nearest, ties to even
  (roundTiesToEven, section 4.3.1 of IEEE 754-2008; conversions as in section 7.21.6.1 of ISO C11), for all three
  formats of `long double`. It returns a text exactly when the precision is inside the ERANGE bound and, for `%Le` and
  `%Lg` of a value below one, the `log10l` estimate is within 15 of the true exponent; no other failure is possible
  (`LongDoublePrint.PrintLongDouble`).
- The bits of a number are decoded to the number they are written for, in each of the three formats, and no other bits are
  (`FloatEncoding.EncodedDecodes`, `FloatEncoding.DecodedEncodes`).
- `%a` and `%La` print the digits of the significand, rounded to nearest, ties to even, and read back as the value
  (`HexStyle.HexBodyReads`, `HexPrint.PrintDoubleHex`, `HexPrint.PrintLongDoubleHex`).
- The estimate of any format and argument list, floating point of any bits included, bounds what is printed, so planned,
  unchecked formatting into estimate + 1 bytes stays inside and equals direct formatting (`FormatEntry.VsnprintfPlanned`).
  The only hypothesis is about the two Ryū printers, which are not part of this model: their texts keep to a stated length
  and the exponent they print is not below the decade of the value (`RyuTexts.RyuBounded`), as every correctly rounded
  text does (`RyuTexts.CorrectIsBounded`). A checked sink of any capacity holds the prefix that fits, and the result
  does not depend on the capacity, as section 7.21.6.5 of ISO C11 asks (`FormatEntry.Vsnprintf`).
- With correctly rounding Ryū printers a `double` is printed as the `long double` of the same value would be
  (`DoubleCorrect.DoubleTextIsDecimalText`), so every body of a finite value reads as that value
  (`FormatFloats.FloatBodyReads`).
- Every conversion appends what flags, width, precision, length and letter say of the bits of its arguments, stated
  without the executor's own functions (`FormatMeaning.ActionShows`, `FormatExecute.ExecuteSpec`).
- An estimate is given exactly when the format parses, nothing is refused, and literals and rooms sum up to an int32; each
  kind of conversion has exactly its room (`FormatRooms.EstimateIsRoom`, `FormatEntry.EstimateFormat`,
  `FormatPlan.EstimatePlan`).
- The parser of conversion specifications accepts exactly the texts of a grammar stated on its own, and returns what they
  say (`FormatGrammar.GrammarIsExact`).
- Any sequence of hash map operations answers what a finite map would, up to the first that is refused, which is known
  exactly (`HashRuns.PerformAll`, `HashRuns.Perform`).
- After any sequence of operations on a map that duplicates its keys, every key has a live object of the arena to itself
  with its bytes in it, and nothing else is live (`DuplicatedRuns.PerformAll`).
- Under every interleaving with spurious wakeups `parallel_for` runs each index exactly once before it returns, leaves
  no pointer to its stack frame, never gets stuck, and ends within a bounded number of steps (`ThreadPoolRuns`).
- Merging the sorted slices of `parallel_for` sorts the array (`MergeSort.MergeSubsorted`, `MergeSort.SlicesAreRuns`).
- Live arena objects never overlap, and keep their bytes whatever else is pushed, written or reused (`Arena`, `KeyArena`).
- `parse_integer` and `atoi_base_sat` give what spaces, sign, mark and digits of a text denote, for every text
  (`Strtonum.ParseInteger`, `Strtonum.PartsExist`, `Strtonum.MarkedTextParses`).
- rapidhash's variants agree, and the words they mix determine the key: every byte has its part (`RapidhashBytes`).
- `normalize` keeps what a path means, reaches a normal form, and is idempotent (`PathNormalize.Normalize`, `PathText`).

## What the proofs showed about the code

- The exponent search of `%Le` takes at most 16 trials, so it needs an estimate within 15; with a worse one it reports an
  error, never a wrong exponent (`ExpStyle.ExponentSmall`). The loop that would insert zeros in front of the digits
  (`cbase/fmt.c:2643`) never runs (`SignificantDigits.PadToLength`).
- The limit on plan entries (`cbase/fmt.c:3852`) is only met by a 64th percent sign that ends a format of 127 bytes, which
  does not parse; only the error code differs (`FormatPlan.LimitMetAtEnd`, `FormatPlan.FmtPlan.Parse`).
- `arena_decr` of an address that is in a node but not live leaves the counters wrong, and `arena_back` by more than the end
  of the last object does too; the conditions are exact (`Arena.Decr`, `Arena.Back`), and the map never does the former
  (`DuplicatedKeys.KeyMap.ReleaseKey`).
- The fatal branch for a full queue (`cbase/threads.c:513`) is unreachable with one caller (`ThreadPoolSafety.RingRoom`).
- A hash map at capacity 2^31 that is 75% occupied cannot take `insert` or `overwrite` any more, not even of a key that
  is present, because the resize comes before the probe (`HashTable.HashMap.Insert`, `HashTable.HashMap.Overwrite`).
- `atoi_base_sat` does not skip spaces and `parse_integer` does, so they agree exactly on text without a leading space
  and on text that denotes zero behind its spaces (`Strtonum.ParsersAgree`, `Strtonum.LeadingSpaceDiffers`).
- `%n` with a NULL pointer is refused by the estimator, so such a format has no estimate; the executor reports a count too
  large for its target before it looks at the pointer (`FormatExecute.ExecuteCount`).

## Model

| member | source | states |
|---|---|---|
| BigUInt.FormatBigUInt.constructor | cbase/fmt.c:1098-1105 | a value of the given capacity starts as zero, in normal form |
| BigUInt.FormatBigUInt.SetZero | cbase/fmt.c:1098-1105 | the value becomes zero, in normal form |
| BigUInt.FormatBigUInt.Normalize | cbase/fmt.c:1215-1225 | drops exactly the leading zero words: the value is unchanged and the top word is not zero |
| BigUInt.FormatBigUInt.EnsureWord | cbase/fmt.c:1227-1240 | fails, changing nothing, exactly when the word lies outside the buffer; otherwise every word up to it exists, new ones are zero, old ones keep their contents |
| BigUInt.FormatBigUInt.AddOne | cbase/fmt.c:1242-1269 | the value grows by one; overflow is reported exactly when value + 1 needs more words than the buffer has |
| BigUInt.FormatBigUInt.MulSmall | cbase/fmt.c:1491-1522 | the value is multiplied by a 32-bit factor; overflow is reported exactly when the product does not fit |
| BigUInt.FormatBigUInt.Multiply | cbase/fmt.c:1491-1522 | product plus carry of two words fits 64 bits and splits into its low and high word |
| BigUInt.FormatBigUInt.ShiftLeft | cbase/fmt.c:1345-1397 | multiplies by a power of two; refuses exactly when the conservative word count check says so |
| BigUInt.FormatBigUInt.ShiftRight | cbase/fmt.c:1399-1438 | divides by a power of two, rounding down, and stays in normal form |
| BigUInt.FormatBigUInt.HasLowBits | cbase/fmt.c:1440-1468 | true exactly when the remainder by 2^bits is not zero |
| BigUInt.FormatBigUInt.TestBit | cbase/fmt.c:1329-1343 | the binary digit of the value at that index, zero beyond the top word |
| BigUInt.FormatBigUInt.RemainderOf | cbase/fmt.c:1470-1489 | classifies the part below the cut against one half: zero, below, equal, above |
| BigUInt.FormatBigUInt.IsOdd | cbase/fmt.c:2271-2276 | parity of the whole number |
| BigUInt.FormatBigUInt.DivSmall | cbase/fmt.c:1524-1540 | quotient in place and remainder of the division by a word, in normal form |
| BigUInt.FormatBigUInt.ToDecimal | cbase/fmt.c:1542-1592 | writes the shortest decimal text and a terminator; overflow is reported exactly when digits and terminator do not fit; nothing behind the capacity is touched |
| BigUInt.FormatBigUInt.DecimalDigitCount | cbase/fmt.c:1594-1619 | the length of the shortest decimal text |
| Words.PassAtStep | cbase/fmt.c:1503-1515 | one word of a carrying pass keeps the balance: done words plus carry equal source times factor plus addend |
| Words.DividedDownStep | cbase/fmt.c:1530-1536 | one word of a division from the top keeps quotient times divisor plus remainder equal to the part done |
| Words.ShiftedRightValue | cbase/fmt.c:1399-1438 | shifting every word with bits borrowed from its neighbour divides the whole number |
| Words.LowPart | cbase/fmt.c:1440-1468 | the remainder by 2^(32 f + p) is the lowest f words and p bits of the next one |
| Decimal.DecRead | cbase/fmt.c:1542-1592 | the decimal text reads back as the number, and only zero starts with a zero |
| Decimal.DecUnique | cbase/fmt.c:1542-1592 | a digit string without a superfluous leading zero is the text of the number it denotes |
| Decimal.DecSplit | cbase/fmt.c:1564-1587 | a number of more than k digits is written as the digits of the quotient by 10^k followed by exactly k more |
| Rounding.RoundedIsNearest | cbase/fmt.c:2260-2289 | the decision from remainder class and parity picks an integer nearest to the fraction, the even one of two |
| Rounding.NearestIsUnique | cbase/fmt.c:2260-2289 | no other integer is nearest with ties to even, so the rounded number depends on the value alone |
| Rounding.RoundingIsMonotone | cbase/fmt.c:2260-2289 | rounding never passes an integer bound in either direction |
| BinaryFloat.CopySignificand | cbase/fmt.c:1190-1213 | the words denote the two halves of the significand, in normal form |
| BinaryFloat.ScaledDecimal | cbase/fmt.c:1646-1680 | the integer part of significand * 2^exponent * 10^places, and how the rest compares with one half; succeeds exactly when significand * 5^places, and its shift to the left if there is one, fit the words, and reports an overflow otherwise |
| Magnitude.DecadeExists | cbase/fmt.c:2501-2528 | every nonzero value has an exponent e with 10^e <= x < 10^(e+1) |
| Magnitude.DecadeUnique | cbase/fmt.c:2501-2528 | it has only one |
| Magnitude.CoarserRounding | cbase/fmt.c:2425-2453 | when the rounded value at a finer scale ends in zeros, the digits before them are the rounded value at the coarser scale: rounding once or after a carry is the same |
| FixedStyle.RoundInteger | cbase/fmt.c:2280-2289 | adds one exactly when ties-to-even asks for it; fails exactly when the rounded number does not fit |
| FixedStyle.FormatFixedDigits | cbase/fmt.c:2337-2385 | succeeds exactly when the text fits, and then the buffer holds the digits with the point `precision` places from the end and zeros in front of a number below one |
| FixedStyle.FixedTextReads | cbase/fmt.c:2337-2385 | that text reads as n / 10^precision with exactly `precision` digits behind the point |
| FixedStyle.GenerateFixedBody | cbase/fmt.c:2387-2423 | `%Lf`: the text reads as the integer nearest to x * 10^precision, ties to even, over 10^precision; succeeds exactly when the scaled value and the rounded integer fit the words and digits and text fit the buffer, and reports an overflow otherwise |
| FixedStyle.FixedNeverOverflows | cbase/cbase.h:109-140 | for every finite value of the three formats and every precision the executor lets through, all intermediate words and all characters fit the buffers of the header |
| FixedStyle.LargestValue | cbase/cbase.h:109-140 | 2^MAX_EXP is below 10^(MAX_10_EXP + 1), which the size of the prefix relies on |
| FixedStyle.FixedNumberBelow | cbase/cbase.h:109-140 | the rounded integer and the number of its digits stay below the sizes derived from the format |
| FixedStyle.TenBelowTwo | cbase/cbase.h:127-131 | 10^p is at most 2^((10 p + 2) / 3) for every p, the comment the word count rests on |
| ExpStyle.DecadeTells | cbase/fmt.c:2455-2499 | a value in decade e is at least 10^k exactly when k is at most e |
| ExpStyle.EstimateTells | cbase/fmt.c:2455-2499 | scaling by an estimate gives zero exactly when it was too high, several digits exactly when it was too low |
| ExpStyle.ExponentSmall | cbase/fmt.c:2455-2499 | whatever the estimate was, an exponent that is returned is the decade of the value and the estimate was negative and within 15 of it; with room for the scalings every such estimate leads to it |
| ExpStyle.SearchFinds | cbase/fmt.c:2455-2499 | a search of so many trials, one place up or down each, finds nothing but the decade, and only from a negative estimate less than that many places away; with room it finds it from every such estimate |
| ExpStyle.Exponent | cbase/fmt.c:2501-2528 | zero gives 0, a value of one or more its digit count less one, both needing no estimate; below one as above |
| SignificantDigits.RoundDigits | cbase/fmt.c:2425-2453 | the kept digits become those of n or n + 1, also through a run of nines and when all are nines |
| SignificantDigits.IncrementedAt | cbase/fmt.c:2438-2444 | a digit raised by one with the nines behind it turned to zeros is the text of n + 1 |
| SignificantDigits.HasNonzeroDigit | cbase/fmt.c:2573-2580 | true exactly when the range is not all zeros |
| SignificantDigits.RoundsUp | cbase/fmt.c:2567-2592 | cutting an integer that has too many digits: the decision from the first digit cut off, the others, the remainder below the point and the parity is the one ties-to-even makes on the value itself |
| SignificantDigits.LongIntegerRounds | cbase/fmt.c:2567-2592 | the arithmetic behind it: the kept digits are the quotient by the unit and the four tests decide like the exact remainder |
| SignificantDigits.FromInteger | cbase/fmt.c:2557-2621 | integer longer than or equal to the digits kept: exactly `count` digits and the exponent of the correctly rounded value |
| SignificantDigits.FromScaled | cbase/fmt.c:2623-2654 | integer shorter than the digits kept, or value below one: the same result through scaling and rounding once |
| SignificantDigits.PadToLength | cbase/fmt.c:2643-2647 | the loop that would insert zeros in front never runs: there are always enough digits |
| SignificantDigits.DropCarry | cbase/fmt.c:2598-2602 | a carry out of the leading digit keeps `count` digits and moves into the exponent |
| SignificantDigits.ExpDigits | cbase/fmt.c:2530-2654 | all branches give the digits and exponent of the value rounded to `count` significant digits; no failure where there is room |
| SignificantDigits.SignificantRange | cbase/fmt.c:2530-2654 | the rounded number has `count` digits or is the next power of ten |
| SignificantDigits.MantissaDigits | cbase/fmt.c:2530-2654 | in both cases its first `count` digits are the mantissa printed, with a nonzero leading digit |
| ExpText.BufferPut | cbase/fmt.c:2144-2155 | appends one character, or fails and changes nothing, exactly when the buffer is full |
| ExpText.BufferWrite | cbase/fmt.c:2157-2171 | appends all characters, or fails and changes nothing, exactly when they do not fit |
| ExpText.AppendExponent | cbase/fmt.c:2213-2258 | appends letter, sign and at least two digits; fails exactly when they do not fit |
| ExpText.FormatExpDigits | cbase/fmt.c:2656-2686 | the buffer holds leading digit, point, fraction filled with zeros, and exponent; fails exactly when they do not fit |
| ExpText.GenerateExpBody | cbase/fmt.c:2688-2729 | `%Le`: the text reads as the mantissa and exponent of the correctly rounded value; failure below one only from lack of room or an estimate off by more than 15 |
| ExpText.PrintedIsNearest | cbase/fmt.c:2530-2654 | mantissa and exponent printed denote the number nearest to the value among those with precision + 1 significant digits, ties to even, mantissa between 10^precision and 10^(precision+1), exponent the decade or one more |
| ExpText.ExpTextReads | cbase/fmt.c:2656-2686 | the text built from them reads back as that mantissa and exponent, and zero as zero with exponent 0 |
| ExpRoom.FiveBelowTwo | cbase/cbase.h:109-140 | 5^p is at most 2^((7 p + 2) / 3) for every p |
| ExpRoom.DecadeRange | cbase/cbase.h:109-140 | the decade of a finite value lies between that of the smallest subnormal and MAX_10_EXP |
| ExpRoom.WindowRoom | cbase/fmt.c:2455-2499 | every scaling the exponent search may try, up to 15 off, fits the words |
| ExpRoom.ExpNeverOverflows | cbase/cbase.h:109-140 | for every finite value and every precision let through, `%Le` has room for all words, digits and the exponent |
| GeneralStyle.ParseDecimalExponent | cbase/fmt.c:2737-2793 | returns the exponent behind the first letter; fails exactly when the text carries none that fits an int32, with EOVERFLOW exactly when the digits alone pass it |
| GeneralStyle.ParseMagnitude | cbase/fmt.c:2773-2786 | digits to the end of the text, refused exactly when there is another character or the number is beyond an int32 |
| GeneralStyle.ParsedIsPrinted | cbase/fmt.c:2737-2793 | the exponent parsed out of any exponent text is the one that was printed, and no other |
| GeneralStyle.StripTrailingZeros | cbase/fmt.c:2795-2833 | takes out exactly the zeros before the exponent letter and a point with nothing left behind it, and moves the exponent next to the rest |
| GeneralStyle.ScanBackZeros | cbase/fmt.c:2818-2821 | the scan from the right stops behind the last digit that is not zero |
| GeneralStyle.StripFixed | cbase/fmt.c:2795-2833 | stripping a fixed text keeps the number it denotes and leaves no trailing zero |
| GeneralStyle.StripExp | cbase/fmt.c:2795-2833 | stripping an exponent text keeps mantissa value and exponent and leaves no trailing zero |
| GeneralStyle.SameInteger | cbase/fmt.c:2835-2889 | the fixed style rewrite prints the very integer the exponent style printed, also when rounding carried into the next decade |
| GeneralStyle.RewriteFixed | cbase/fmt.c:2869-2882 | the rewritten text reads as that integer over the matching power of ten |
| GeneralStyle.GenerateGeneralBody | cbase/fmt.c:2835-2889 | `%Lg`: the text reads as the value rounded to the significant digits, fixed style exactly for exponents from -4 to below the digit count, without trailing zeros unless `#` |
| GeneralStyle.GeneralTextReads | cbase/fmt.c:2835-2889 | for every value: the stripped text of the style chosen reads as the rounded value, with or without `#` |
| LongDoublePrint.GeneralNeverOverflows | cbase/cbase.h:109-140 | `%Lg` has room in both styles for every finite value and every precision let through |
| LongDoublePrint.PrintLongDouble | cbase/fmt.c:3136-3173 | the three conversions with the executor's buffers: a text is returned exactly when the precision is inside the ERANGE bound and, for `%Le` and `%Lg` of a value below one, the estimate is within 15 of the decade; the text then denotes the correctly rounded value, otherwise the error is ERANGE or that of the search |
| LongDoublePrint.DecimalTextDenotes | cbase/fmt.c:3136-3173 | the one text each style has for a value denotes what the conversion asks for |
| LongDoublePrint.SearchServes | cbase/fmt.c:2455-2499 | for every finite value below one the search fails exactly when the estimate is more than 15 off |
| FloatBits.DecodedIsFinite | cbase/fmt.c:1682-1888 | whatever the bits, in any of the three formats: what decodes is a finite value with the precision of its format, significand and exponent in range |
| FloatEncoding.EncodedDecodes | cbase/fmt.c:1699-1853 | every number of each format, written down as sign, exponent field and significand, decodes to that sign, significand and exponent, subnormals and zeros included |
| FloatEncoding.DecodedEncodes | cbase/fmt.c:1699-1853 | and no other bits decode to a number, but for the x87 encodings with an exponent field of zero and the top bit of the significand set |
| FloatEncoding.SpecialBits | cbase/fmt.c:1947-1974 | an exponent field of all ones is an infinity without a fraction and no number with one |
| FloatEncoding.OneIsOne | cbase/fmt.c:1699-1853 | the bits of 1.0 decode to the value 1 in each format |
| FloatEncoding.FieldUpDoubles | cbase/fmt.c:1699-1853 | raising a nonzero exponent field by one doubles the value |
| HexStyle.HexBodyReads | cbase/fmt.c:2890-3134 | the text of `%a` reads back as mark, one digit, point, exactly the places asked for, and exponent; the digits are the nearest number with so many places, ties to even, or the value itself with zeros behind it, and without a precision the value itself with the fewest places |
| HexStyle.HexNumberIsValue | cbase/fmt.c:3096-3116 | digits and exponent together are the value: the bits that fill up the last digit are made up for by the place value; zero has no digits and the exponent 0 |
| HexStyle.TrimmedLosesNothing | cbase/fmt.c:3004-3013 | trimming drops zeros only, and leaves none at the end |
| HexStyle.HexPadReads | cbase/fmt.c:2902-2928 | the digits read back as the number modulo 16^k |
| HexStyle.HexBodyLength | cbase/fmt.c:3775-3788 | no `%a` text is longer than 11 characters and its places, or the digits of the format without a precision |
| HexPrint.TestSignificandBit | cbase/fmt.c:1153-1167 | the binary digit of the two-word significand, zero beyond it |
| HexPrint.LongDoubleDigit | cbase/fmt.c:2910-2926 | four bit tests, with zeros below the significand, give the hexadecimal digit of the number |
| HexPrint.LongDoubleDigits | cbase/fmt.c:2902-2928 | all digits behind the point, for a precision of any number of bits |
| HexPrint.DoubleDigits | cbase/fmt.c:2048-2061 | shift and mask give the 13 digits of the fraction field |
| HexPrint.HexRoundsUp | cbase/fmt.c:2944-2972 | the digit cut off, the tail and the parity of the last digit kept decide as ties-to-even does on the number |
| HexPrint.HexIncrement | cbase/fmt.c:2989-3002 | adding one in place: fs become zeros, one digit is raised, or the carry ends in the first digit |
| HexPrint.HexRound | cbase/fmt.c:2974-3002 | first digit and kept digits become those of the rounded number |
| HexPrint.TrimDigits | cbase/fmt.c:3004-3013 | the fewest digits that lose nothing |
| HexPrint.WriteHexBody | cbase/fmt.c:3015-3073 | mark, first digit, point, digits with zeros for those there are not, exponent; fails exactly when they do not fit |
| HexPrint.AppendHexExponent | cbase/fmt.c:2173-2211 | letter, sign and the digits of the exponent; fails exactly when they do not fit |
| HexPrint.PrintLongDoubleHex | cbase/fmt.c:3075-3134 | `%La`: the text of the value, or an overflow exactly when it does not fit |
| HexPrint.PrintDoubleHex | cbase/fmt.c:3263-3350 | `%a` straight from the fields of a `double`: the text of the value they decode to, subnormals and zero included |
| HexPrint.DoubleIsHex | cbase/fmt.c:3280-3300 | reading the fields directly gives the digits, the first digit and the exponent of the decoded value |
| DoublePrint.ForceDecimalPoint | cbase/fmt.c:1989-2019 | a point in front of the exponent, or at the end, unless there is one; fails exactly when there is none and no room |
| DoublePrint.UppercaseBody | cbase/fmt.c:1976-1987 | every e becomes E and nothing else changes |
| DoublePrint.GeneratePlainBody | cbase/fmt.c:3531-3560 | the printed text without its sign, with the forced point, in upper case; an overflow exactly for an empty text, one that fills the buffer, or no room for the point |
| DoublePrint.GenerateGeneralDouble | cbase/fmt.c:3453-3502 | `%g`: the exponent of the `%e` text decides, and the fixed text or that one is stripped; every error is that of its step |
| DoublePrint.GenerateDoubleBody | cbase/fmt.c:3504-3561 | each of the three styles over the two printers |
| RyuTexts.PlainBodyExponent | cbase/fmt.c:3356-3411 | dropping the sign, forcing the point and upper case leave the exponent a text carries what it was |
| RyuTexts.DoubleBodyLength | cbase/fmt.c:3769-3791 | with printers of bounded texts: how long a body can get in each style, `%g` rewritten in fixed style included, and that `%f` and `%e` never overflow the buffer |
| RyuTexts.CorrectIsBounded | cbase/fmt.c:3531-3538 | printers of correctly rounded texts keep to those bounds |
| RyuTexts.CorrectPrinters | cbase/fmt.c:3531-3538 | there are such printers, so nothing is proved from a contradiction |
| DoubleCorrect.DoubleTextIsDecimalText | cbase/fmt.c:3453-3561 | with correct printers every finite `double` gets the very text a `long double` of the same value gets, in all three styles, and none fails |
| DoubleCorrect.ExpBodyParsed | cbase/fmt.c:3356-3411 | the exponent read back from the `%e` text is the one that was printed |
| Probing.ProbeIndexIsSlot | cbase/hash.c:424-425 | the 64-bit probe expression cut to 32 bits and masked is base + i(i+1)/2 modulo the capacity |
| Probing.SlotsDiffer | cbase/hash.c:424-425 | two different steps below a capacity 2^k look at different slots |
| Probing.EachSlotExactlyOnce | cbase/hash.c:388-426 | below the capacity every slot is looked at in exactly one step |
| Probing.MaskedBase | cbase/hash.c:449-452 | only the hash modulo the capacity matters as the base |
| Tables.KeyOnPath | cbase/hash.c:380-432 | a key of the represented map is met on its probe path before any free slot |
| Tables.NotFound | cbase/hash.c:380-432 | a probe that met only other keys and then a free slot, or everything, has shown the key absent |
| Tables.NoFreeSlot | cbase/hash.c:334-360 | a full cycle without a free slot means the table is full |
| Tables.PutKeeps | cbase/hash.c:464-488 | a new key put into a reachable free or deleted slot: the table represents the extended map |
| Tables.OverwriteKeeps | cbase/hash.c:543-545 | a new value in the slot of a key: the table represents the updated map |
| Tables.RemoveKeeps | cbase/hash.c:648-685 | a tombstone in place of a key: the table represents the map without it, and everything else stays reachable |
| Tables.CountUpdate | cbase/hash.c:464-488 | how a change of one slot's state changes the numbers of used and of non-free slots |
| Tables.EmptyRepresents | cbase/hash.c:196-208 | a table of free slots represents the empty map, for every capacity 2^k |
| HashTable.Doubled | cbase/hash.c:296-311 | doubling a capacity wraps to zero in 32 bits exactly at 2^31 |
| HashTable.InitialCapacity | cbase/hash.c:218-227 | the least power of two that is at least 2 and twice the entries asked for, which are clamped to a quarter of the range |
| HashTable.EntriesOfAll | cbase/hash.c:320-361 | the entries met walking all slots are exactly the represented map |
| HashTable.FreeSlotFor | cbase/hash.c:334-360 | the rehash walk finds a free slot on the key's own path, always within the capacity |
| HashTable.PlaceEntry | cbase/hash.c:323-361 | one entry moves into the new arrays, which then represent one entry more, without tombstones |
| HashTable.Rehash | cbase/hash.c:320-361 | the new arrays represent the same map, without tombstones |
| HashTable.Grown | cbase/hash.c:295-378 | fresh arrays of twice the capacity with the same entries and exact counters |
| HashTable.Walk | cbase/hash.c:388-432 | where a probe stops and what it leaves: the key's slot, or the first tombstone, or the free slot, or nothing when every slot is used |
| HashTable.HashMap.constructor | cbase/hash.c:210-254 | an empty table of that capacity |
| HashTable.HashMap.Zero | cbase/hash.c:196-208 | the table represents the empty map and both counters are zero |
| HashTable.HashMap.Probe | cbase/hash.c:380-432 | finds a key exactly when the map has it; otherwise leaves an available slot whenever the table is not full |
| HashTable.HashMap.Resize | cbase/hash.c:295-378 | same map, twice the capacity, no tombstones; refused exactly at the largest capacity, and then nothing changes |
| HashTable.HashMap.MakeRoom | cbase/hash.c:449-452 | the 75% check: afterwards there is a free slot, unless the table is at the largest capacity and 75% occupied |
| HashTable.HashMap.Fill | cbase/hash.c:464-488 | the entry is added to the map, and length and occupied count it, tombstone reused or not |
| HashTable.HashMap.Insert | cbase/hash.c:435-489 | inserts exactly when the key is absent; a present key leaves the map alone; fails exactly when the table cannot grow any more |
| HashTable.HashMap.Overwrite | cbase/hash.c:520-571 | the map gets the value whether or not the key was there; fails exactly when the table cannot grow any more |
| HashTable.HashMap.Lookup | cbase/hash.c:594-621 | the value of the key in the map, or none |
| HashTable.HashMap.Remove | cbase/hash.c:648-685 | true exactly when the map had the key; the map loses it, the tombstone stays occupied |
| HashRuns.Perform | cbase/hash.c:196-685 | any operation answers and changes the map as it would on a finite map; it is refused exactly at the largest capacity when it is a resize, or a writer with 75% of the slots occupied, and then the map is unchanged |
| HashRuns.PerformAll | cbase/hash.c:196-685 | any sequence of insert, overwrite, lookup, remove, zero and resize: every answer and the final map are those of a plain finite map; a run that stops early stops at an operation that is refused |
| Slices.SliceIsCut | cbase/threads.c:499-511 | slices join without gap or overlap and end at the length; with no more threads than items none is empty |
| Slices.IntervalsJoin | cbase/threads.c:505-510 | the indices of adjacent slices together are those of the joined range, each once |
| Slices.ThreadCount | cbase/threads.c:421-452 | the greatest number of threads every limit allows: at most 64 and the length, and more than one only within the threads asked for and available for a range worth cutting; none exactly for an empty range |
| ThreadPoolSafety.InitialInv | cbase/threads.c:167-178 | the pool before the first call satisfies the invariant |
| ThreadPoolSafety.CallKeeps | cbase/threads.c:487-501 | entering a call and starting missing workers keeps the invariant |
| ThreadPoolSafety.EnqueueKeeps | cbase/threads.c:502-526 | pushing one slice with its signal, whoever it wakes, keeps the invariant |
| ThreadPoolSafety.RingRoom | cbase/threads.c:513-517 | the ring is never full when the caller pushes: the fatal branch is unreachable |
| ThreadPoolSafety.PushHolds | cbase/threads.c:519-523 | a push at the tail extends the queue window by the next slice, around the end of the array |
| ThreadPoolSafety.PopHolds | cbase/threads.c:398-402 | a pop at the head yields the oldest slice and leaves the rest of the window |
| ThreadPoolSafety.CheckKeeps | cbase/threads.c:528-536 | checking for pending work, sleeping or clearing the queue and leaving keeps the invariant |
| ThreadPoolSafety.TakeKeeps | cbase/threads.c:397-404 | a worker taking the front slice keeps the invariant, pending = queued + taken included |
| ThreadPoolSafety.TakeAccounts | cbase/threads.c:397-404 | what has run and what workers hold grows by exactly the indices of the slice taken |
| ThreadPoolSafety.RunKeeps | cbase/threads.c:406-408 | running a slice moves its indices from held to run and keeps the invariant |
| ThreadPoolSafety.ReportWakes | cbase/threads.c:410-416 | the worker that reports signals the sleeping caller exactly when the queue is empty and no other worker holds a slice |
| ThreadPoolSafety.ReportKeeps | cbase/threads.c:410-416 | decrementing the counter and signalling the caller at zero keeps the invariant: a sleeping caller always has work pending |
| ThreadPoolSafety.SleepKeeps | cbase/threads.c:387-390 | a worker sleeping on an empty queue keeps the invariant |
| ThreadPoolSafety.WakeWorkerKeeps | cbase/threads.c:387-390 | a spurious wakeup of a worker keeps the invariant |
| ThreadPoolSafety.WakeCallerKeeps | cbase/threads.c:528-531 | a spurious wakeup of the caller keeps the invariant |
| ThreadPoolSafety.ExitKeeps | cbase/threads.c:392-395 | a worker leaving after the stop flag keeps the invariant |
| ThreadPoolSafety.ShutdownKeeps | cbase/threads.c:368-379 | setting the stop flag and waking all workers keeps the invariant |
| ThreadPoolSafety.StepKeeps | cbase/threads.c:381-539 | every step of the caller or of any worker keeps the whole invariant |
| ThreadPoolSafety.BusyMeansPending | cbase/threads.c:406-416 | while a worker holds a slice the counter is positive and the call has not returned, so its stack frame exists |
| ThreadPoolRuns.RunKeepsInv | cbase/threads.c:381-539 | the invariant holds after every run, whatever the interleaving |
| ThreadPoolRuns.ReturnIsComplete | cbase/threads.c:528-538 | when the check lets the caller return, every index of [0, length) has run exactly once and no pointer to a slice is left in the ring or a worker |
| ThreadPoolRuns.InlineIsComplete | cbase/threads.c:487-496 | the same for an empty range and for the call that runs the function itself |
| ThreadPoolRuns.CallReturns | cbase/threads.c:475-539 | from inside a call, after any steps: still inside, or everything was run exactly once and nothing ran afterwards |
| ThreadPoolRuns.ParallelForRunsEachIndexOnce | cbase/threads.c:475-539 | a whole call under any interleaving with spurious wakeups runs each index exactly once |
| ThreadPoolRuns.NeverStuck | cbase/threads.c:381-539 | while a call or a shutdown is unfinished some thread can take a step, without any spurious wakeup |
| ThreadPoolRuns.StepCosts | cbase/threads.c:381-539 | every step inside a call lowers the measure by at least one, a spurious wakeup raises it by at most one |
| ThreadPoolRuns.RunIsBounded | cbase/threads.c:475-539 | so a run inside a call has at most the measure plus twice its spurious wakeups many steps |
| Heaps.Smallest | cbase/sort.c:64-78 | the least of a node and its children, the node itself only if it is no greater than both |
| Heaps.SiftStep | cbase/sort.c:84-89 | swapping with the least child moves the only possible violation to that child |
| Heaps.Heapify | cbase/sort.c:59-92 | restores the heap order from a node on and permutes only the first p nodes |
| Heaps.RootIsLeast | cbase/sort.c:59-92 | in a heap the root is no greater than any node |
| MergeSort.CutsInOrder | cbase/sort.c:127-138 | the runs start at 0, end at n, follow each other, and none is empty when p is at most n |
| MergeSort.NextCut | cbase/sort.c:127-138 | run k is as long as the distance between the cuts parallel_for makes, the last one longer by the remainder |
| MergeSort.SlicesAreRuns | cbase/threads.c:499-511 | the slices are all sorted exactly when the runs the merge asks for are: the two cut an array the same way |
| MergeSort.Lengths | cbase/sort.c:127-133 | the table of run lengths |
| MergeSort.Offsets | cbase/sort.c:135-138 | lengths and offsets are those of the slices |
| MergeSort.BuildHeap | cbase/sort.c:140-149 | the heap holds the first element of every run and is ordered |
| MergeSort.RootIsFront | cbase/sort.c:152-157 | the root is the next element of its run and no greater than anything left in any run |
| MergeSort.OutputStep | cbase/sort.c:156-157 | moving it to the output keeps the output sorted, not above what is left, and together with it a permutation of the array |
| MergeSort.RefilledFronts | cbase/sort.c:159-166 | the next element of the same run, or the last node when the run is used up, makes the heap hold the fronts again |
| MergeSort.Round | cbase/sort.c:152-170 | one round of the loop keeps positions, fronts and heap order |
| MergeSort.EmptyWhenDone | cbase/sort.c:152-172 | the heap is empty exactly when the output is complete |
| MergeSort.MergeRuns | cbase/sort.c:151-172 | the output is a sorted permutation of the array |
| MergeSort.MergeSubsorted | cbase/sort.c:94-176 | from sorted runs the array becomes a sorted permutation of itself, under any total preorder |
| FormatSink.Put | cbase/fmt.c:461-476 | the text only grows, by the data or a refusal, and never beyond an int32 |
| FormatSink.PutAllIsPut | cbase/fmt.c:478-594 | as long as the total does not overflow only the concatenation of the writes matters |
| FormatSink.PutAllWhole | cbase/fmt.c:478-594 | writes are refused exactly when the total passes an int32, otherwise all of them are there |
| FormatSink.HoldsMore | cbase/fmt.c:478-527 | appending as many bytes as fit, with a terminator, keeps `the first min(total, capacity - 1) bytes and a terminator` |
| FormatSink.FormatSink.Init | cbase/fmt.c:434-459 | which capacities and buffers are refused with which error; otherwise an empty text, and only the first byte is written |
| FormatSink.FormatSink.AddTotal | cbase/fmt.c:461-476 | the total counts the bytes unless it would pass an int32, which is remembered |
| FormatSink.FormatSink.Write | cbase/fmt.c:478-527 | the text grows by the data whatever the capacity, the buffer keeps what fits and a terminator, nothing behind the capacity changes; unchecked under the promise that it fits |
| FormatSink.FormatSink.WriteRepeat | cbase/fmt.c:546-594 | the same for one byte many times |
| FormatSink.FormatSink.WriteByte | cbase/fmt.c:529-533 | the same for one byte |
| FormatSink.FormatSink.Finish | cbase/fmt.c:535-544 | the length of the whole text whatever the capacity, or the overflow error |
| FormatSpec.ParseUint | cbase/fmt.c:112-137 | the number the digits denote and where they end; an error exactly without digits or beyond an int32 |
| FormatGrammar.GrammarIsExact | cbase/fmt.c:223-406 | the parser accepts a text exactly when it is flag characters, a width, a precision, a length and a conversion that takes them, and returns what these say and where they end |
| FormatGrammar.AcceptableIsTakes | cbase/fmt.c:346-411 | which conversions there are, and which flags, width, precision and length each takes |
| FormatGrammar.ParseSpec | cbase/fmt.c:223-406 | a specification that is returned stands at the cursor; an error exactly when none stands there |
| FormatGrammar.FlagsSound | cbase/README.md:281-290 | the flag characters taken are all flags, each flag is set exactly when its character is among them, and the next character is none |
| FormatGrammar.FlagsParse | cbase/README.md:281-290 | flag characters in any order and number give their flags and stop at the first other character |
| FormatGrammar.WidthSound | cbase/fmt.c:250-264 | a width taken is nothing, a star, or digits that read as it |
| FormatGrammar.WidthParses | cbase/fmt.c:250-264 | any such text is taken as that width |
| FormatGrammar.PrecisionSound | cbase/fmt.c:266-293 | a precision taken is nothing, a point and a star, or a point and digits that read as it, none at all being zero |
| FormatGrammar.PrecisionParses | cbase/fmt.c:266-293 | any such text is taken as that precision |
| FormatGrammar.LengthSound | cbase/fmt.c:295-337 | a length taken is its letters, or a w and a number of bits |
| FormatGrammar.LengthParses | cbase/fmt.c:295-337 | any such text is taken as that length |
| FormatRender.SpecParsesBack | cbase/fmt.c:223-406 | every specification, written out anywhere in a format with anything behind it, parses back to itself and ends where it was written |
| FormatRender.OnlyCanonical | cbase/fmt.c:223-406 | whatever the parser returns is a specification of that kind |
| IntegerText.IntegerDigits | cbase/fmt.c:741-796 | the digits without leading zeros in reading order, at most 64, in base 2, 8, 10 or 16 |
| IntegerText.NumberTextReads | cbase/fmt.c:741-796 | they read back as the value, and start with a zero only for zero |
| IntegerText.NumberTextLength | cbase/fmt.c:741-796 | a value below base^k has at most k of them |
| IntegerText.TakeDigit | cbase/fmt.c:741-796 | masks and shifts take the lowest digit and what remains |
| IntegerText.DigitTables | cbase/fmt.c:741-775 | the characters of the two digit tables |
| FormatInteger.PadLength | cbase/fmt.c:798-805 | fills up to the width and no further |
| FormatArguments.SignedValueIs | cbase/fmt.c:659-694 | the signed argument is the one number of its type congruent to the bits |
| FormatArguments.BitsAreNamed | cbase/fmt.c:295-337 | a length has the bits its letters or the number behind its w name |
| FormatArguments.LoadedWidth | cbase/fmt.c:605-626 | a width is literal or the next argument, a negative one meaning left-justified by its magnitude; refused exactly for the least int32 |
| FormatArguments.LoadedBoth | cbase/fmt.c:628-652 | the same with a precision, literal, missing or the next argument, a negative one meaning none; everything else of the specification stays |
| FormatArguments.LaidOutUnique | cbase/fmt.c:628-652 | the bits of the arguments allow no other layout |
| FormatInteger.PrefixSays | cbase/fmt.c:807-870 | a minus, or what the flags ask for, plus before space, for a signed number; the mark of the base with `#` for any other but zero; a single 0 in base 8 unless the digits begin with one |
| FormatInteger.FieldLength | cbase/fmt.c:872-930 | a field is as long as its content or as wide as asked |
| FormatInteger.WriteInteger | cbase/fmt.c:872-930 | the sink receives spaces, prefix, padding zeros, precision zeros, digits and spaces, in this order and these amounts |
| FormatIntegerFacts.IntegerReadsBack | cbase/fmt.c:872-930 | whatever flags, width and precision, the text stripped of padding, sign and mark reads back as the value |
| FormatIntegerFacts.SignedReadsBack | cbase/fmt.c:659-694 | in particular `%d` reads back as the argument cut to the width its length names, sign included |
| FormatIntegerFacts.UnsignedReadsBack | cbase/fmt.c:696-724 | every other integer conversion reads back, in the base its letter names, as the argument modulo 2^bits of the type its length names |
| FormatIntegerFacts.MagnitudeBound | cbase/fmt.c:3611-3649 | every magnitude of a width in bits has no more digits than the estimator's table says |
| FormatIntegerFacts.IntegerEstimateBounds | cbase/fmt.c:3587-3676 | the estimate of an integer conversion is never below what it writes, dynamic widths, precisions and prefixes included |
| FormatConversion.StrLen | cbase/fmt.c:3714-3718 | the index of the first terminator, or the end |
| FormatMeaning.CharIs | cbase/fmt.c:4016-4025 | `%c` prints the lowest byte of the argument, justified to its width |
| FormatMeaning.StringIs | cbase/fmt.c:4026-4067 | `%s` prints, justified, a prefix of the argument or of the NULL text: without a precision up to the terminator, with a literal one as long a prefix without a terminator as it allows, with `.*` exactly so many bytes |
| FormatMeaning.StringRefused | cbase/fmt.c:4026-4067 | it is refused exactly for the least int32 as width, a negative `.*`, or a positive one with a NULL pointer, and with which error |
| FormatMeaning.PointerIs | cbase/fmt.c:4068-4096 | `%p` prints 0x and the address in base 16, justified |
| FormatMeaning.IntegerIs | cbase/fmt.c:3998-4014 | the integer conversions print, justified, sign or mark, zeros and digits of the argument as the type its length names, in the base its letter names, as flags, width and precision ask, dynamic ones included |
| FormatMeaning.FloatIs | cbase/fmt.c:4103-4158 | the floating point conversions print, justified, the sign of the bits, the mark and zeros where they belong, and the body of that style, case, precision and type, six places without a precision |
| FormatMeaning.ActionShows | cbase/fmt.c:3989-4165 | whatever a conversion writes is what it is to show of its arguments, and the arguments left are those behind |
| FormatConversion.StringBounded | cbase/fmt.c:3687-3721 | the estimate of a string conversion bounds what is written, and both take the same arguments |
| FormatConversion.PointerBounded | cbase/fmt.c:3723-3731 | the same for pointers |
| FormatConversion.FloatBounded | cbase/fmt.c:3757-3809 | the same for floating point, whatever the bits of the argument, given only the bounds on the texts of the two Ryū printers |
| FormatConversion.EstimateBounds | cbase/fmt.c:3579-3814 | for every conversion and arguments the estimator accepts, the executor writes no more and takes the same arguments, given those bounds |
| FormatExecute.WritePadded | cbase/fmt.c:932-953 | spaces on the side the flags ask for, and the bytes |
| FormatExecute.WriteFloat | cbase/fmt.c:3215-3261 | spaces, sign, mark of a hexadecimal body, zeros between it and the digits, the rest, spaces |
| FormatExecute.WritePointer | cbase/fmt.c:4068-4096 | the address in base 16 behind 0x, padded with spaces |
| FormatExecute.ExecutedShows | cbase/fmt.c:3989-4165 | a conversion that succeeds has appended exactly what it is to show of its arguments |
| FormatExecute.ExecuteCount | cbase/fmt.c:955-1075 | `%n` succeeds exactly when nothing overflowed, the pointer is not NULL and the count fits the signed type of the length, overflow being found first; then exactly one count is stored, at that address, with the number of bytes so far, unless counting is off |
| FormatExecute.StoreLimitIs | cbase/fmt.c:955-1075 | the limit is the largest value of the signed type the length names |
| FormatExecute.ExecuteString | cbase/fmt.c:4026-4067 | `%s` appends its content justified to its width and takes its arguments; it is refused exactly as said above with the sink as it was, and fails otherwise exactly when the total passes an int32 |
| FormatExecute.ExecuteSpec | cbase/fmt.c:3989-4165 | every conversion that succeeds has appended what it is to show of the bits of its arguments and leaves those behind; sink, stored counts or the error are as its branch says, checked and unchecked alike |
| FormatFields.PaddedShows | cbase/fmt.c:932-953 | the field is the bytes, filled with spaces to the width on exactly the side the flag asks for |
| FormatFields.IntegerShows | cbase/fmt.c:872-930 | prefix, zeros, digits, filled with spaces on the right side; a precision gives the least number of digits, the zero flag fills the width behind the prefix only without precision and left flag |
| FormatFields.PointerReadsBack | cbase/fmt.c:4068-4096 | the text of a pointer, padding off, reads back as the address |
| FormatFields.FloatShows | cbase/fmt.c:3215-3261 | zeros stand behind the sign and the mark of a hexadecimal body and only where the flag asks for them; spaces on the right side |
| FormatFields.ZerosKeepFixed | cbase/fmt.c:3215-3261 | zeros in front of a fixed text do not change the number it denotes |
| FormatRuns.TwoBytesEach | cbase/cbase.h:412-416 | n conversions need at least 2 n bytes of format |
| FormatRooms.TableIsExact | cbase/fmt.c:3611-3649 | the estimator's table has, for every base and type, the number of digits of the largest magnitude |
| FormatRooms.EstimateIsRoom | cbase/fmt.c:3579-3814 | for every conversion the estimate is exactly the room of its kind: digits of the largest magnitude or the precision, and the mark; one character; the span, the precision or the text; eighteen for a pointer; the sizes of the header for floating point; or its width; and it fails exactly when a width, precision, length or pointer is refused |
| FormatRooms.EstimateIsSum | cbase/fmt.c:3816-3975 | segments have an estimate exactly when each conversion has room and everything fits an int32 together, and then it is the sum |
| FormatRooms.PlainFormat | cbase/fmt.c:3918-3975 | a format without a percent sign has its own length |
| FormatRuns.SegmentsPrintTheSame | cbase/fmt.c:4167-4256 | formatting from parsed segments prints, returns and stores the same as formatting from the text |
| FormatRuns.ExecutedBounded | cbase/fmt.c:3989-4165 | a conversion that was estimated adds no more than its estimate and does not overflow below it |
| FormatRuns.EstimateBoundsRun | cbase/fmt.c:3816-3916 | however a run ends, error or not, its text is no longer than the estimate and nothing overflowed |
| FormatRuns.FormatGrows | cbase/fmt.c:4167-4217 | no intermediate text is longer than the final one, which unchecked writes rely on |
| FormatRuns.SegmentsGrow | cbase/fmt.c:4219-4256 | the same for planned formatting |
| FormatPlan.PlanHasRoom | cbase/cbase.h:412-416 | a format of fewer than 128 bytes never needs more than the 63 entries of a plan |
| FormatPlan.LimitMetAtEnd | cbase/fmt.c:3852-3854 | the limit on entries is met only by a format of 127 bytes whose 63 conversions parse and which ends in one more percent sign, which does not parse either way |
| FormatPlan.FmtPlan.Add | cbase/fmt.c:3856-3875 | one more entry, standing for the literal before a conversion and the conversion |
| FormatPlan.FmtPlan.Parse | cbase/fmt.c:3839-3881 | succeeds exactly for formats that parse, and then the plan holds their segments and tail; the error is that of the first conversion that does not parse, or EOVERFLOW when 63 parsed before it |
| FormatPlan.EstimateSegments | cbase/fmt.c:3883-3911 | the sum of literals and estimates, or the first error |
| FormatPlan.EstimatePlan | cbase/fmt.c:3816-3916 | an estimate is given exactly for a format below 128 bytes that parses, whose conversions all have room and whose literals and rooms sum up to an int32, and is that sum; the plan is valid exactly then and holds the segments; which error a format that does not parse gets |
| FormatPlan.RunPlan | cbase/fmt.c:4219-4256 | prints, returns and stores what the segments of the plan say |
| FormatEntry.RunFormat | cbase/fmt.c:4167-4217 | prints, returns and stores what the format says, conversion by conversion, up to the first error |
| FormatEntry.EstimateFormat | cbase/fmt.c:3918-3975 | an estimate is given exactly for a format that parses, whose conversions all have room and whose literals and rooms sum up to an int32, and is that sum; a format without a percent sign has its own length |
| FormatEntry.EstimatesAgree | cbase/fmt.c:3816-3975 | with and without a plan the estimate is the same, and a format that can be estimated parses |
| FormatEntry.EstimateBoundsFormat | cbase/fmt.c:3918-3975 | for every format and argument list with an estimate, what is printed is no longer and does not overflow |
| FormatEntry.Vsnprintf | cbase/fmt.c:4258-4267 | result and stored counts do not depend on the capacity; the buffer holds the first min(total, capacity - 1) bytes and a terminator; bad buffers get their errors; nothing outside changes |
| FormatEntry.Vsprintf | cbase/fmt.c:4280-4317 | with more room than the estimate, unchecked writing leaves the whole text and a terminator and touches nothing behind the capacity |
| FormatEntry.VsnprintfPlanned | cbase/fmt.c:4319-4360 | into estimate + 1 bytes, planned unchecked formatting prints, returns and stores exactly what direct formatting would; an invalid plan or missing buffer is refused |
| TextLengths.FixedBodyLength | cbase/fmt.c:3769-3791 | no `%Lf` text is longer than prefix, precision and 8 |
| TextLengths.ExpBodyLength | cbase/fmt.c:3769-3791 | no `%Le` text is longer than precision and 8 |
| TextLengths.GeneralBodyLength | cbase/fmt.c:3769-3791 | no `%Lg` text is longer than its significant digits and 7 |
| FormatFloats.LongDoubleTextFits | cbase/fmt.c:3769-3791 | so every text the three conversions can produce for a `long double` fits the room the estimator allows |
| FormatFloats.FloatBodyFits | cbase/fmt.c:3757-3809 | every body fits that room: any bits, NaN and infinity included, `double` or `long double`, decimal or hexadecimal, given the bounds on the two Ryū printers |
| FormatFloats.FloatBodyReads | cbase/fmt.c:3136-3173 | with correct printers every body of a finite value reads as that value, in hexadecimal or decimal, rounded to the digits asked for |
| FormatFloats.GenerateBody | cbase/fmt.c:4111-4134 | the body the executor prints, from the bits of the argument: special words, hexadecimal, decimal, or the error, in buffers of the header's sizes; `FormatMeaning.FloatIs` says which body that is for each letter |
| FormatFloats.SpecialBody | cbase/fmt.c:2291-2318 | nan and inf in the case of the conversion, EINVAL for an encoding that stands for nothing |
| PathNormalize.Memchr | cbase/mem_literal_short.h:44-49 | the first occurrence of a byte, or the end |
| PathNormalize.MemLiteralShort | cbase/mem_literal_short.h:24-57 | the first match of a literal of 2 to 15 bytes at or behind an offset, or none |
| PathNormalize.ResumeFind | cbase/fs.c:876-877 | a search resumed where nothing before can match finds the first match of all |
| PathNormalize.ResumeAfterSlash | cbase/fs.c:876-881 | cutting one of two slashes creates no match before the last offset |
| PathNormalize.ResumeAfterDot | cbase/fs.c:895-901 | cutting a `./` behind a slash creates no match before the last offset |
| PathNormalize.CollapseSlashes | cbase/fs.c:876-881 | the first loop, in place |
| PathNormalize.DropLeading | cbase/fs.c:883-886 | the second loop, in place |
| PathNormalize.DropFinal | cbase/fs.c:888-893 | the third loop, in place |
| PathNormalize.CollapseDots | cbase/fs.c:895-901 | the fourth loop, in place, terminator included |
| PathNormalize.Normalize | cbase/fs.c:867-904 | the buffer holds the normalized path and a terminator, the length matches, nothing behind the old terminator changes, and the result is in normal form |
| PathText.WithoutDoublesIsRight | cbase/fs.c:876-881 | the first loop keeps the meaning and leaves no `//` |
| PathText.WithoutLeadingIsRight | cbase/fs.c:883-886 | the second keeps it and leaves no leading `./` unless that is the whole path |
| PathText.WithoutFinalIsRight | cbase/fs.c:888-893 | the third keeps it and leaves no final `/.` |
| PathText.WithoutDotsIsRight | cbase/fs.c:895-901 | the fourth keeps it and leaves no `/./`, and undoes nothing of the first three |
| PathText.NormalizedIsRight | cbase/fs.c:867-904 | the result is absolute exactly when the path was, has the same components other than empty and `.`, and is in normal form |
| PathText.NormalStays | cbase/fs.c:867-904 | a path in normal form is left as it is |
| PathText.Idempotent | cbase/fs.c:867-904 | normalizing twice is normalizing once |
| Arena.ArenaNode.constructor | cbase/arena.c:63-86 | a node without objects whose position is its beginning |
| Arena.Align | cbase/base_macros.h:90-116 | the least multiple of the alignment that is no smaller, for alignment 8, 16 and 32 |
| Arena.LiveObjectsApart | cbase/arena.c:140-158 | two live objects, in one node or in two, have no byte in common |
| Arena.Walk | cbase/arena.c:126-137 | the first node with room, or the last node when none has |
| Arena.Extend | cbase/arena.c:131-133 | a new empty node of the same size at the end of the chain, at the address mapped for it |
| Arena.WithSpace | cbase/arena.c:111-138 | none exactly when the size exceeds a node; otherwise a node with room, at most one node more and only when none had room, and no object touched |
| Arena.Push | cbase/arena.c:140-158 | the arena's objects grow by exactly the new aligned one, at an address that was none; fails exactly when the aligned size exceeds a node |
| Arena.ArenaOf | cbase/arena.c:245-263 | the node whose memory holds the address, or none exactly when no node does |
| Arena.Decr | cbase/arena.c:275-293 | for any address: found exactly when it lies in a node, whose count goes down and whose memory starts over at zero; the arena is in order afterwards exactly if the address was a live object or in no node, and the live objects are those before without it |
| Arena.CountDown | cbase/arena.c:275-293 | a node's memory is used from its beginning again exactly when the count reaches zero, which for a live object is when the last one went |
| Arena.Back | cbase/arena.c:160-176 | any aligned size up to the bytes used is given back; the object that ends there loses its end, and the arena is in order afterwards exactly if no live object lost more than that |
| Arena.GiveBack | cbase/command.c:1487-1489 | cmd_printf gives back what the estimate was too large by and keeps the whole text and its terminator |
| Arena.Reset | cbase/arena.c:305-322 | every node of the chain becomes empty |
| KeyArena.CopyInto | cbase/hash.c:474-475 | writing one object's bytes keeps those of every other live object |
| KeyArena.DuplicateKey | cbase/hash.c:473-475 | a duplicated key is a new object that holds the key and a terminator, and every live object keeps its bytes, also where memory is reused; none exactly when the key can never fit |
| KeyArena.KeyStays | cbase/hash.c:473-475 | a key whose object is kept still has its bytes in the arena |
| KeyArena.BytesCompare | cbase/hash.c:413-415 | comparing the length and the bytes at a key's address compares keys, so the table's keys may stand for them |
| KeyArena.AsManyObjects | cbase/hash.c:948 | there are as many live objects as keys in the map |
| DuplicatedKeys.KeyMap.constructor | cbase/hash.c:210-254 | an empty map and an empty arena of its own |
| DuplicatedKeys.KeyMap.StoreKey | cbase/hash.c:471-477 | the key gets an object to itself, every other key keeps its bytes, and the table is as it was |
| DuplicatedKeys.KeyMap.AddEntry | cbase/hash.c:464-488 | both writers' end: every key, the new one included, has its own live object with its bytes, and there are no other live objects |
| DuplicatedKeys.KeyMap.Insert | cbase/hash.c:435-489 | keeps that, and inserts exactly an absent key that fits a node, in a table that is not full at its largest capacity |
| DuplicatedKeys.KeyMap.ReplaceValue | cbase/hash.c:543-547 | a key that is there keeps its object, and only its value changes |
| DuplicatedKeys.KeyMap.Overwrite | cbase/hash.c:520-571 | keeps it too, and pushes only for a key that is not there |
| DuplicatedKeys.KeyMap.Lookup | cbase/hash.c:594-621 | the value of the key, or none |
| DuplicatedKeys.KeyMap.ReleaseKey | cbase/hash.c:673-675 | `arena_decr` is called with a live object, and releases that one alone |
| DuplicatedKeys.KeyMap.Remove | cbase/hash.c:648-685 | keeps it: the key and its object go, every other key keeps its bytes |
| DuplicatedKeys.KeyMap.Zero | cbase/hash.c:196-208 | no keys and no live objects |
| DuplicatedKeys.KeyMap.Resize | cbase/hash.c:295-378 | the keys stay where they are |
| DuplicatedRuns.Perform | cbase/hash.c:196-685 | any operation answers as on a finite map; refused exactly as without an arena, or for a new key that can never fit |
| DuplicatedRuns.PerformAll | cbase/hash.c:196-685 | after any sequence of operations every key of the map has a live object to itself that begins with its bytes and a terminator, whatever was pushed, released and used again in between, there are no other live objects, and all answers are those of a finite map |
| Strtonum.DigitValue | cbase/strtonum.c:17-29 | the value in the digit table of base 16, or -1 |
| Strtonum.RangeCheck | cbase/strtonum.c:92-94 | the truncating division test is true exactly when one more digit would pass the limit |
| Strtonum.ParseDigits | cbase/strtonum.c:84-108 | value and end of the digits, or the errors |
| Strtonum.ParseInteger | cbase/strtonum.c:34-109 | however the text is cut into spaces, sign, mark of a base, digits of that base and a rest: EINVAL exactly without digits, ERANGE exactly when the signed number they denote is outside 64 bits, otherwise that number and where its digits end |
| Strtonum.PartsExist | cbase/strtonum.c:34-109 | every text can be cut that way |
| Strtonum.PartsParse | cbase/strtonum.c:34-115 | 0b, 0o and 0x in either case mean base 2, 8 and 16 and anything else base 10; both parsers give what these parts denote |
| Strtonum.MarkedTextParses | cbase/strtonum.c:63-82 | a sign, a mark or none, and the digits of n in its base, in either case, parse to the signed n and to the end |
| Strtonum.LimitIsExact | cbase/strtonum.c:172-181 | the table of quotients and remainders decides exactly, for every base and sign |
| Strtonum.AtoiBaseSat | cbase/strtonum.c:214-265 | the number that sign, mark and digits denote, clamped to 64 bits; zero without digits |
| Strtonum.ClampedIs | cbase/strtonum.c:214-265 | what fits 64 bits stays, anything else goes to the nearer end |
| Strtonum.ParsersAgree | cbase/strtonum.c:34-265 | the two parsers agree exactly on text without a leading space and on text that denotes zero behind its spaces |
| Strtonum.LeadingSpaceDiffers | cbase/strtonum.c:47-52 | on a space followed by 7 they do not: 7 against 0 |
| Strtonum.DigitsBackwards | cbase/numtostr.c:38-49 | the do-while loop collects the digits of the magnitude last one first, int64's minimum included |
| Strtonum.ReverseBytes | cbase/numtostr.c:58-62 | reverses the first n bytes in place and no others |
| Strtonum.Itoa2 | cbase/numtostr.c:30-65 | sign, digits and a terminator for every int64 |
| Strtonum.ParseInvertsPrint | cbase/numtostr.c:30-65 | parsing what was printed gives every int64 back and reads to the end |
| Rapidhash.Mum | cbase/rapidhash.c:139-160 | the portable branch yields the exact 128-bit product |
| Rapidhash.PartialSums | cbase/rapidhash.c:145-154 | shifted partial products, what the shifts drop and the two detected carries make up the product |
| Rapidhash.CarryOut | cbase/rapidhash.c:149-153 | a 64-bit sum is below its first operand exactly when it wrapped around |
| Bits.XorBits | cbase/rapidhash.c:174-178 | exclusive or, bit by bit |
| Bits.OrBits | cbase/rapidhash.c:255-259 | inclusive or, bit by bit |
| Bits.AndBits | cbase/hash.c:424-425 | and, bit by bit |
| RapidhashBytes.Word64Carries | cbase/rapidhash.c:181-186 | byte i of an eight-byte word is byte i of the key there, the lowest first |
| RapidhashBytes.Word32Carries | cbase/rapidhash.c:187-192 | the same for four bytes |
| RapidhashBytes.ShortDetermines | cbase/rapidhash.c:277-293 | up to 16 bytes the two words gathered determine a key of known length |
| RapidhashBytes.HashFromWords | cbase/rapidhash.c:271-353 | the hash of a longer key is a function of the words that are mixed and the last two, with length, seed and secret |
| RapidhashBytes.FedDetermines | cbase/rapidhash.c:294-348 | and these words determine a key of known length, so no byte is without a part in them |
| Rapidhash.DeltaIs | cbase/rapidhash.c:283 | the masked and shifted length is the offset of the second pair of reads, for 4 to 16 bytes |
| Rapidhash.ReadSmall | cbase/rapidhash.c:255-259 | three reads, all inside, cover keys of 1 to 3 bytes |
| Rapidhash.ReadShort | cbase/rapidhash.c:280-291 | all reads are inside and cover every byte of keys up to 16; the words they give determine the key (`RapidhashBytes.ShortDetermines`) |
| Rapidhash.UnrolledBlocks | cbase/rapidhash.c:298-323 | 96 bytes at a time and then 48 gives what 48 at a time gives, with the same bytes read |
| Rapidhash.CompactBlocks | cbase/rapidhash.c:325-334 | the do-while loop gives it too |
| Rapidhash.ReadTail | cbase/rapidhash.c:338-347 | the last reads are inside and complete the bytes read |
| Rapidhash.RapidhashUnrolled | cbase/rapidhash.c:271-353 | the unrolled variant computes the hash and reads exactly the bytes of the key, all of which reach the words that are mixed (`RapidhashBytes.FedDetermines`) |
| Rapidhash.RapidhashCompact | cbase/rapidhash.c:271-353 | the compact variant computes the same hash for every length and reads exactly the same bytes |
| Rapidhash.Rapidhash128 | cbase/rapidhash.c:365-426 | its low word is the 64-bit hash; the high word is the other one of the final pair |
| Calendar.EraIsFloor | cbase/fmt.c:4690-4696 | the two divisions give the 400-year era for negative years too |
| Calendar.MarchYearLength | cbase/fmt.c:4697-4705 | a year counted from March is as long as the leap rule says |
| Calendar.UnixEpoch | cbase/fmt.c:4690-4705 | 1970-01-01 is day 0 |
| Calendar.DayAfterDay | cbase/fmt.c:4690-4705 | from each day to the next the count rises by exactly one, for every year |
| Calendar.YearAfterYear | cbase/fmt.c:4427-4434 | from January 1 to January 1 it rises by the days the leap rule gives the year |
| Calendar.IsoWeekIsThursdays | cbase/fmt.c:4436-4459 | the week belongs to the year of its Thursday and counts the Thursdays of that year |
| Calendar.SameWeek | cbase/fmt.c:4436-4459 | all seven days from Monday to Sunday get the same year and number, across year ends |
| Calendar.NextWeek | cbase/fmt.c:4436-4459 | a week later the number is one more or it is week 1 of the next year |
| Calendar.WeekRange | cbase/fmt.c:4436-4459 | the number stays between 1 and 53 |
| Calendar.FourthOfJanuary | cbase/fmt.c:4436-4459 | January 4 always lies in week 1 of its own year |

## Left out

- The Ryū routines: `d2fixed_buffered_n` and `d2exp_buffered_n` are two arbitrary functions of the bits and the precision, bounded in length by `RyuTexts.RyuBounded` where room matters. They are taken to return their text, which the model copies once it is known to fit; the code lets them write first and checks afterwards.
- `isnan`, `isinf` and `signbit` are read off the bits; an x87 encoding whose integer bit contradicts its exponent is refused like the decoder does, whatever a compiler's `isnan` makes of it.
- Byte order and padding of `long double`: its bits are one number. The branch without `long double` support is not modelled.
- `log10l`: an arbitrary integer estimate.
- Exponents, widths and lengths are unbounded integers where the code checks or asserts that they fit; where a 32-bit or 64-bit width matters (words, masks, probe indices, totals, capacities, argument casts) it is written out.
- `va_list`: arguments are a sequence of tagged values; one of the wrong kind reads as zero, and an exact span longer than the string's memory is cut, where the code has undefined behaviour.
- The asserted sizes are preconditions: strings shorter than INT32_MAX, formats shorter than 256 bytes, at least as many items as runs in the merge.
- NULL format, plan and map pointers, debugging checks, poisoned memory and the abort behind a wrong estimate.
- `fmt_estimate_spec` as a method: it only reads the arguments, so it is the function `FormatConversion.EstimateOf`, used by the methods that sum estimates.
- Fatal errors end a model run with an outcome (`TooBig`, `TableFull`, `KeyTooLong`, `false`, `Fatal`) instead of ending the process.
- The hash function of the map is an arbitrary function of the key; hash sets, iteration, printing, unmapping, names and the fixed-length key variant, which compares keys without hashes, are not modelled. The base index handed to the `pre_calc` variants is the masked hash.
- Thread creation failures, nested or concurrent callers of `parallel_for`, its returned thread count, the Windows branch, and the lock itself: each critical section is one step.
- The heap node of the merge holds the element instead of a pointer to it, and the object size in bytes is not modelled.
- The arena takes the address of a newly mapped node as a parameter; runs of the map with duplicated keys take one address for each operation, apart from each other and from the nodes there are. The alignment is one of the header's three. Objects of size zero, `arena_push_index32` and lists of arenas are not modelled.
- The bucket of a duplicated key holds the key beside its address; the invariant and `KeyArena.BytesCompare` say that the bytes at the address are that key, which is what the code compares. A removed slot's key and length are not cleared.
- `basename2` and `dirname2`, file system calls, processes, pipes, directories, and everything under `src/`.
- `atoi2` and the variants that do not saturate, which have no defined result outside the range.
- The protected variant and the big-endian reads of rapidhash; the secret is a parameter. The wide-integer and compiler-intrinsic branches of `rapid_mum` are not modelled beside the portable one.
- `strftime` beyond the day count of `%s` and the ISO week: text conversions, seconds and time zone offset.
- FormatConversion.EstimateBounds: requires the stated bounds on the texts of the two Ryū printers (`RyuTexts.RyuBounded`).
- FormatConversion.FloatBounded: requires the same bounds.
- FormatRuns.ExecutedBounded: requires the same bounds.
- FormatRuns.EstimateBoundsRun: requires the same bounds.
- FormatEntry.EstimateBoundsFormat: requires the same bounds.
- FormatEntry.Vsprintf: requires the same bounds, and more room than the estimate, which the code only checks when debugging.
- FormatEntry.VsnprintfPlanned: requires the same bounds, that the estimate was taken for the same arguments, and that it is below the capacity, as the unchecked route does.
- MergeSort.MergeSubsorted: asks for at most 64 runs and no more runs than elements, as the code asserts, and for a total preorder.
- String builders, dynamic arrays, the allocator's canaries, `hash_expected_collisions`, ASCII tables and clamping: only easy members.
