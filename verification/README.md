# Verified models of spdlog, its bundled fmt, iguana and the engine mailbox

A Dafny project that models the algorithms of this repository that are hard to get right and proves what they are
for. `dafny verify dfyconfig.toml` checks all of it.

The parts, by subject:

* **Exact decimal conversion** (`Limbs`, `Bigints`, `Squaring`, `Accumulators`, `Decimal`, `FixedMode`,
  `ShortestMode`, `FallbackFormat`, `RoundingInterval`). `bigint` is a class whose little-endian bigits and exponent
  are changed in place; its value is the sum of bigits[i]·2^(32·(i + exp)), and each method is proved against integer
  arithmetic on that value. On top of it, the digits of `fallback_format` are proved right: correctly rounded with a
  given number of digits, and shortest without one.
* **The fast path** (`Grisu`, `FastPath`, `CachedPowers`, `FormatFloat`, `DigitLimit`). Whenever the digit generation on
  64-bit words does not give up, its digits are the ones that the exact algorithm would produce; both together round
  every value correctly, at a place that is stated for every precision.
* **Word arithmetic** (`WordProducts`, `TrailingZeros`). Products by halves, divisibility by modular inverses, and
  removing trailing zeros, for every word.
* **The asynchronous logger** (`CircularQueue`, `BlockingQueue`, `Totals`, `ThreadPool`, `NoLostWakeup`,
  `Conservation`, `Postings`, `Shutdown`, `ShutdownEnds`). The ring buffer and the critical sections are classes; the
  threads are a state machine whose steps are a critical section, a notification after the unlock, a timeout, a
  spurious wake-up, the handling of a message, and the start of the destructor.
* **The actor mailbox** (`Mailbox`): the class, and every interleaving of pushers with one puller.
* **XML** (`Scanning`, `Xml`, `XmlReaders`, `XmlRoundTrip`, `XmlNames`, `XmlLayout`): printer, cursor-based reader, for
  which values and which names they are inverse, and reading text that is laid out with blanks and line breaks.
* **JSON strings** (`StringStreams`, `JsonStrings`): the growing buffer, the escaper, and a decoder for section 7 of
  RFC 8259 to read its output.
* **Rotating files** (`FileNames`, `Rotation`, `RotationHistory`): a file system is a map from names to contents, and
  whether it lets a file be deleted or renamed is open.
* **Log patterns** (`LogFields`, `FieldTexts`, `Patterns`, `PatternMeaning`, `PatternTimes`, `PatternPadding`,
  `PatternFormatters`): compiling, time caches, the padder, a direct interpreter as the meaning, and what every field
  says.

## Where the code does less than it promises

Each of these is stated by a lemma below, with the exact condition where one exists.

* `compare` reports equal bigints as different when one continues the other with zero bigits only
  (`Bigints.CompareIsOrder`), and a zero with a large exponent as larger (`Bigints.CompareOvershoots`). The digit
  generators never ask the former where it would matter, except at the closed lower end of the shortest mode: there a
  shorter decimal can be missed (`RoundingInterval.LowEndMissed`).
* The borrow loop of `subtract_aligned` does not advance; it is right as long as the quotient is below 2^31
  (`Bigints.NoLeftover`).
* Asked for no digits without fixed notation, `format_float` rounds one place too high where the fast generator gives up:
  2.5 comes out as 0 and 7.5 as 10 (`FormatFloat.FormatFloat`, `FormatFloat.TwoAndAHalf`,
  `FormatFloat.SevenAndAHalf`).
* The limit of 767 digits counts decimals in fixed notation and costs small values some of them
  (`DigitLimit.LimitHarmlessIff`).
* A thread pool over a queue of capacity 0 is never joined (`ShutdownEnds.ZeroCapacityNeverJoins`).
* A schema in which some name starts with an underscore is never read back completely (`XmlNames.RestoredIffNamed`):
  such a member is not found at its own tag but at the tag of a name with one more character, as `_nam` at `<_name>`,
  and its closing tag is not found anywhere (`XmlNames.UnderscoreFoundAt`). The first such member keeps its initial
  value (`XmlNames.FirstMemberLost`). The reader also drops leading blanks of strings.
* The tag of an empty element, as `<a/>`, is taken for an opening tag (`XmlRoundTrip.SelfClosingIsNormal`): the check
  for a slash looks at the closing bracket.
* The escaper merges a control byte without a short escape with the byte behind it (`JsonStrings.EscapedIsJson`).
* A failed rename while rotating empties the base file, and the sink keeps running (`Rotation.RotatingSink.Rotate`).
* The pattern formatter shows a first message of second 0 with a zeroed time (`PatternTimes.RightForEveryPattern`).
* `%D` and `%x` announce ten characters and write eight (`PatternPadding.ShortDateMisses`), so that truncating them
  takes characters that are not theirs, or more than there are (`PatternPadding.TruncatedShortDateFails`). `%c`
  announces 24 and writes 23 on one-digit days outside September and 25 on two-digit days in it
  (`LogFields.DateAndTimeInFourDigitYears`, `PatternPadding.DateAndTimeMisses`). `%E`, `%Y` and `%C` announce ten, four
  and two characters whatever the number (`LogFields.MessageFieldsHonest`, `LogFields.TimeFieldsHonest`).
* `%I` writes 00 in the hour after midnight (`LogFields.TwelveHourClock`).
* The comment on `%r` (pattern_formatter-inl.h:527) shows lower-case "pm"; the code writes "PM", and the model follows it.

## Model

| member | source | states |
|---|---|---|
| `FallbackFormat.Format` | include/spdlog/fmt/bundled/format-inl.h:2309-2427 | For every significand, binary exponent and starting decimal exponent with value < 10: with a number of digits, the digits are the value rounded half to even at that place, including no digits at all and the carry of a run of nines into the exponent; without one, they are in the rounding interval, closest to the value, and no shorter decimal is in the interval |
| `FallbackFormat.Prepare` | include/spdlog/fmt/bundled/format-inl.h:2322-2362 | All three ways of setting up numerator, denominator and boundaries give the value, the doubled or quadrupled scale and the two half-gaps, in the normal form in which every later comparison is exact |
| `FallbackFormat.PrepareIntegral` | include/spdlog/fmt/bundled/format-inl.h:2329-2340 | Nonnegative binary exponent: numerator f·2^e, denominator 10^exp10 with the common shift, lower half-gap 2^e |
| `FallbackFormat.PrepareSmall` | include/spdlog/fmt/bundled/format-inl.h:2341-2351 | Both exponents negative: numerator and half-gap carry the power of ten, denominator is a power of two |
| `FallbackFormat.PrepareFraction` | include/spdlog/fmt/bundled/format-inl.h:2352-2361 | Negative binary and nonnegative decimal exponent: half-gap 1, all powers in the denominator |
| `FallbackFormat.LargeNeverReaches` | include/spdlog/fmt/bundled/format-inl.h:2329-2340 | With a binary exponent of 32 or more the remainder scaled by any power of ten never equals the denominator, so the comparison that would hide that equality is never asked |
| `FixedMode.FixedDigits` | include/spdlog/fmt/bundled/format-inl.h:2393-2427 | Digits times the place value equal numerator over denominator rounded half to even at that place |
| `FixedMode.LeadingDigits` | include/spdlog/fmt/bundled/format-inl.h:2402-2406 | All digits but the last: an exact long division, numerator below ten denominators at every turn |
| `FixedMode.LastDigit` | include/spdlog/fmt/bundled/format-inl.h:2407-2426 | The last digit is rounded half to even; a carry through all nines leaves 1 and zeros and one more power of ten |
| `FixedMode.NoDigits` | include/spdlog/fmt/bundled/format-inl.h:2395-2400 | No digits wanted: 1 or 0 as the value rounds half to even to a multiple of the next power of ten |
| `FixedMode.NextDigit` | include/spdlog/fmt/bundled/format-inl.h:2403-2403 | Every quotient digit is 0 to 9, the division is exact, its preconditions hold and are kept |
| `Decimal.PropagateCarry` | include/spdlog/fmt/bundled/format-inl.h:2410-2423 | The carry chain keeps the number written, up to the factor ten that it reports |
| `Decimal.RoundHalfEvenIsNearest` | include/spdlog/fmt/bundled/format-inl.h:2407-2409 | The rounding used as specification is the nearest integer, the even one at a tie, and only that |
| `ShortestMode.ShortestDigits` | include/spdlog/fmt/bundled/format-inl.h:2363-2392 | The loop ends; the decimal lies in the interval, no other with as many digits is closer, none with fewer digits lies in it |
| `ShortestMode.Step` | include/spdlog/fmt/bundled/format-inl.h:2370-2390 | One turn: either the digit written so far completes a best decimal, or no decimal of this length fits and the scaled problem is as before |
| `ShortestMode.StopFacts` | include/spdlog/fmt/bundled/format-inl.h:2375-2387 | Where the loop stops, rounding the last digit up never passes 9 and picks the closest fitting decimal |
| `ShortestMode.GoOnFacts` | include/spdlog/fmt/bundled/format-inl.h:2388-2390 | Where it goes on, no decimal of this length fits, and none does on the tenfold scale |
| `ShortestMode.ChoiceIsBest` | include/spdlog/fmt/bundled/format-inl.h:2375-2387 | The choice by the two interval tests fits the interval and is closest |
| `ShortestMode.ClearOfMultiples` | include/spdlog/fmt/bundled/format-inl.h:2371-2375 | If neither interval test succeeds, no multiple of the denominator lies in the interval |
| `ShortestMode.Tests` | include/spdlog/fmt/bundled/format-inl.h:2371-2373 | The two big-integer tests decide the interval tests, with the lower end included only if the half-gap is stored with no larger exponent than the denominator |
| `RoundingInterval.ShortestUnlessLowEndHit` | include/spdlog/fmt/bundled/format-inl.h:2366-2392 | Against the interval closed at both ends for an even significand, the result is shortest unless the significand is even, the half-gap is stored above the denominator, and for some length the lower end is the only decimal of that length in the interval; then, and only then, it is not |
| `RoundingInterval.LowEndMissed` | include/spdlog/fmt/bundled/format-inl.h:2371-2371 | A double, 4882812514648438 times 2^32, for which a shorter decimal on the closed lower end is missed |
| `RoundingInterval.ClosingLowEnd` | include/spdlog/fmt/bundled/format-inl.h:2371-2371 | Including the lower end adds that point and nothing else |
| `Bigints.Bigint.AssignPow10` | include/spdlog/fmt/bundled/format-inl.h:1396-1414 | The result is 10^exp, normal, by scanning the bits of exp |
| `Bigints.Bigint.AssignPow5` | include/spdlog/fmt/bundled/format-inl.h:1399-1412 | Square-and-multiply gives 5^exp |
| `Bigints.Bigint.Square` | include/spdlog/fmt/bundled/format-inl.h:1416-1444 | The result is the exact square, the exponent doubles, the carry ends as zero |
| `Squaring.ColumnsAreSquare` | include/spdlog/fmt/bundled/format-inl.h:1423-1440 | The columns of cross products, weighted by their places, add up to the square |
| `Bigints.SumLowColumn` | include/spdlog/fmt/bundled/format-inl.h:1423-1431 | The lower columns are summed without overflow of 128 bits |
| `Bigints.SumHighColumn` | include/spdlog/fmt/bundled/format-inl.h:1434-1440 | The upper columns are summed without overflow of 128 bits |
| `Bigints.Bigint.DivmodAssign` | include/spdlog/fmt/bundled/format-inl.h:1459-1472 | Quotient and remainder of Euclidean division; exactly where comparing hides an equality does it answer 0 and change nothing |
| `Bigints.Bigint.SubtractRepeatedly` | include/spdlog/fmt/bundled/format-inl.h:1466-1471 | The subtraction loop ends with the remainder below the divisor and counts the quotient |
| `Bigints.Bigint.SubtractAligned` | include/spdlog/fmt/bundled/format-inl.h:1267-1277 | The exact effect of the subtraction, including the wrong term that the standing borrow loop leaves when it meets a zero bigit |
| `Bigints.NoLeftover` | include/spdlog/fmt/bundled/format-inl.h:1268-1277 | With a quotient below 2^31 that wrong term is zero: the subtraction is exact |
| `Bigints.Bigint.SubtractBits` | include/spdlog/fmt/bundled/format-inl.h:1255-1259 | One bigit with borrow in and out |
| `Bigints.Bigint.AbsorbBorrow` | include/spdlog/fmt/bundled/format-inl.h:1275-1275 | What the borrow loop does to the one bigit that it stays at |
| `Bigints.Bigint.RemoveLeadingZeros` | include/spdlog/fmt/bundled/format-inl.h:1261-1265 | Only zero bigits go, the value stays, one bigit remains |
| `Bigints.Bigint.Align` | include/spdlog/fmt/bundled/format-inl.h:1446-1457 | The value stays and the exponent becomes the smaller of the two |
| `Bigints.Bigint.Multiply32` | include/spdlog/fmt/bundled/format-inl.h:1279-1288 | The value times the word, exactly, for every length |
| `Bigints.Bigint.Multiply64` | include/spdlog/fmt/bundled/format-inl.h:1290-1305 | The value times the double word, exactly, no intermediate result beyond 64 bits |
| `Bigints.Bigint.ShiftLeft` | include/spdlog/fmt/bundled/format-inl.h:1335-1348 | The value times 2^shift, exactly |
| `Bigints.Bigint.AssignWord` | include/spdlog/fmt/bundled/format-inl.h:1323-1331 | Any 64-bit value in one or two bigits |
| `Bigints.Bigint.Assign` | include/spdlog/fmt/bundled/format-inl.h:1315-1321 | A copy of bigits and exponent |
| `Bigints.Compare` | include/spdlog/fmt/bundled/format-inl.h:1356-1370 | The loop computes the comparison whose meaning the following rows state |
| `Bigints.CompareIsOrder` | include/spdlog/fmt/bundled/format-inl.h:1356-1370 | For normal numbers the result is the order of the values if and only if neither number continues the other with zero bigits only |
| `Bigints.CompareBelow` | include/spdlog/fmt/bundled/format-inl.h:1356-1370 | Below is decided rightly if and only if the case of trailing zeros does not apply; always if the left exponent is no larger |
| `Bigints.CompareOvershoots` | include/spdlog/fmt/bundled/format-inl.h:1358-1359 | A zero stored with a large exponent compares above everything shorter, though it is less |
| `Bigints.AddCompare` | include/spdlog/fmt/bundled/format-inl.h:1372-1394 | The sign of lhs1 + lhs2 - rhs for any mix of exponents, early exits included; a zero stored too high is the only exception |
| `Limbs.MagnitudeDigitsUnique` | include/spdlog/fmt/bundled/format-inl.h:1238-1248 | A value has one digit at each place, whatever exponent it is stored with |
| `Limbs.TopMonotone` | include/spdlog/fmt/bundled/format-inl.h:1333-1333 | More bigits and a nonzero top mean a larger value |
| `Accumulators.Accumulator.Add` | include/spdlog/fmt/bundled/format-inl.h:1226-1229 | Addition modulo 2^128, exact while the sum fits |
| `Accumulators.Accumulator.ShiftRight32` | include/spdlog/fmt/bundled/format-inl.h:1230-1235 | Division by 2^32 |
| `Accumulators.Accumulator.Word` | include/spdlog/fmt/bundled/format-inl.h:1224-1224 | The lowest 32 bits |
| `Grisu.GenDigits` | include/spdlog/fmt/bundled/format-inl.h:1505-1586 | For 32 to 60 fraction bits: no product or shift overflows, the loop ends, and digits that are not an error are the rounding, at the place reached, of every value within one unit of the given one; an error means that no rounding there is certain, or that the number is just above a shorter decimal |
| `Grisu.GetRoundDirection` | include/spdlog/fmt/bundled/format-inl.h:1481-1495 | Down and up are answered exactly when every value within the error rounds that way |
| `Grisu.FixedHandler.OnStart` | include/spdlog/fmt/bundled/format-inl.h:1596-1611 | The number of digits becomes relative to the leading place; zero digits are answered by rounding alone or given up |
| `Grisu.FixedHandler.OnDigit` | include/spdlog/fmt/bundled/format-inl.h:1613-1643 | More digits while fewer than wanted, a final buffer whose value is the rounding of everything within the error, or an error because there is no such rounding or the remainder drowns in the error |
| `Grisu.FixedHandler.RoundUpLast` | include/spdlog/fmt/bundled/format-inl.h:1630-1641 | One unit more, the carry chain included; a carry out of the front goes into a further zero or the exponent |
| `Grisu.IntegralDigits` | include/spdlog/fmt/bundled/format-inl.h:1526-1575 | Up to ten integral digits; the split of the value into digits and rest is kept |
| `Grisu.FractionDigits` | include/spdlog/fmt/bundled/format-inl.h:1577-1585 | The fractional loop ends because the error grows tenfold below a bounded remainder |
| `Grisu.CountDigits` | include/spdlog/fmt/bundled/format.h:928-941 | The number of decimal digits, by groups of four |
| `FastPath.DigitsAreRounded` | include/spdlog/fmt/bundled/format-inl.h:1505-1644 | Whenever the scaled value is within the error of an exact fraction, the digits are that fraction rounded half to even |
| `FastPath.FastAgreesWithExact` | include/spdlog/fmt/bundled/format-inl.h:1505-1644 | On input within one unit of the scaled value, the fast path answers what the exact one would from any start that leads to the same decimal place |
| `FormatFloat.FormatFloat` | include/spdlog/fmt/bundled/format-inl.h:2459-2489 | For every positive value and precision: digits and exponent are the value rounded half to even, at the wanted place with fixed notation (at most 767 decimals), else to the wanted number of digits; asked for none without fixed notation, they are the value rounded to one digit if and only if the fast generator is certain of that digit or it rounds up to ten, and otherwise the value rounded one place higher; with fixed notation there are as many digits as reach from the value to that place, one more if rounding made one more, and with showpoint as many as asked for; with neither, zeros at the end move into the exponent |
| `FormatFloat.FormatWith` | include/spdlog/fmt/bundled/format-inl.h:2461-2489 | The same once the cached power is found |
| `FormatFloat.DropZeros` | include/spdlog/fmt/bundled/format-inl.h:2480-2488 | Zeros at the end move into the exponent without changing the number |
| `FormatFloat.Generate` | include/spdlog/fmt/bundled/format-inl.h:2461-2479 | Digits and exponent before zeros at the end are dropped, rounded at a place and as many in number as is stated for every precision, whichever generator answers |
| `FormatFloat.FastDigits` | include/spdlog/fmt/bundled/format-inl.h:2472-2479 | The fast attempt: correct digits in the wanted number, or a start from which the exact generator reaches the place; asked for no digits without fixed notation it gives up exactly on numbers in the middle between two digits |
| `FormatFloat.UndecidedIffHalfway` | include/spdlog/fmt/bundled/format-inl.h:1481-1495 | No rounding is certain exactly if the remainder is within one of half the unit |
| `FormatFloat.OneDigitTooHigh` | include/spdlog/fmt/bundled/format-inl.h:2473-2475 | Rounded one place above its first digit, a number is right to one digit only if that digit rounds up to ten |
| `FormatFloat.TwoAndAHalf` | include/spdlog/fmt/bundled/format-inl.h:2472-2475 | 2.5 is such a number in the middle: asked for no digits the result is 0 in place of 2 |
| `FormatFloat.SevenAndAHalf` | include/spdlog/fmt/bundled/format-inl.h:2472-2475 | So is 7.5: the result is 10 in place of 8 |
| `FormatFloat.HalvesRounded` | include/spdlog/fmt/bundled/format-inl.h:2472-2475 | The roundings of 2.5, 7.5 and 9.5 to one digit and to the place above; for 9.5 both give ten |
| `CachedPowers.IndexInRange` | include/spdlog/fmt/bundled/format-inl.h:1199-1212 | For every exponent of a double the index is in the table and its power within 28 binary places of the wanted one |
| `CachedPowers.TableIsNormalized` | include/spdlog/fmt/bundled/format-inl.h:315-326 | Every entry is the binary exponent that leaves 10^k a significand of 64 bits |
| `CachedPowers.GetCachedPower` | include/spdlog/fmt/bundled/format-inl.h:1197-1215 | The binary and decimal exponents from the table |
| `DigitLimit.LimitHarmlessIff` | include/spdlog/fmt/bundled/format-inl.h:2468-2471 | For a value in lowest terms with all its decimals wanted, the limit of 767 costs none if and only if the binary exponent is at least -767 |
| `DigitLimit.LimitHarmless` | include/spdlog/fmt/bundled/format-inl.h:2468-2471 | From that exponent on it never does |
| `FormatFloat.ProductWithinOneUnit` | include/spdlog/fmt/bundled/format-inl.h:2464-2467 | Half a unit of error in the cached power and half a unit of rounding leave the product within one unit of the scaled value |
| `FormatFloat.FallbackStarts` | include/spdlog/fmt/bundled/format-inl.h:2473-2475 | The exponent handed to the exact generator makes the value less than ten units, as that requires |
| `FormatFloat.ZeroDropped` | include/spdlog/fmt/bundled/format-inl.h:2480-2488 | Dropping a zero and raising the exponent keeps the number |
| `WordProducts.Umul128` | include/spdlog/fmt/bundled/format-inl.h:1648-1675 | Both words of the exact 128-bit product from four 32-bit products |
| `WordProducts.MultiplyRounded` | include/spdlog/fmt/bundled/format-inl.h:1177-1193 | The product divided by 2^64, rounded half up |
| `WordProducts.RoundedFromWords` | include/spdlog/fmt/bundled/format-inl.h:1179-1182 | The branch with a native 128-bit type gives the same |
| `WordProducts.ModularDivision` | include/spdlog/fmt/bundled/format-inl.h:1771-1781 | For every divisor with an inverse: the bound test decides divisibility and the product is then the quotient |
| `WordProducts.TableIsRight32` | include/spdlog/fmt/bundled/format-inl.h:328-335 | Every entry is the inverse of a power of five and its largest quotient |
| `WordProducts.TableIsRight64` | include/spdlog/fmt/bundled/format-inl.h:337-362 | Every entry is the inverse of a power of five and its largest quotient |
| `WordProducts.DivisibleByPowerOf5Word` | include/spdlog/fmt/bundled/format-inl.h:1772-1776 | Answers divisibility by 5^exp for every 32-bit number |
| `WordProducts.DivisibleByPowerOf5` | include/spdlog/fmt/bundled/format-inl.h:1777-1781 | Answers divisibility by 5^exp for every 64-bit number |
| `TrailingZeros.RemoveTrailingZeros32` | include/spdlog/fmt/bundled/format-inl.h:2012-2038 | n = n'·10^s for every positive word, with s maximal up to the bound of 7 |
| `TrailingZeros.RemoveTrailingZeros64` | include/spdlog/fmt/bundled/format-inl.h:2040-2123 | n = n'·10^s with s maximal, for every positive number up to (2^64-1)/1000; the bound of 16 never binds |
| `TrailingZeros.TryDivide` | include/spdlog/fmt/bundled/format-inl.h:2029-2034 | The bound test decides divisibility, and the product is the quotient |
| `TrailingZeros.TryDivideBy5To8` | include/spdlog/fmt/bundled/format-inl.h:2060-2062 | The same for 5^8 in 64 bits |
| `TrailingZeros.FromQuotient` | include/spdlog/fmt/bundled/format-inl.h:2059-2074 | A multiple of 10^8: goes on with the quotient until no zero is left |
| `TrailingZeros.FromRemainder` | include/spdlog/fmt/bundled/format-inl.h:2076-2122 | Otherwise: the zeros of the remainder, put back under the quotient |
| `CircularQueue.CircularQ.PushBack` | include/spdlog/details/circular_q.h:48-62 | A bounded sequence that drops its oldest item when full, and counts the drop |
| `CircularQueue.CircularQ.PopFront` | include/spdlog/details/circular_q.h:97-102 | The oldest item leaves |
| `CircularQueue.CircularQ.Front` | include/spdlog/details/circular_q.h:64-74 | The oldest item |
| `CircularQueue.CircularQ.At` | include/spdlog/details/circular_q.h:89-95 | The i-th item in order of age |
| `CircularQueue.CircularQ.Size` | include/spdlog/details/circular_q.h:76-87 | The number of stored items, always below the number of cells |
| `CircularQueue.CircularQ.Empty` | include/spdlog/details/circular_q.h:104-107 | Whether nothing is stored |
| `CircularQueue.CircularQ.Full` | include/spdlog/details/circular_q.h:109-117 | Whether as much is stored as was asked for |
| `CircularQueue.CircularQ.MoveFrom` | include/spdlog/details/circular_q.h:124-138 | Contents and counter move; the source becomes the disabled empty queue |
| `CircularQueue.CircularQ.constructor` | include/spdlog/details/circular_q.h:27-30 | Room for as many items as asked for and one spare cell |
| `CircularQueue.SegmentPush` | include/spdlog/details/circular_q.h:53-60 | The ring arithmetic of a push, wrap-around included: the full case drops the first item |
| `BlockingQueue.MpmcBlockingQueue.TryEnqueue` | include/spdlog/details/mpmc_blocking_q.h:35-37 | Under the mutex: stores only if there is room, so nothing is ever dropped |
| `BlockingQueue.MpmcBlockingQueue.EnqueueNowait` | include/spdlog/details/mpmc_blocking_q.h:46-47 | Under the mutex: stores always, dropping the oldest item if need be |
| `BlockingQueue.MpmcBlockingQueue.TryDequeue` | include/spdlog/details/mpmc_blocking_q.h:57-63 | Under the mutex: the oldest item, if any |
| `NoLostWakeup.NoLostWakeups` | include/spdlog/details/mpmc_blocking_q.h:31-67 | In every interleaving, with barging, spurious wake-ups, timeouts and notifications after the unlock: a waiting consumer has every stored item covered by a pending notification or a woken consumer, and a parked producer every free slot |
| `NoLostWakeup.CoveredKept` | include/spdlog/details/mpmc_blocking_q.h:31-67 | Every step keeps that cover |
| `Conservation.RunsConserve` | include/spdlog/details/mpmc_blocking_q.h:31-67 | From the start of the pool, in every interleaving: what was accepted left in the same order or is stored, every message taken was processed or is in hand, and the overrun counter is the number of dropped messages |
| `Conservation.CountedAlways` | include/spdlog/details/circular_q.h:56-60 | The overrun counter stays equal to the drops |
| `Conservation.LedgerAlways` | include/spdlog/details/mpmc_blocking_q.h:31-67 | In every interleaving: what was accepted left in the same order or is still stored, and every message taken was processed once or is in one worker's hands |
| `Conservation.DropsBounded` | include/spdlog/details/mpmc_blocking_q.h:42-50 | In every run at most as many messages are dropped as were posted with the overrun policy; blocking posts drop nothing |
| `Conservation.DropsArePaid` | include/spdlog/details/mpmc_blocking_q.h:31-50 | Each dropped message belongs to one post with the overrun policy |
| `Postings.PostsInOrder` | include/spdlog/details/mpmc_blocking_q.h:31-50 | In every interleaving: what the queue took from a producer, and then what that producer still has to post, are its posts in their order, so that none is lost, doubled or overtaken |
| `Postings.PostsConserved` | include/spdlog/details/mpmc_blocking_q.h:31-50 | In every interleaving each message is accepted or still to be posted as often as it was to be posted before |
| `Postings.EnterLaw` | include/spdlog/details/mpmc_blocking_q.h:31-50 | Under the mutex a blocking post to a full queue waits; any other is stored last, in a full queue at the cost of the oldest item, which is dropped and counted |
| `Postings.DequeueLaw` | include/spdlog/details/mpmc_blocking_q.h:52-67 | Under the mutex a worker takes the oldest item, or waits for one, or gives up after a timeout |
| `Postings.AnyoneMayBeNext` | include/spdlog/details/mpmc_blocking_q.h:31-67 | No interleaving is left out: whoever is at the mutex may be next, and whoever waits may be woken, time out or wake up spuriously |
| `Postings.NeverOverfull` | include/spdlog/details/circular_q.h:49-62 | From the start of the pool the queue never holds more than its capacity |
| `Shutdown.QuotaAlways` | include/spdlog/details/thread_pool-inl.h:38-53 | In every interleaving after shutdown began: terminates to post + terminates queued + terminates taken = workers still there, and no job stands behind a terminate |
| `Shutdown.SomeStepEnabled` | include/spdlog/details/thread_pool-inl.h:38-53 | Until all workers have exited, a thread can go on without any timeout or spurious wake-up |
| `ShutdownEnds.WorkDecreases` | include/spdlog/details/thread_pool-inl.h:88-126 | Every real step uses up work; a timeout or spurious wake-up adds at most two |
| `ShutdownEnds.RealStepsBounded` | include/spdlog/details/thread_pool-inl.h:38-126 | The number of real steps of any shutdown is bounded by the work at its start and the disturbances |
| `ShutdownEnds.ShutdownCompletes` | include/spdlog/details/thread_pool-inl.h:38-53 | From every state of a shutdown a finite run joins all workers |
| `ShutdownEnds.StoredAreProcessed` | include/spdlog/details/thread_pool-inl.h:38-53 | When the joins finish, every message that was queued or in hand when the shutdown began has been processed, exactly as often as it was there |
| `ShutdownEnds.JoinedIsDrained` | include/spdlog/details/thread_pool-inl.h:88-126 | After the joins the queue is empty and everything ever taken was processed |
| `ShutdownEnds.ShutdownIffCapacity` | include/spdlog/details/thread_pool-inl.h:16-53 | From every initial state the destructor can finish if and only if the queue can hold a message |
| `ShutdownEnds.ZeroCapacityNeverJoins` | include/spdlog/details/thread_pool-inl.h:38-53 | With capacity 0 no run ever joins |
| `Mailbox.MailboxRefinesQueue` | include/engine/base/queue_write_read.h:57-91 | In every interleaving of pushers and one puller: delivered ++ read queue ++ write queue = the pushes in lock order, and the size field is right whenever the lock is free |
| `Mailbox.PushesInOrder` | include/engine/base/queue_write_read.h:57-63 | In every interleaving: what was pushed by a thread, in lock order, and then what it still has to push, are the items it started with |
| `Mailbox.AnyoneMayPush` | include/engine/base/queue_write_read.h:57-91 | No interleaving is left out: whoever wants the lock may take it when it is free, and whoever holds it may go on |
| `Mailbox.PullDelivers` | include/engine/base/queue_write_read.h:74-91 | If something is pending when a pull peeks without a pusher holding the lock, that pull delivers at least one item |
| `Mailbox.InvAlways` | include/engine/base/queue_write_read.h:57-91 | Every step keeps the exclusion and counting invariant |
| `Mailbox.QueueRw.Push` | include/engine/base/queue_write_read.h:57-63 | Appends to what is pending |
| `Mailbox.QueueRw.Pull` | include/engine/base/queue_write_read.h:65-91 | Delivers a prefix of what is pending, in order, up to the item at which the callback stops |
| `Mailbox.QueueRw.Empty` | include/engine/base/queue_write_read.h:45-49 | Whether nothing is pending |
| `Mailbox.QueueRw.Size` | include/engine/base/queue_write_read.h:51-55 | How much is pending |
| `XmlRoundTrip.DocumentRoundTrip` | include/engine/iguana/iguana/xml.hpp:365-411 | For every nested schema whose names start with a letter: reading the printed document restores the value if and only if every string has no '<' and no blank or control character in front; then the whole text is consumed |
| `XmlLayout.LaidOutRoundTrip` | include/engine/iguana/iguana/xml.hpp:365-411 | With characters of codes below 33 or 127 in front of the declaration, of every tag and every value, and at the end, reading restores the printed values if and only if none were put behind a string that is not empty; those then belong to the string |
| `XmlLayout.LaidRead` | include/engine/iguana/iguana/xml.hpp:372-401 | The same for the members of any nested struct, with what is left over |
| `XmlLayout.BareLayout` | include/engine/iguana/iguana/xml.hpp:332-370 | Without such characters the laid-out text is the printed one |
| `XmlLayout.CharacterCodes` | include/engine/iguana/iguana/xml.hpp:62-73 | Which characters are skipped and which make up names, by their codes |
| `XmlLayout.SkippedIsSpace` | include/engine/iguana/iguana/xml.hpp:62-65 | What is skipped is such characters and nothing else, as far as they go |
| `XmlLayout.RootBehindSpace` | include/engine/iguana/iguana/xml.hpp:155-183 | Behind such characters the declaration is found as without them |
| `XmlLayout.BeginBehindSpace` | include/engine/iguana/iguana/xml.hpp:185-211 | So is an opening tag; where there is none the cursor stays in front of them |
| `XmlLayout.EndBehindSpace` | include/engine/iguana/iguana/xml.hpp:239-266 | So is a closing tag |
| `XmlLayout.ValueBehindSpace` | include/engine/iguana/iguana/xml.hpp:213-238 | So is a string or a number |
| `XmlLayout.SignedNumerals` | include/engine/iguana/iguana/xml.hpp:101-119 | Numbers are read with either sign and with leading zeros, up to the first character that is no digit |
| `XmlLayout.NumberOnItsOwnLine` | include/engine/iguana/iguana/xml.hpp:403-411 | A member of 5 on a line of its own behind the declaration is read as 5 |
| `XmlLayout.PrintedDocument` | include/engine/iguana/iguana/xml.hpp:365-370 | The printed document of one integer, written out |
| `XmlRoundTrip.ReadRoundTrip` | include/engine/iguana/iguana/xml.hpp:340-401 | The same for the members of any struct inside any text |
| `XmlRoundTrip.ValueRoundTrip` | include/engine/iguana/iguana/xml.hpp:213-237 | One member value, and what is left is its closing tag |
| `XmlRoundTrip.NumberFound` | include/engine/iguana/iguana/xml.hpp:277-284 | Every integer is read back from its decimal form |
| `XmlRoundTrip.TextFound` | include/engine/iguana/iguana/xml.hpp:213-237 | A string is read back whole if and only if it is clean |
| `XmlRoundTrip.UnderscoreMember` | include/engine/iguana/iguana/xml.hpp:67-73 | A member whose name starts with an underscore is not found at its own tag and keeps its initial value |
| `XmlNames.RestoredIffNamed` | include/engine/iguana/iguana/xml.hpp:340-411 | For every nested schema of identifiers and all clean values: the document is read back if and only if all names start with a letter; otherwise text is left over |
| `XmlNames.ReadableIffNamed` | include/engine/iguana/iguana/xml.hpp:340-411 | A schema of identifiers restores all clean values over all initial ones if and only if all its names start with a letter |
| `XmlNames.FirstMemberLost` | include/engine/iguana/iguana/xml.hpp:372-411 | In every other schema the first member, in document order, whose name does not start with a letter keeps its initial value, so that the printed one is lost wherever it differs |
| `XmlNames.UnderscoreFoundAt` | include/engine/iguana/iguana/xml.hpp:67-83 | A name with a leading underscore is found at exactly those tags that have one more character, so that a member takes the value of another |
| `XmlNames.UnderscoreNeverEnds` | include/engine/iguana/iguana/xml.hpp:239-267 | Its closing tag is never found |
| `XmlNames.ReadPassed` | include/engine/iguana/iguana/xml.hpp:372-401 | Reading takes at most one opening and one closing tag for each member, and no closing tag for a name with a leading underscore |
| `XmlReaders.XmlReader.GetRoot` | include/engine/iguana/iguana/xml.hpp:155-183 | The cursor moves past the declaration or not at all |
| `XmlReaders.XmlReader.BeginObject` | include/engine/iguana/iguana/xml.hpp:185-211 | The cursor moves past the named opening tag or not at all; the status is empty only where the text breaks off in a slash |
| `XmlRoundTrip.EmptyTagIff` | include/engine/iguana/iguana/xml.hpp:202-210 | The status is empty if and only if the text ends in a slash behind the name of the tag, without a closing bracket |
| `XmlRoundTrip.SelfClosingIsNormal` | include/engine/iguana/iguana/xml.hpp:202-210 | The tag of an empty element is taken for a normal one |
| `XmlReaders.XmlReader.GetText` | include/engine/iguana/iguana/xml.hpp:213-237 | The text up to the next opening bracket |
| `XmlReaders.XmlReader.GetNumber` | include/engine/iguana/iguana/xml.hpp:213-237 | The number in front of the next opening bracket |
| `XmlReaders.XmlReader.EndObject` | include/engine/iguana/iguana/xml.hpp:239-267 | The cursor moves past the named closing tag or not at all |
| `XmlReaders.DoRead` | include/engine/iguana/iguana/xml.hpp:372-401 | Members are read in order, structs recursively, members not found keep their value |
| `XmlReaders.FromXmlText` | include/engine/iguana/iguana/xml.hpp:403-411 | A document is read if its declaration is found |
| `XmlReaders.GetToken` | include/engine/iguana/iguana/xml.hpp:67-73 | The length of the token in front, with the two starting cases |
| `Scanning.Forward` | include/engine/iguana/iguana/xml.hpp:42-60 | The first position where the predicate holds, or the length |
| `Scanning.TokenFound` | include/engine/iguana/iguana/xml.hpp:67-83 | A name that starts with a letter is found where it stands |
| `Scanning.UnderscoreMissed` | include/engine/iguana/iguana/xml.hpp:67-83 | A name that starts with an underscore is not |
| `JsonStrings.EscapedIsJson` | include/engine/iguana/iguana/detail/string_stream.hpp:82-126 | For every input the text between the quotes is a well-formed string of RFC 8259 section 7; it decodes to the input if and only if there is no NUL and no control byte outside \b \t \n \f \r before the last byte |
| `JsonStrings.EscapedInjective` | include/engine/iguana/iguana/detail/string_stream.hpp:82-126 | Two such inputs with the same output are equal |
| `StringStreams.StringStream.WriteStr` | include/engine/iguana/iguana/detail/string_stream.hpp:82-126 | Appends the quoted, escaped text to all earlier output |
| `StringStreams.StringStream.WriteNext` | include/engine/iguana/iguana/detail/string_stream.hpp:87-124 | One turn of the escaping loop: one input byte, or two for a four-digit escape |
| `StringStreams.StringStream.Growpup` | include/engine/iguana/iguana/detail/string_stream.hpp:54-68 | A fresh buffer, the next multiple of 1024, with all earlier output |
| `StringStreams.StringStream.Write` | include/engine/iguana/iguana/detail/string_stream.hpp:70-80 | Appends, growing if need be |
| `StringStreams.StringStream.Put` | include/engine/iguana/iguana/detail/string_stream.hpp:128-137 | Appends one byte, growing if need be |
| `StringStreams.StringStream.Str` | include/engine/iguana/iguana/detail/string_stream.hpp:152-156 | The output so far |
| `Rotation.RotatingSink.Rotate` | include/spdlog/sinks/rotating_file_sink-inl.h:88-118 | File i receives the old file i-1 wherever that existed, the base file ends empty, nothing else changes; on a rename that fails twice, which files moved and that the base file is lost |
| `Rotation.RotatingSink.MoveUp` | include/spdlog/sinks/rotating_file_sink-inl.h:94-116 | One file moves up or, after two failed renames, at most its target is gone |
| `Rotation.RotatingSink.RenameFile` | include/spdlog/sinks/rotating_file_sink-inl.h:120-128 | The target is replaced by the source, or the rename fails and at most the target is gone |
| `Rotation.RotatingSink.SinkIt` | include/spdlog/sinks/rotating_file_sink-inl.h:63-75 | Rotates exactly when the kept size would pass the limit; the message is then at the end of the base file, whose size is at most the larger of the limit and the message; the kept size is never below the real one |
| `Rotation.RotatingSink.RotateOnOpen` | include/spdlog/sinks/rotating_file_sink-inl.h:35-38 | Rotation on opening leaves the kept size as it was, above the real one |
| `Rotation.RotatingSink.constructor` | include/spdlog/sinks/rotating_file_sink-inl.h:26-39 | Opening keeps every file, and the kept size is the real one |
| `RotationHistory.FilesHoldTail` | include/spdlog/sinks/rotating_file_sink-inl.h:63-118 | Over every run of writes without a failed rotation: contents at the start and all messages = what the rotations deleted, file by file, and what the files hold, oldest first, in order and without a gap |
| `RotationHistory.RotationLosesOldest` | include/spdlog/sinks/rotating_file_sink-inl.h:83-118 | A rotation loses the oldest file, only if its predecessor takes its place, and nothing else |
| `RotationHistory.FilesStayBounded` | include/spdlog/sinks/rotating_file_sink-inl.h:63-118 | Over every run of writes no file of the set grows beyond the largest of the limit, the longest message and the files at the start |
| `RotationHistory.WriteKeepsBound` | include/spdlog/sinks/rotating_file_sink-inl.h:63-75 | One write keeps such a bound |
| `FileNames.CalcFilenameInjective` | include/spdlog/sinks/rotating_file_sink-inl.h:41-54 | Different indexes give different names, whatever the base name |
| `FileNames.IndexedName` | include/spdlog/sinks/rotating_file_sink-inl.h:41-54 | An older file is named by the stem, a dot, its index as a numeral that reads back as it, and the extension |
| `FileNames.IndexedPlainName` | include/spdlog/sinks/rotating_file_sink-inl.h:41-54 | Without an extension the dot and the numeral come last |
| `FileNames.SplitMeaning` | include/spdlog/details/file_helper-inl.h:111-144 | An extension is cut off wherever there is one: a dot not in front, a rest without dots and separators |
| `FileNames.SplitParts` | include/spdlog/details/file_helper-inl.h:111-144 | Nothing else is cut off, and the parts make up the name |
| `PatternMeaning.RunMeansPattern` | include/spdlog/pattern_formatter-inl.h:1050-1065 | For every pattern and every run whose first message is not of second 0: the compiled formatter with its time caches writes what the direct interpreter writes for each message |
| `PatternMeaning.CompiledMeansPattern` | include/spdlog/pattern_formatter-inl.h:1349-1394 | Compiling preserves meaning for every pattern, message and time |
| `PatternMeaning.CachesAreInvisible` | include/spdlog/pattern_formatter-inl.h:936-970 | Cached date texts change nothing and stay right, whichever pieces fail |
| `PatternMeaning.FirstSecondZero` | include/spdlog/pattern_formatter-inl.h:1050-1057 | A first message of second 0 is shown with the zeroed time |
| `PatternTimes.RightForEveryPattern` | include/spdlog/pattern_formatter-inl.h:1020-1065 | Every pattern is shown rightly over a run if and only if its first message is not of second 0, or second 0 is the zeroed time |
| `PatternTimes.DateAndTimeAtSecondZero` | include/spdlog/pattern_formatter-inl.h:246-276 | With the pattern %c alone, a first message of second 0 is right if and only if second 0 is the zeroed time |
| `PatternTimes.DateAndTimeInjective` | include/spdlog/pattern_formatter-inl.h:246-276 | Date and time as written tell all seven parts of a time |
| `PatternTimes.YearAtSecondZero` | include/spdlog/pattern_formatter-inl.h:1020-1057 | For the year that is right if and only if second 0 lies in 1900 |
| `PatternPadding.HonestPadding` | include/spdlog/pattern_formatter-inl.h:37-93 | A field that announces its length contributes max(width, length) characters, or exactly the width when truncating: its text, cut or between blanks on the proper sides |
| `PatternPadding.SpacesAreBlank` | include/spdlog/pattern_formatter-inl.h:83-93 | What is filled in is blanks |
| `PatternPadding.PadSpecOfNumeral` | include/spdlog/pattern_formatter-inl.h:1293-1347 | A numeral asks for that width modulo 2^64, at most 64, with blanks in front, behind a minus sign with blanks behind, behind an equals sign with both; an exclamation mark behind it and nothing else asks for truncation |
| `PatternPadding.PadSpecWithoutNumeral` | include/spdlog/pattern_formatter-inl.h:1293-1322 | Without a numeral nothing is padded, and a sign in front is taken all the same |
| `PatternPadding.PadderContributes` | include/spdlog/pattern_formatter-inl.h:37-93 | That contribution is made if and only if the announced length is right, or both fill the width untruncated |
| `PatternPadding.PadderFails` | include/spdlog/pattern_formatter-inl.h:70-81 | Truncation asks for a negative size exactly if the announced length exceeds all that has been written and the width |
| `PatternPadding.ShortDateMisses` | include/spdlog/pattern_formatter-inl.h:295-315 | The short date announces ten characters and writes eight (nine in some years before 1900): right if and only if the width is at most that and nothing is truncated |
| `PatternPadding.DateAndTimeMisses` | include/spdlog/pattern_formatter-inl.h:246-276 | The date and time announces 24 characters: right if and only if month name, day and year take nine together, or the width is at most 24 and the real length, untruncated |
| `PatternPadding.FieldContributes` | include/spdlog/pattern_formatter-inl.h:37-93 | For any field: it contributes what is promised if and only if it announces its length, or both lengths fill the width untruncated |
| `PatternPadding.TruncatedShortDateFails` | include/spdlog/pattern_formatter-inl.h:295-315 | A truncated short date at the front of a message asks for a negative size if and only if the width is below 2 (or 1) |
| `FieldTexts.FlagMeans` | include/spdlog/pattern_formatter-inl.h:1020-1065 | A percent sign and a flag put the text of that field behind what there is |
| `FieldTexts.LineEnds` | include/spdlog/pattern_formatter-inl.h:1050-1065 | A line is what its pattern means and then the end of line |
| `FieldTexts.TwoDigitFields` | include/spdlog/pattern_formatter-inl.h:334-434 | Hour, minute, second, day and month, counted from 1, are two digits that read back as them |
| `FieldTexts.HalfDayFields` | include/spdlog/pattern_formatter-inl.h:158-167 | The hour on a twelve-hour clock, and PM exactly from hour 12 on |
| `FieldTexts.ClockFields` | include/spdlog/pattern_formatter-inl.h:551-591 | Hour, minute and second by position, between colons |
| `FieldTexts.TwelveHourField` | include/spdlog/pattern_formatter-inl.h:527-549 | Hour, minute and second between colons, a blank, and the half of the day |
| `FieldTexts.ShortDateFields` | include/spdlog/pattern_formatter-inl.h:295-315 | Month, day and two-digit year between slashes |
| `FieldTexts.YearField` | include/spdlog/pattern_formatter-inl.h:317-332 | The year with its century as a numeral, with a sign if negative |
| `FieldTexts.ShortYearField` | include/spdlog/pattern_formatter-inl.h:278-293 | The last two digits of the year; before 1900 signed and not filled up |
| `FieldTexts.NameFields` | include/spdlog/pattern_formatter-inl.h:169-244 | The names of days and months, short and long |
| `FieldTexts.DateAndTimeField` | include/spdlog/pattern_formatter-inl.h:246-276 | Day and month names, the day as a numeral, the clock and the year, with blanks between them |
| `FieldTexts.FractionFields` | include/spdlog/pattern_formatter-inl.h:436-489 | Milli-, micro- and nanoseconds as three, six and nine digits that read back as them |
| `FieldTexts.EpochField` | include/spdlog/pattern_formatter-inl.h:491-508 | The seconds since the epoch as a signed numeral |
| `FieldTexts.NumeralFields` | include/spdlog/pattern_formatter-inl.h:644-677 | Thread and process as numerals |
| `FieldTexts.ClockFlagFields` | include/spdlog/pattern_formatter-inl.h:593-925 | Offset to UTC and elapsed times: the text given from outside, unchanged |
| `FieldTexts.MessageFields` | include/spdlog/pattern_formatter-inl.h:106-153 | Name, level, short level and payload as they are |
| `FieldTexts.SourceFields` | include/spdlog/pattern_formatter-inl.h:790-898 | File name, function name and line number of the place in the source |
| `FieldTexts.ShortNameField` | include/spdlog/pattern_formatter-inl.h:811-856 | The part of the path behind its last separator |
| `FieldTexts.SourcePlaceField` | include/spdlog/pattern_formatter-inl.h:756-788 | Path, colon and line number |
| `FieldTexts.NoSourceFields` | include/spdlog/pattern_formatter-inl.h:756-898 | Without a place in the source its flags show nothing, not even padding |
| `FieldTexts.DefaultFormat` | include/spdlog/pattern_formatter-inl.h:927-1013 | The default format: date, clock and milliseconds in brackets, the name if there is one, the level as the part to be coloured, the place in the source if there is one, and the payload |
| `LogFields.TimeFieldsHonest` | include/spdlog/pattern_formatter-inl.h:172-591 | For every time flag and date, exactly when it announces its length: the date and time if month name, day and year take nine characters, the years in stated ranges, the short date never, all others always |
| `LogFields.DateAndTimeInFourDigitYears` | include/spdlog/pattern_formatter-inl.h:246-276 | In years of four digits the date and time announces its length exactly on two-digit days outside September and one-digit days in it |
| `LogFields.FifthOfAugust` | include/spdlog/pattern_formatter-inl.h:246-276 | A date on which 24 characters are announced and 23 written |
| `LogFields.TwelveHourClock` | include/spdlog/pattern_formatter-inl.h:164-167 | The hour is from 1 to 12 if and only if it is not the hour after midnight, which is written 00 |
| `LogFields.MessageFieldsHonest` | include/spdlog/pattern_formatter-inl.h:436-508 | Every message flag announces its length, the epoch seconds if and only if they have ten characters |
| `PatternFormatters.PatternFormatter.Compile` | include/spdlog/pattern_formatter-inl.h:1349-1394 | The loop produces the pieces that the meaning theorem is about |
| `PatternFormatters.PatternFormatter.CompileFlag` | include/spdlog/pattern_formatter-inl.h:1356-1380 | A percent sign, its padding and its flag; nothing for a percent sign without a flag |
| `PatternFormatters.PatternFormatter.HandleFlag` | include/spdlog/pattern_formatter-inl.h:1082-1291 | The piece for a flag; an unknown flag as is, or behind the function name if the exclamation mark was one |
| `PatternFormatters.HandlePadspec` | include/spdlog/pattern_formatter-inl.h:1293-1347 | Side, width and truncation, and where the flag stands |
| `PatternFormatters.ReadWidth` | include/spdlog/pattern_formatter-inl.h:1327-1332 | The decimal number modulo 2^64 |
| `PatternFormatters.PatternFormatter.Format` | include/spdlog/pattern_formatter-inl.h:1050-1065 | One message: the time is renewed when the second changes, then every piece in order up to one that fails |
| `PatternFormatters.PadField` | include/spdlog/pattern_formatter-inl.h:37-93 | Blanks before and behind, or a cut |

## Left out

- Bigints.Bigint: the capacity of 32 bigits that the destructor asserts, and the width of `int` for exponents and indexes; lengths are unbounded except where a loop variable itself would overflow.
- Bigints.Bigint.AssignPow10: exponents from 2^30 on, where the bit mask of the original overflows `int`.
- Bigints.Bigint.Square: more than 2^30 bigits, beyond what `int` can count doubled.
- FallbackFormat.Format: taking a floating-point number apart; it starts from an integer significand below 2^62, a binary exponent and whether the predecessor is closer, and the starting decimal exponent is an input that must make the value less than ten units (and, without a number of digits, the upper end of the interval too).
- FormatFloat.FormatFloat: normalising the significand, whose result is an input, and the table of cached significands; that the one used is right to half a unit is a requirement. Zero, negative precisions and the variant by `snprintf` are other branches of the original; whether the first digit can be zero is left open.
- Grisu.FixedHandler.OnDigit: the length of the caller's character buffer.
- TrailingZeros.RemoveTrailingZeros32: the trailing-zero count is taken as a function; the compiler builtin is not modelled.
- BlockingQueue.MpmcBlockingQueue.TryEnqueue: waiting and notifying, which are steps of `ThreadPool`.
- ShutdownEnds.ShutdownCompletes: fairness; it shows that a finite run exists from every state and `RealStepsBounded` that only timeouts and spurious wake-ups can lengthen one.
- ThreadPool: the variant for MinGW with notifications under the mutex, posts that race with the destructor, exceptions thrown by sinks, the wait duration (a timeout can happen at any time).
- Mailbox: the memory model; the unlocked read of the size is a step that sees the last value written, and the size is not bounded by `int`.
- XmlReaders.XmlReader: reading beyond the text, which the original does with its default length, and a missing terminator; the text ends where it ends.
- XmlReaders.XmlReader.GetNumber: integer overflow of the C library's conversion; numbers are unbounded. Floating-point members and `itoa_fwd` are left out.
- Scanning.TokenFound: characters are those of the C locale.
- StringStreams.StringStream: the read side, `clear`, the destructor, failing allocation and 64-bit sizes.
- Rotation.RotatingSink: failing to open or write a file, time between the two renames, the mutex, and 64-bit sizes; `filename` and `flush_` add nothing.
- Rotation.RotatingSink.constructor: rotating on opening is the method `RotateOnOpen`, called next, because a constructor cannot report a failure.
- FileNames.SplitParts: the folder separators of Windows.
- LogFields: times before 1970 with a fraction of a second, level names (a message carries them), calendars (a function from seconds), the flags with state of their own (`%z %u %i %o %O`, whose text is an input), and custom flags.
- PatternFormatters.PatternFormatter.Format: what the caller does when a field fails.
- Dragonbox beyond its integer helpers, JSON reading, msgpack, MD5, options, the logger registry, console, Windows, Android and syslog sinks, actors, sessions, rpc and rings: incomplete in the repository, input and output, or without a claim that a reader could not see in the code.
