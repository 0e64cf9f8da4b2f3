# Nuke: verified model of the algorithmic core

Nuke ports parts of the .NET base library to C++. This project models the files that hold real
algorithms and proves what they promise. Each module stands for one source file or for one concept
that several of them share.

| module | what it models |
|---|---|
| `Calendar` | the reference: the proleptic Gregorian calendar, defined by leap years, month lengths and "the next day" alone |
| `DateTimes` | dates in and out of a tick count: tables and closed forms one way, Euclidean affine functions the other |
| `DateTimeArithmetic` | time of day, kind bits, `AddTicks`, `AddMonths`, `AddYears` |
| `TickUnits`, `TimeSpans` | tick units, signed intervals, their overflow tests and their fields |
| `WideMultiply` | 64 x 64 to 128 bit products, unsigned and signed |
| `Base64` | the codec over arrays, specified by numerals in base 64 and base 256 |
| `Paths` | combining, joining and splitting paths with the Linux separator |
| `Stopwatches` | the stopwatch as a class, and its runs against a clock |
| `ConcurrentQueues` | the monitor with notify-on-empty, as a class and as a step system |
| `Timers`, `TimerRaises` | the start/stop handshake with its worker, as a class and as a step system; when it calls its handlers |
| `MachineWords`, `Outcomes` | fixed-width integers with their wrap-around; values or exceptions |

How the source is rendered:

- Integer widths are explicit. Unsigned arithmetic and casts wrap by `U16`, `U32`, `U64`; signed
  arithmetic that can overflow is taken to wrap in two's complement (`S64`). Masks, shifts and `|`
  on disjoint bits are written as quotients, remainders and sums. C++ division is `TruncDiv`.
- Exceptions are `Err` results, tested in the source's order. The `DateTime` word keeps its two kind
  bits above 62 bits of ticks.
- `DateTime(int64_t)` refuses any word with kind bits, and `AddTicks`, `AddMonths` and `AddYears`
  return through it. The .NET members they are named after keep the kind; in the code they
  succeed only for the unspecified kind. The model follows the code, and the results say exactly that.
- The codec, the path loops and the stopwatch keep the source's loops, arrays and fields. The two
  protocols are classes whose methods are atomic steps, and runs are sequences of steps. A ghost
  history in each class ties the object to its run, so that results about all runs become contracts of
  its methods. Quantifying over runs covers every interleaving, spurious and lost wakeups, and the choice
  of the waiter that `notify_one` releases.

Five properties one might expect are false of the code. Each has a concrete counterexample and the
exact condition under which the code has it:

- `AddMonths` keeps values in order: `AddMonthsReordersExample`, `AddMonthsReordersExactly`.
- No queued element is left beside a sleeping consumer: `TwoSleepersOversleep`; `UncoveredExactly` for a
  step, `CoveredThroughout` for a run, `WakeupsReachOneConsumerOnly` for all runs.
- No handler is called after a stop is requested: `OneRaiseCanFollowStop`; `StopIsQuietExactly` before the
  call, `RaiseFollowsExactly` once the flag is set. At most one call follows in any run (`RunsLogWell`).
- `decoded_size` is room enough for what `decode` writes: `UnpaddedTextOverflows`, `DecodedSizeSuffices`.
- `FromBase64String` returns the bytes that were encoded: `WrapperKeepsPadding`, where any length that is
  not a multiple of three fails.

To check everything: `dafny verify dfyconfig.toml`.

## Model

| member | source | states |
|---|---|---|
| `Calendar.DaysBeforeYearClosedForm` | Source/Nuke.System/System/DateTime.cpp:113-118 | the sum of the lengths of years 1 to y-1, each leap or not by the 4/100/400 rule, equals the closed form with the two century corrections that the year offset relies on |
| `Calendar.DayNumberIncreases` | Source/Nuke.System/System/DateTime.cpp:120-135 | numbering the valid dates is strictly monotone in calendar order, in both directions, and injective |
| `Calendar.DayNumberOfNth` | Source/Nuke.System/System/DateTime.cpp:120-135 | the date reached by taking "the next day" n times from 0001-01-01 has number n: the numbering agrees with a calendar defined only by its successor |
| `Calendar.NthDateOfDayNumber` | Source/Nuke.System/System/DateTime.cpp:120-135 | every valid date is reached by that counting, at its own number: numbering and counting are inverse bijections |
| `DateTimes.GetDateCorrect` | Source/Nuke.System/System/DateTime.cpp:265-285 | for every value, the multiply-and-shift date is exactly the date reached by counting whole days one at a time from 0001-01-01, and its year is at most 9999 |
| `DateTimes.AffineStepIsDivision` | Source/Nuke.System/System/DateTime.cpp:64-65 | for every x up to 146099 the 64-bit product with the multiplier does not wrap, its high word is x/1461, its low word over the divider is (x%1461)/4, and the 32-bit product that does wrap gives the same |
| `DateTimes.CenturySplit` | Source/Nuke.System/System/DateTime.cpp:270-271 | splitting 4n+3 by centuries and then by 1461 lands in the year that holds day n, with the exact day within it, for every day count up to the largest used |
| `DateTimes.MonthSplit` | Source/Nuke.System/System/DateTime.cpp:272-284 | `2141*n+197913` splits every day since 1 March into the month and the day of the month that the month lengths give, including the rollover to January and February of the next year, leap or not |
| `DateTimes.CivilParts` | Source/Nuke.System/System/DateTime.cpp:270-274 | the year and day left by the century split and the one multiplication satisfy n = days before the year + day of the year; the high/low word form and the plain division form are the same numbers |
| `DateTimes.MarchParts` | Source/Nuke.System/System/DateTime.cpp:612-618 | the March-based reading (shifted by 306 days) yields the year and the day within it, of which the month table then takes the date |
| `DateTimes.JanuaryParts` | Source/Nuke.System/System/DateTime.cpp:606-610 | the January-based reading: `Year` is the year that contains the day, and `DayOfYear` its place in that year |
| `DateTimes.ReadersAgree` | Source/Nuke.System/System/DateTime.cpp:606-631 | `Year`, which counts from January in its own way, and `Month` and `Day`, which repeat the formula of `GetDate`, are the parts of one date for every value |
| `DateTimes.DayOfYearCorrect` | Source/Nuke.System/System/DateTime.cpp:664-667 | the wrapping 32-bit product equals the days before the month, in that year, plus the day |
| `DateTimes.LeapTestCorrect` | Source/Nuke.System/System/DateTime.cpp:225-233 | the tests by 4, 16 and 25 are the 4/100/400 rule |
| `DateTimes.DaysInMonthCorrect` | Source/Nuke.System/System/DateTime.cpp:219-234 | over all arguments: the leap-year answer or its range error, and the length of the month or the first error that applies, month before year (the month lookup is at lines 420-428) |
| `DateTimes.DaysToMonthCorrect` | Source/Nuke.System/System/DateTime.cpp:69-77 | both cumulative tables are the running sums of the month lengths |
| `DateTimes.DaysToYearCorrect` | Source/Nuke.System/System/DateTime.cpp:113-118 | the 32-bit year offset is the sum of the lengths of all earlier years, without wrapping |
| `DateTimes.DateToTicksCorrect` | Source/Nuke.System/System/DateTime.cpp:120-135 | accepts exactly the valid dates of years 1 to 9999 and returns their day number in ticks; every other triple of integers is refused |
| `DateTimes.YearBound` | Source/Nuke.System/System/DateTime.cpp:48-52 | a valid date is in years 1 to 9999 exactly when its day number is below the limit that the tick range uses |
| `DateTimes.GetDateOfDateToTicks` | Source/Nuke.System/System/DateTime.cpp:265-285 | reading back the ticks of an accepted date returns that date |
| `DateTimes.DateToTicksOfGetDate` | Source/Nuke.System/System/DateTime.cpp:120-135 | the date of any value is accepted, and its ticks are the value rounded down to the whole day: with the row above, dates and whole days are in bijection |
| `DateTimes.DateToTicksIncreases` | Source/Nuke.System/System/DateTime.cpp:120-135 | an accepted date is earlier than another exactly when it has fewer ticks |
| `DateTimes.DayOfWeekAdvances` | Source/Nuke.System/System/DateTime.cpp:659-662 | values on consecutive calendar dates, month and year ends included, have consecutive weekdays; values 400 calendar years apart have the same one |
| `DateTimes.FourCenturies` | Source/Nuke.System/System/DateTime.cpp:43 | 400 years later is a valid date again and exactly 146097 days later |
| `DateTimes.UnixEpochIsThursday` | Source/Nuke.System/System/DateTime.cpp:47 | the epoch constant is the day number of 1970-01-01, a Thursday |
| `DateTimes.FromTicksCorrect` | Source/Nuke.System/System/DateTime.cpp:166-174 | of all int64 arguments, negative ones included, accepts exactly those from 0 to the largest tick count, unchanged, and refuses every other as out of range |
| `DateTimeArithmetic.TimeToTicksCorrect` | Source/Nuke.System/System/DateTime.cpp:136-145 | accepts exactly the times of day, over all int32 arguments including the negative ones that the unsigned casts turn large |
| `DateTimeArithmetic.InitCorrect` | Source/Nuke.System/System/DateTime.cpp:146-160 | for all int32 arguments, an invalid kind included, and either order in which the compiler evaluates date and time: the word that holds day number, time and kind, or the error of the first test that fails |
| `DateTimeArithmetic.KindOfWord` | Source/Nuke.System/System/DateTime.cpp:476-491 | a word of ticks and kind bits reads back as those ticks and that kind, the fourth pattern as local |
| `DateTimeArithmetic.TicksOfGetters` | Source/Nuke.System/System/DateTime.cpp:633-651 | day, hour, minute, second and millisecond are the mixed-radix digits of the tick count, with only the part below a millisecond left; the time of day (lines 669-672) is the sum without the days, for every kind |
| `DateTimeArithmetic.GettersOfInit` | Source/Nuke.System/System/DateTime.cpp:606-651 | every getter returns the constructor argument it belongs to |
| `DateTimeArithmetic.InitOfGetters` | Source/Nuke.System/System/DateTime.cpp:146-160 | constructing from the fields of any value is accepted and loses only the part below a millisecond, and the fourth kind pattern if and only if the value carries it |
| `DateTimeArithmetic.RebuildCorrect` | Source/Nuke.System/System/DateTime.cpp:166-174 | going back through the checking constructor succeeds exactly for values without kind bits, and is otherwise refused as out of range |
| `DateTimeArithmetic.AddTicksCorrect` | Source/Nuke.System/System/DateTime.cpp:498-506 | with 64-bit wrap-around in the sum, the result is the exact sum or an error, and it is an error exactly when the sum is out of range or the value carries kind bits |
| `DateTimeArithmetic.AddDifference` | Source/Nuke.System/System/DateTime.cpp:674-677 | for values of any kinds, the difference added to the second value without its kind gives the first without its kind; it is zero exactly for values that the source's equality takes as equal |
| `DateTimeArithmetic.DifferenceOfInit` | Source/Nuke.System/System/DateTime.cpp:674-677 | of constructed values of any two kinds, the difference is that of their day numbers and times, and the equality of lines 391-394 holds exactly when dates and times agree |
| `DateTimeArithmetic.MonthSplitRoundsDown` | Source/Nuke.System/System/DateTime.cpp:547-550 | the two-branch quotient is floor division of the month count, for months before year 1 as well |
| `DateTimeArithmetic.AddMonthsCorrect` | Source/Nuke.System/System/DateTime.cpp:537-564 | for every value and every integer: which of the three errors, or the day number of the target month's clamped day plus the unchanged time of day; the argument check never refuses a move that would have stayed in years 1 to 9999 |
| `DateTimeArithmetic.AddYearsCorrect` | Source/Nuke.System/System/DateTime.cpp:508-535 | the same for `AddYears`: its single special case for 29 February is that same clamp |
| `DateTimeArithmetic.YearsAreTwelveMonths` | Source/Nuke.System/System/DateTime.cpp:508-564 | `AddYears(k)` and `AddMonths(12*k)` succeed together and give the same value, for every value and k |
| `DateTimeArithmetic.AddMonthsMoves` | Source/Nuke.System/System/DateTime.cpp:537-564 | success exactly when the target year is 1 to 9999 and no kind bits are set; then the month index moves by exactly k, the day is the smaller of the old one and the target month's length, the time of day is unchanged |
| `DateTimeArithmetic.AddMonthsCompose` | Source/Nuke.System/System/DateTime.cpp:537-564 | two moves equal the single move by their sum if and only if the month in between did not clamp the day below what the last month allows |
| `DateTimeArithmetic.AddMonthsUndo` | Source/Nuke.System/System/DateTime.cpp:537-564 | moving back always succeeds, and restores the value if and only if the day existed in the target month; in particular for every day up to 28 |
| `DateTimeArithmetic.AddMonthsKeepsDateOrder` | Source/Nuke.System/System/DateTime.cpp:537-564 | an earlier or equal date goes to an earlier or equal date, and exactly when two different dates meet |
| `DateTimeArithmetic.AddMonthsReordersExactly` | Source/Nuke.System/System/DateTime.cpp:537-564 | full values, unlike dates, change order if and only if both dates are clamped in the same month and the earlier value has the later time of day |
| `DateTimeArithmetic.AddMonthsReordersExample` | Source/Nuke.System/System/DateTime.cpp:537-564 | two values of January 2021 that one month reverses: monotonicity on values is false |
| `DateTimeArithmetic.FractionsRound` | Source/Nuke.System/System/DateTime.cpp:516 | arguments with a fraction, and any rounding of the addition that keeps whole numbers: which whole argument they amount to, or the error when out of range (the month form is line 547); whole arguments of either function are themselves |
| `WideMultiply.CarryChainExact` | Source/Nuke.System/System/Math.h:64-70 | from half products as large as they can be, neither 64-bit intermediate sum wraps, and the two words lose nothing |
| `WideMultiply.BigMulExact` | Source/Nuke.System/System/Math.h:36-72 | high*2^64 + low = a*b for all 64-bit operands |
| `WideMultiply.UnsignedWords` | Source/Nuke.System/System/Math.h:82-84 | what the unsigned words of two's complement operands are: the signed high word plus each operand whose partner is negative |
| `WideMultiply.BigMulSignedExact` | Source/Nuke.System/System/Math.h:74-86 | after the two mask corrections the words are the exact signed 128-bit product, for all int64 operands |
| `WideMultiply.FirstCorrectionWraps` | Source/Nuke.System/System/Math.h:85 | the first correction alone leaves the int64 range if and only if both operands are negative and a + b + high word is below the minimum: exactness there rests on wrap-around |
| `Base64.InverseInverts` | Source/Nuke.System/System/Convert.cpp:8-40 | the inverse table sends each of the 64 letters to its index |
| `Base64.LetterOfInverse` | Source/Nuke.System/System/Convert.cpp:19-40 | every character the inverse table accepts is that letter of the alphabet |
| `Base64.Encode` | Source/Nuke.System/System/Convert.cpp:51-87 | on arrays: writes exactly `encoded_size` characters, which write the bytes as one number in base 64, filled with zero bits to whole sextets and padded with `=` as section 4 of RFC 4648 says; the rest of the destination is untouched |
| `Base64.EncodeRest` | Source/Nuke.System/System/Convert.cpp:66-84 | the switch on the bytes left over: completes the encoding with its padding |
| `Base64.Decode` | Source/Nuke.System/System/Convert.cpp:89-130 | on arrays, on any text, into any destination with room for the bytes of the alphabet prefix: consumes exactly the longest prefix of alphabet characters, writes floor(3*consumed/4) bytes, which write the same number in base 256 without the incomplete byte; the rest of the destination is untouched |
| `Base64.Octets` | Source/Nuke.System/System/Convert.cpp:108-110 | the shift-and-mask assembly of three bytes from four sextets |
| `Base64.Flush` | Source/Nuke.System/System/Convert.cpp:106-115 | a complete group appends its three bytes |
| `Base64.PutRest` | Source/Nuke.System/System/Convert.cpp:118-126 | an incomplete group of i sextets appends i-1 bytes |
| `Base64.OctetsOfGroup` | Source/Nuke.System/System/Convert.cpp:108-110 | the decoder's three bytes, encoded again by lines 59-62, are the four sextets they came from |
| `Base64.NumeralInjective` | Source/Nuke.System/System/Convert.cpp:51-87 | digits of a fixed count are determined by the number they write: what makes the two numeral specifications determine their results |
| `Base64.RoundTrip` | Source/Nuke.System/System/Convert.cpp:51-130 | decoding an encoding returns the bytes and consumes all characters but the padding |
| `Base64.EncodingPrefix` | Source/Nuke.System/System/Convert.cpp:41-44 | the alphabet prefix of an encoding is all but its padding, and is as long as the byte count requires |
| `Base64.EncodingUnique` | Source/Nuke.System/System/Convert.cpp:51-87 | the specification of encoding allows one result only |
| `Base64.DecodingUnique` | Source/Nuke.System/System/Convert.cpp:89-130 | the specification of decoding allows one result only |
| `Base64.EncodingInjective` | Source/Nuke.System/System/Convert.cpp:51-87 | different byte sequences never share an encoding |
| `Base64.ReencodeCanonical` | Source/Nuke.System/System/Convert.cpp:51-130 | encoding what was decoded returns the text if and only if it was canonical: whole groups, a last group of two to four sextets, no stray low bits, exactly the padding due |
| `Base64.DecodedSizeSuffices` | Source/Nuke.System/System/Convert.cpp:46-50 | what decoding writes fits `decoded_size` if and only if the alphabet prefix of the text reaches at most one character into an incomplete last group; always when the length is a multiple of 4; and it is exact for text of alphabet characters up to that point |
| `Base64.UnpaddedTextOverflows` | Source/Nuke.System/System/Convert.cpp:46-50 | the text `QQQ` decodes to two bytes, and `decoded_size` of its length is zero |
| `Base64.FromBase64String` | Source/Nuke.System/System/Convert.cpp:132-138 | for every text whose decoding fits: an array of `decoded_size` bytes, the decoded ones and then zeros |
| `Base64.WrapperKeepsPadding` | Source/Nuke.System/System/Convert.cpp:132-138 | an encoding always fits, and comes back with one zero byte more for each padding character: as the bytes alone if and only if their number is a multiple of three |
| `Paths.Combine` | Source/Nuke.System/System/IO/Path.cpp:218-280 | the two passes build the left fold of two-path combination over all components; the reserved int32 size is the result's length, plus one when a separator may follow, wrapped, and a negative one is the only failure; below 2^31 it bounds the result |
| `Paths.Measure` | Source/Nuke.System/System/IO/Path.cpp:220-249 | the first pass finds a start with no rooted component after it, and the room that the fold over all components needs, as an int32 that wraps at every step |
| `Paths.Join` | Source/Nuke.System/System/IO/Path.cpp:281-321 | the loop builds the left fold of two-path joining; the reserved int32 size is all lengths and a separator between each two, wrapped, and a negative one is the only failure; below 2^31 it bounds the result |
| `Paths.RoomStep` | Source/Nuke.System/System/IO/Path.cpp:234-248 | why the reserve is right: adding a component adds its own room, and a rooted one discards what was there |
| `Paths.Combine2Associative` | Source/Nuke.System/System/IO/Path.cpp:218-280 | combining two paths is associative |
| `Paths.Join2Associative` | Source/Nuke.System/System/IO/Path.cpp:281-321 | joining two paths is associative |
| `Paths.CombineConcat` | Source/Nuke.System/System/IO/Path.cpp:218-280 | combining a concatenation of component lists is combining the two combinations |
| `Paths.CombineFlattens` | Source/Nuke.System/System/IO/Path.cpp:218-280 | nested calls flatten, and an empty component anywhere changes nothing |
| `Paths.JoinConcat` | Source/Nuke.System/System/IO/Path.cpp:281-321 | joining a concatenation of component lists is joining the two results |
| `Paths.JoinFlattens` | Source/Nuke.System/System/IO/Path.cpp:281-321 | nested calls flatten, and an empty component anywhere changes nothing |
| `Paths.CombineRooted` | Source/Nuke.System/System/IO/Path.cpp:234-238 | a combination is rooted if and only if one of its components is |
| `Paths.CombineFromRooted` | Source/Nuke.System/System/IO/Path.cpp:234-255 | components before a rooted one have no effect, which is what lets the second pass skip them |
| `Paths.CombineVersusJoin` | Source/Nuke.System/System/IO/Path.cpp:218-321 | the two differ if and only if a rooted path is added to a non-empty one |
| `Paths.JoinKeepsBoth` | Source/Nuke.System/System/IO/Path.cpp:300-318 | joining keeps both sides whole, character by character, and adds one separator exactly where neither side brings one; so does combining with an unrooted path |
| `Paths.JoinKeepsNames` | Source/Nuke.System/System/IO/Path.cpp:281-321 | the names along a joined path are those of its components in order: none lost, split, merged or made |
| `Paths.CombineKeepsNames` | Source/Nuke.System/System/IO/Path.cpp:218-280 | the names along a combined path are those of its components from the last rooted one on |
| `Paths.GetFileName` | Source/Nuke.System/System/IO/Path.cpp:322-333 | the backward scan returns what follows the last separator |
| `Paths.GetDirectoryNameOffset` | Source/Nuke.System/System/IO/Path.cpp:192-209 | the two backward scans stop at the end of the directory part, or -1 for a path that is only a root or empty |
| `Paths.GetDirectoryName` | Source/Nuke.System/System/IO/Path.cpp:345-354 | the text before that offset, empty for a root |
| `Paths.PathParts` | Source/Nuke.System/System/IO/Path.cpp:192-209 | every path longer than its root is its directory, a run of separators and its file name; the directory is the root or does not end in a separator, and meets the name directly only at the root |
| `Paths.DirectoryShortens` | Source/Nuke.System/System/IO/Path.cpp:345-354 | the directory of a non-empty path is strictly shorter, so going up ends |
| `Paths.SplitUndoesCombine` | Source/Nuke.System/System/IO/Path.cpp:322-354 | splitting a path combined with a plain name always gives back the name, and gives back the directory if and only if that is the root or does not end in a separator |
| `Paths.CombineUndoesSplit` | Source/Nuke.System/System/IO/Path.cpp:218-354 | combining directory and name gives back a path if and only if it is empty, or has a name with exactly one separator before it, or none |
| `Paths.UpTakesNamesOff` | Source/Nuke.System/System/IO/Path.cpp:345-354 | going up k times from a base combined with names removes the last k, and the file name at each level is the next one |
| `TickUnits.MagnitudeFields` | Source/Nuke.System/System/TimeSpan.cpp:130-153 | the quotient-and-remainder getters recover the digits a tick count was added up from |
| `TickUnits.MagnitudeParts` | Source/Nuke.System/System/TimeSpan.cpp:130-153 | every tick count has such digits |
| `TimeSpans.AddCorrect` | Source/Nuke.System/System/TimeSpan.cpp:209-218 | the sign test on the wrapped sum refuses exactly the sums outside int64; otherwise the sum is exact |
| `TimeSpans.SubtractCorrect` | Source/Nuke.System/System/TimeSpan.cpp:271-279 | the same for differences |
| `TimeSpans.SubtractIsAddNegation` | Source/Nuke.System/System/TimeSpan.cpp:296-303 | subtraction is addition of the negation, errors included, except for the one interval without a negation, which can be subtracted exactly from the negative ones |
| `TimeSpans.SubtractUndoesAdd` | Source/Nuke.System/System/TimeSpan.cpp:271-279 | an accepted sum minus its second part is its first part, and addition commutes |
| `TimeSpans.DurationCorrect` | Source/Nuke.System/System/TimeSpan.cpp:238-245 | refuses exactly the interval whose negation does not fit, as overflow; otherwise the non-negative one of the interval and its negation |
| `TimeSpans.CreateCorrect` | Source/Nuke.System/System/TimeSpan.cpp:97-108 | the check in milliseconds refuses exactly the totals whose ticks do not fit int64, and the ticks are otherwise exact |
| `TimeSpans.CreateFromTimeAgrees` | Source/Nuke.System/System/TimeSpan.cpp:31-41 | the constructor that counts and checks in seconds (lines 86-89) agrees with the one in milliseconds, errors included |
| `TimeSpans.FieldsOfTicks` | Source/Nuke.System/System/TimeSpan.cpp:130-153 | truncating getters recover normalised fields of either sign, with a remainder of that sign |
| `TimeSpans.Recompose` | Source/Nuke.System/System/TimeSpan.cpp:130-153 | for every interval the five fields are normalised, of one sign, and add up with the sub-millisecond remainder to the ticks |
| `TimeSpans.DaysFit` | Source/Nuke.System/System/TimeSpan.cpp:130-133 | the narrowing of the days to int32 loses nothing |
| `TimeSpans.CreateOfFields` | Source/Nuke.System/System/TimeSpan.cpp:97-108 | constructing from an interval's fields is accepted and loses only the sub-millisecond part |
| `TimeSpans.FieldsOfCreate` | Source/Nuke.System/System/TimeSpan.cpp:97-108 | the fields of a constructed interval are the arguments if and only if those were normalised and of one sign |
| `Stopwatches.StopwatchImpl.DoStart` | Source/Nuke.System/System/Diagnostics/Stopwatch.cpp:26-33 | starting a stopped watch records the reading and runs; starting a running one changes nothing |
| `Stopwatches.StopwatchImpl.DoStop` | Source/Nuke.System/System/Diagnostics/Stopwatch.cpp:35-49 | stopping a running watch adds the wrapped difference to the total, sets a negative total to zero and keeps the start reading; stopping a stopped one changes nothing |
| `Stopwatches.StopwatchImpl.DoReset` | Source/Nuke.System/System/Diagnostics/Stopwatch.cpp:51-56 | the watch is again as constructed, stopped with a zero total |
| `Stopwatches.StopwatchImpl.DoRestart` | Source/Nuke.System/System/Diagnostics/Stopwatch.cpp:58-63 | the watch runs from this reading with a zero total, whatever it did before |
| `Stopwatches.StopwatchImpl.GetRawElapsedTicks` | Source/Nuke.System/System/Diagnostics/Stopwatch.cpp:90-101 | of the object after any calls on a clock that goes forward: the number of clock instants, since the last reset or restart, at which the watch was running; no field changes |
| `Stopwatches.WatchKeepsTime` | Source/Nuke.System/System/Diagnostics/Stopwatch.cpp:26-63 | the invariant of every run on a clock that goes forward: the fields, their order against the clock, and the time they stand for; no sum wraps and the clamp never acts |
| `Stopwatches.ElapsedIsTimeRunning` | Source/Nuke.System/System/Diagnostics/Stopwatch.cpp:90-101 | after any run the reading is the clock time spent running since the last reset or restart |
| `Stopwatches.ElapsedCountsInstants` | Source/Nuke.System/System/Diagnostics/Stopwatch.cpp:90-101 | after any run the reading is the number of clock instants since the last reset or restart at which the latest operation had left the watch running |
| `Stopwatches.ElapsedNeverDecreases` | Source/Nuke.System/System/Diagnostics/Stopwatch.cpp:90-101 | no sequence of starts, stops and waiting lowers the reading |
| `Stopwatches.ReadingAfter` | Source/Nuke.System/System/Diagnostics/Stopwatch.cpp:26-63 | on any clock, backward steps and wrap-around included: a stop freezes the reading of that moment, or zero if it is negative; a start goes on from the reading; reset and restart begin at zero; starting a running watch or stopping a stopped one changes nothing |
| `Stopwatches.ElapsedNeverNegative` | Source/Nuke.System/System/Diagnostics/Stopwatch.cpp:43-47 | whatever the clock does, the stored total is never negative |
| `ConcurrentQueues.ConcurrentQueue.Enqueue` | Source/Nuke.System/System/Collections/Concurrent/ConcurrentQueue.h:14-23 | one critical section: appends to everything sent, and releases one sleeper exactly when the queue was empty and someone sleeps |
| `ConcurrentQueues.ConcurrentQueue.TryDequeue` | Source/Nuke.System/System/Collections/Concurrent/ConcurrentQueue.h:27-34 | one pass of the wait loop: returns the first value sent that no call has returned yet, to this consumer; or, released or not, the consumer goes to sleep, exactly if there is none |
| `ConcurrentQueues.ConcurrentQueue.SpuriousWakeup` | Source/Nuke.System/System/Collections/Concurrent/ConcurrentQueue.h:28-31 | a sleeper is released without a notification, and nothing else changes |
| `ConcurrentQueues.FirstInFirstOut` | Source/Nuke.System/System/Collections/Concurrent/ConcurrentQueue.h:14-35 | in every run, with any number of producers and consumers, everything sent is everything returned followed by what is queued |
| `ConcurrentQueues.KthReturnedIsKthSent` | Source/Nuke.System/System/Collections/Concurrent/ConcurrentQueue.h:25-35 | the kth value returned, to whichever consumer, is the kth value sent |
| `ConcurrentQueues.AlwaysPlaced` | Source/Nuke.System/System/Collections/Concurrent/ConcurrentQueue.h:25-35 | a consumer is never both asleep and released, and only consumers are either |
| `ConcurrentQueues.PlacesFollowSteps` | Source/Nuke.System/System/Collections/Concurrent/ConcurrentQueue.h:28-31 | in every run a consumer sleeps exactly since a pass of the loop that found everything sent already returned, and is on its way out of the wait exactly since a notification or a spurious wakeup |
| `ConcurrentQueues.EveryCallReturnsOnce` | Source/Nuke.System/System/Collections/Concurrent/ConcurrentQueue.h:25-35 | in every run, each consumer has been returned exactly one value for each of its calls, except for a call in which it is still asleep or on its way out of the wait |
| `ConcurrentQueues.OneStepEach` | Source/Nuke.System/System/Collections/Concurrent/ConcurrentQueue.h:25-35 | which step a consumer can take next, by its own last step: one kind at any time, and only a sleeper depends on others |
| `ConcurrentQueues.OneConsumerNeverOversleeps` | Source/Nuke.System/System/Collections/Concurrent/ConcurrentQueue.h:14-35 | with one consumer, in every reachable state, spurious wakeups included, an unnotified sleeper means an empty queue |
| `ConcurrentQueues.OneConsumerProgress` | Source/Nuke.System/System/Collections/Concurrent/ConcurrentQueue.h:25-35 | with one consumer and something queued, the consumer always has a step that returns the front |
| `ConcurrentQueues.TwoSleepersOversleep` | Source/Nuke.System/System/Collections/Concurrent/ConcurrentQueue.h:17-22 | with any two consumers there is a run that ends with an element queued, one of them asleep and nobody released to fetch it |
| `ConcurrentQueues.UncoveredExactly` | Source/Nuke.System/System/Collections/Concurrent/ConcurrentQueue.h:17-22 | with any number of consumers, from a state in which every queued element has a released consumer for it while others sleep, a step loses that if and only if it is an `Enqueue` into a non-empty queue, with someone asleep and no released consumer to spare |
| `ConcurrentQueues.CoveredThroughout` | Source/Nuke.System/System/Collections/Concurrent/ConcurrentQueue.h:14-35 | with any number of consumers, a run has a released consumer for every queued element at each of its states, while others sleep, if and only if none of its steps is such an `Enqueue` |
| `ConcurrentQueues.NotifyingCovers` | Source/Nuke.System/System/Collections/Concurrent/ConcurrentQueue.h:17-22 | a notification in that step would have kept it, in every reachable state: the guard on the empty queue is what loses the wakeup |
| `ConcurrentQueues.WakeupsReachOneConsumerOnly` | Source/Nuke.System/System/Collections/Concurrent/ConcurrentQueue.h:17-22 | while consumers sleep, every queued element has a released consumer for it, in every state of every run, if and only if there is at most one consumer |
| `Timers.TimerImpl.Control` | Source/Nuke.System/System/Timers/Timer.cpp:20-57 | each step of `Start`, `Stop` and the enabled setter, on the fields, whether or not the notified wait reports a timeout: the whole new state, in which flag, enabled and the history of handler calls are what the steps so far say, with the three properties of `RunsLogWell` |
| `Timers.TimerImpl.Work` | Source/Nuke.System/System/Timers/Timer.cpp:29-40 | each step of the worker's loop, on the fields: the whole new state, with the same guarantees |
| `Timers.ControllerKeepsConsistent` | Source/Nuke.System/System/Timers/Timer.cpp:20-57 | every controller step keeps the invariant on worker, mutex, flag, program counters and history |
| `Timers.WorkerKeepsConsistent` | Source/Nuke.System/System/Timers/Timer.cpp:29-40 | every worker step keeps it |
| `Timers.RunsAreConsistent` | Source/Nuke.System/System/Timers/Timer.cpp:20-57 | it holds in every reachable state of every interleaving |
| `Timers.StateFollowsSteps` | Source/Nuke.System/System/Timers/Timer.cpp:20-71 | in every run: enabled is the value last set; the flag says whether a start came after the last stop request; the mutex belongs to who last acquired and did not free it; each worker carries the outcome of its own last wait; the history of calls is what the steps report |
| `Timers.RaisesExactly` | Source/Nuke.System/System/Timers/Timer.cpp:32-39 | a worker's decision calls the handlers if and only if its last wait ended in a timeout and the timer was last set to be enabled, whether it is running or stopping |
| `Timers.WorkersRunTheLoop` | Source/Nuke.System/System/Timers/Timer.cpp:29-40 | in every run each worker's own steps come in the order of the loop (test, lock, wait, lock again, decide, handle if it decided so, unlock), and it ends only at the test |
| `Timers.ControllerFollowsSteps` | Source/Nuke.System/System/Timers/Timer.cpp:20-57 | where the controlling thread is, by its last step: starting a running timer and stopping a stopped one return at once |
| `Timers.NobodyStuck` | Source/Nuke.System/System/Timers/Timer.cpp:20-57 | in every reachable state every thread has a step, except one that waits for a mutex another thread holds and a stop that waits for its worker; the holder of the mutex always has one; a wait can always end either way |
| `Timers.AtMostOneWorkerAlive` | Source/Nuke.System/System/Timers/Timer.cpp:26-41 | of all the workers ever launched, at most one has not exited |
| `Timers.MutexExcludes` | Source/Nuke.System/System/Timers/Timer.cpp:31-53 | a worker between its lock and unlock excludes every other and the controller's critical section |
| `Timers.RunsLogWell` | Source/Nuke.System/System/Timers/Timer.cpp:20-57 | in every run: handlers are called only between a start and the return of its stop; at most one call follows a stop request before the next start; no call is in progress when a stop is requested or returns |
| `Timers.StopAlwaysReturns` | Source/Nuke.System/System/Timers/Timer.cpp:55-56 | along every continuation of a joining stop that does not yet let it return, its worker takes at most eight steps, and at each point the stop can return or the worker has a step |
| `TimerRaises.StopIsQuietExactly` | Source/Nuke.System/System/Timers/Timer.cpp:44-57 | between calls, with the timer running: some continuation without a new start and without a change of the enabled flag calls the handlers after the stop it requests, if and only if the timer is enabled |
| `TimerRaises.RaiseFollowsExactly` | Source/Nuke.System/System/Timers/Timer.cpp:29-56 | in every reachable state with the stop flag set, a handler call can still follow if and only if the timer is enabled and its worker is past the test of the flag and not woken without a timeout; when the flag has just been set that is: about to lock, waiting, or timed out and about to lock again |
| `TimerRaises.SilentRun` | Source/Nuke.System/System/Timers/Timer.cpp:29-40 | a timer that is disabled, or stopping with no call on its way, stays so in every continuation and calls no handler |
| `TimerRaises.FiresExactly` | Source/Nuke.System/System/Timers/Timer.cpp:29-40 | a running timer, left to its worker alone, comes to call its handlers in some continuation if and only if it is enabled |
| `TimerRaises.DisablingSilences` | Source/Nuke.System/System/Timers/Timer.cpp:68-71 | after it is disabled, a timer calls no handler in any continuation that does not set it again, however often it is started |
| `TimerRaises.OneRaiseCanFollowStop` | Source/Nuke.System/System/Timers/Timer.cpp:29-41 | the bound of one is reached, by a run that loses the notification between the loop's test and the wait |

## Left out

- FractionsRound: the rounding of the addition is any that keeps whole numbers and passes none; NaN, whose conversion to an integer the language leaves undefined, is not modelled.
- Encode: source and destination are different arrays, so encoding in place is not covered, nor is overflow of `encoded_size` near the largest `size_t`.
- Decode: a destination too small for the bytes of the alphabet prefix is excluded, because the source writes past its end. The inverse table is given by its ranges, and characters beyond 255 count as outside the alphabet.
- FromBase64String: excludes the texts that `DecodedSizeSuffices` shows to overflow its buffer.
- GetFileName: requires a separator in the path, because the source's unsigned index test never ends the loop and reads before the start of a path without one.
- Combine: the index over the components is unbounded here; the source's is an int.
- Enqueue: with the mutex held the whole call is one atomic step; the waiter that `notify_one` picks is an argument.
- TryDequeue: one pass of the wait loop; the loop itself is the succession of `Enter` and `Resume` steps of a run.
- OneConsumerProgress: progress is an enabled step, not fairness of the scheduler; nothing is claimed for several consumers, where it is false.
- Control: one controlling thread, whose setter may also be called by a handler; `_needStop` is treated as atomic, although the source reads it without the mutex in places.
- Work: a timeout may happen at any moment of a wait, so the interval and real time are not modelled; a handler that stops its own timer is not modelled.
- StopAlwaysReturns: assumes that handlers return and that the worker is scheduled.
- GetRawElapsedTicks: the clock's reading is an argument; scaling by the tick frequency is floating point and left out.
- `AddDays` to `AddMilliseconds`, `AddTicks(double)`, the interval factories from doubles, `Multiply`, `Divide` and the totals: floating point.
- `Now`, `UtcNow`, `Today`, file times and local time: operating system calls or not implemented in the source.
- `Date`, `SpecifyKind` and `Subtract(TimeSpan)`: the same constructor check as the members above, nothing further.
- `ToBase64String`: it passes the encoded size as the length of its source, and so reads past it.
- The timer's auto-reset flag, which the source stores and never uses.
- The Windows path branch, the generic `DivRem` template, `BinaryPrimitives`, time zones, events, tasks, string formatting, sockets, processes and files: other platforms, operating system wrappers or stubs.
