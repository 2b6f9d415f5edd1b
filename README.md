# openE57 time conversion in Dafny

This project models the time-conversion engine of openE57
(`src/lib/src/time_conversion.cpp`), which time-stamps E57 point-cloud data.
The engine converts between:

- a civil UTC date-time (year, month, day, hour, minute, seconds);
- the Julian Date (days since noon of January 1, 4713 BC);
- GPS time, written as a week number and the seconds into that week,
  counted from the GPS epoch of 1980-01-06 00:00:00 UTC.

The GPS time scale runs ahead of UTC by the leap seconds inserted since the
epoch. The engine finds that offset in a fixed table. The table gives offsets
from 0 to 15 and ends with the leap second of 2009-01-01.

The Julian Date formulas follow Hofmann-Wellenhof, Lichtenegger and Collins,
*GPS Theory and Practice*, pp. 38-42. The forward formula treats January and
February as months 13 and 14 of the previous year. The inverse is a closed-form
decomposition followed by a carry pass from seconds up to the year.

Modules, one per file:

- `Wrappers` (`wrappers.dfy`): the `Option` type. Every C++ function that
  returns `false` on failure becomes a function or method returning `None`.
- `Casts` (`casts.dfy`): the C++ numeric conversions the code relies on.
  - truncation toward zero (`static_cast<int32_t>` of a `double`);
  - `fmod(x, 1.0)`;
  - reduction to 16 bits;
  - the truncating `%` by 7.
- `Calendar` (`calendar.dfy`): leap years, month lengths, the day of the year
  and the validity check on a date-time.
- `LeapSeconds` (`leap_seconds.dfy`): the UTC offset table. The if-chain is
  related to a data-driven scan over the sorted thresholds.
- `Julian` (`julian.dfy`): UTC to Julian Date and back, including the carry
  pass.
- `Weekday` (`weekday.dfy`): the day of the week of a Julian Date.
- `Gps` (`gps.dfy`): GPS time to and from Julian Date. Also the composed
  conversions from UTC, from RINEX time, from a year and day of year, and back
  to UTC; and packing GPS time into a single value and unpacking it.

How the code is modelled:

- The straight-line C++ functions become Dafny functions.
- The step-by-step ones become methods, each proved equal to the function that
  specifies it:
  - the decomposition of a Julian Date and its carry pass;
  - the GPS week and time-of-week adjustment;
  - the four-pass offset loop of the GPS to UTC conversion;
  - the in-place advance of the Julian Date for a day of the year.
- `double` and `float` are modelled as exact reals.
- The 8- and 16-bit fields keep their widths as subset types.

## Model

| member | source | states |
|---|---|---|
| Casts.Trunc | src/lib/src/time_conversion.cpp:298 | the `int32_t` cast of a double truncates toward zero: it lies within one below a non-negative value and within one above a negative one |
| Casts.Fmod1 | src/lib/src/time_conversion.cpp:362 | `fmod(x, 1.0)` lies in [0, 1) for non-negative x and in (-1, 0] otherwise, and removing it leaves a whole number |
| Casts.ToUInt16 | src/lib/src/time_conversion.cpp:379 | the cast to `unsigned short` keeps 0..65535 and otherwise differs from its argument by a multiple of 2^16 |
| Casts.CRem7 | src/lib/src/time_conversion.cpp:216 | the C++ remainder by 7 takes the sign of the dividend and differs from it by a multiple of 7 |
| Calendar.IsLeapYear | src/lib/src/time_conversion.cpp:669-695 | a year is leap iff it is divisible by 4 and either not by 100 or by 400 |
| Calendar.DaysInMonth | src/lib/src/time_conversion.cpp:604-667 | fails iff the month is outside 1..12; otherwise 30 for April, June, September and November, 31 for the other months, and for February 29 iff the year is leap and 28 otherwise |
| Calendar.DaysBeforeMonthTable | src/lib/src/time_conversion.cpp:710-747 | summing the month lengths before each month gives the running totals that the source writes out per month, with February's length left open |
| Calendar.DayOfYear | src/lib/src/time_conversion.cpp:697-756 | fails iff the month is outside 1..12 (the day is not checked); otherwise it is the sum of the lengths of the earlier months of that year plus the day |
| Calendar.DayOfYearRange | src/lib/src/time_conversion.cpp:697-756 | for a real date the day of the year lies in 1..365, or 1..366 in a leap year, and December 31 is the last day |
| Calendar.IsUtcTimeValid | src/lib/src/time_conversion.cpp:796-839 | valid iff month in 1..12, hour at most 23, minute at most 59, seconds at most 60 (so a leap second passes), and the day within the month; the year is never checked |
| Calendar.CalendarExamples | src/lib/test/time_conversion_test.cpp:143-170 | the leap-year, month-length and day-of-year test vectors, and the rejected month 13, day 0 and February 30 |
| LeapSeconds.DetermineUtcOffset | src/lib/src/time_conversion.cpp:546-602 | fails iff the Julian Date is negative; otherwise the offset is at most 15 |
| LeapSeconds.TableOffset | src/lib/src/time_conversion.cpp:21-36 | reference definition: counting the thresholds already reached never exceeds the length of the table |
| LeapSeconds.ThresholdsSpread | src/lib/src/time_conversion.cpp:21-36 | the table has 15 thresholds, strictly ascending; each is at least 365 days after the one before, and the first is at least 365 days after the epoch |
| LeapSeconds.TableOffsetIs | src/lib/src/time_conversion.cpp:546-602 | on an ascending table the scan gives k exactly when the date lies between the k-th threshold and the next one |
| LeapSeconds.TableOffsetMonotonic | src/lib/src/time_conversion.cpp:546-602 | the scan never decreases as the date advances |
| LeapSeconds.OffsetMatchesTable | src/lib/src/time_conversion.cpp:546-602 | for every non-negative date, the if-chain equals the scan over the threshold table |
| LeapSeconds.OffsetInterval | src/lib/src/time_conversion.cpp:546-602 | for a non-negative date, the offset is k iff the date lies from threshold k (or anywhere, for 0) up to threshold k+1 (or for ever, for 15) |
| LeapSeconds.OffsetMonotonic | src/lib/src/time_conversion.cpp:546-602 | a later date never has a smaller offset |
| LeapSeconds.CorrectionSettles | src/lib/src/time_conversion.cpp:522-535 | moving a date on by its own offset in seconds gives offset k or k+1; correcting by the difference gives offset k back |
| LeapSeconds.OffsetExample | src/lib/test/time_conversion_test.cpp:132-140 | the offset at Julian Date 2459581.5 is 15 |
| Julian.JulianDateFromUtcTime | src/lib/src/time_conversion.cpp:267-301 | fails exactly when the date-time is not valid |
| Julian.JulianDateSplit | src/lib/src/time_conversion.cpp:281-299 | the Julian Date of a valid date-time is the midnight that starts the day (its day number less one half) plus the elapsed fraction of the day |
| Julian.MonthTerm | src/lib/src/time_conversion.cpp:298 | the truncated month term `30.6001 * k` for k in 4..16 is the floor, is the fixed month offset, and lies strictly below the product |
| Julian.YearTerm | src/lib/src/time_conversion.cpp:298 | the truncated year term `365.25 * y` is 365 days a year plus one day per four whole years |
| Julian.YearSpan | src/lib/src/time_conversion.cpp:298 | a year of the formula is 366 days when divisible by 4 and 365 otherwise |
| Julian.DayNumberArithmetic | src/lib/src/time_conversion.cpp:298 | from year 1 on, the day number is whole-number arithmetic in the shifted year, the month offset and the day |
| Julian.MonthBasesCountDays | src/lib/src/time_conversion.cpp:281-299 | the month offsets of the formula count the days before each month: from March 1 for March to December, and from March 1 of the year before for January and February |
| Julian.DayNumberFromYearStart | src/lib/src/time_conversion.cpp:281-299 | from year 1 on, where the formula's leap rule agrees with the Gregorian one, a date's day number is that of January 1 plus its day of the year less one |
| Julian.YearEndDayNumber | src/lib/src/time_conversion.cpp:281-299 | December 31 and the next January 1 have consecutive day numbers |
| Julian.FebruaryEndDayNumber | src/lib/src/time_conversion.cpp:281-299 | the last day of February by the every-fourth-year rule and March 1 have consecutive day numbers |
| Julian.MonthEndDayNumber | src/lib/src/time_conversion.cpp:281-299 | the last day of any other month and the first of the next have consecutive day numbers |
| Julian.Carry | src/lib/src/time_conversion.cpp:381-413 | the carry pass leaves seconds below 60 alone; otherwise it takes 60 seconds off once; it fails only when the carry reaches a month outside 1..12 |
| Julian.Rollover | src/lib/src/time_conversion.cpp:381-413 | the field-by-field carry of the source equals `Carry` |
| Julian.NextDayNumber | src/lib/src/time_conversion.cpp:392-410 | carrying 23:59:60 on a valid date gives a valid date with the next day number, across month and year ends; February needs the formula's leap rule to agree with the Gregorian one |
| Julian.LeapSecondCarry | src/lib/src/time_conversion.cpp:381-413 | an inserted leap second (seconds at least 60) carries into a valid date-time with 0 seconds and the same Julian Date |
| Julian.DecompositionBounds | src/lib/src/time_conversion.cpp:356-362 | the intermediate month index of the decomposition is in 4..15, and the day it leaves is in 1..31 |
| Julian.CivilDate | src/lib/src/time_conversion.cpp:356-379 | the date of a day number has a month in 1..12 and a day in 1..31 |
| Julian.TimeOfDay | src/lib/src/time_conversion.cpp:362-376 | hours, minutes and seconds scaled out of a day fraction are in range and add back up to the fraction |
| Julian.TimeOfDayRoundTrip | src/lib/src/time_conversion.cpp:362-376 | scaling a time of day into a fraction and back out gives the same hours, minutes and seconds |
| Julian.YearOfDayNumber | src/lib/src/time_conversion.cpp:358-359 | the year step of the decomposition recovers the shifted year from any day inside that year |
| Julian.MonthOfDayNumber | src/lib/src/time_conversion.cpp:360 | the month step of the decomposition recovers the month from any day inside that month |
| Julian.ShiftedDayBounds | src/lib/src/time_conversion.cpp:281-299 | a valid date lies from 123 to 488 days into its March-based year, inside its month, and reaches 488 only as February 29 before a year divisible by 4 |
| Julian.ShiftedDateRoundTrip | src/lib/src/time_conversion.cpp:356-379 | the decomposition inverts the day count of the March-based calendar, moving months 13 and 14 back to January and February of the next year |
| Julian.DateRoundTrip | src/lib/src/time_conversion.cpp:356-379 | the decomposition of a valid date's day number gives that date back, from year 1 on |
| Julian.UtcFromJulian | src/lib/src/time_conversion.cpp:336-423 | fails iff the Julian Date is negative; otherwise the month is in 1..12, the day in 1..31, the hour at most 23, the minute at most 59 and the seconds in [0, 60) |
| Julian.UtcTimeFromJulianDate | src/lib/src/time_conversion.cpp:336-423 | the step-by-step decomposition and carry of the source equal `UtcFromJulian` |
| Julian.UtcJulianRoundTrip | src/lib/src/time_conversion.cpp:336-423 | a valid date-time from year 1 on with seconds in [0, 60) survives the conversion to a Julian Date and back |
| Julian.CenturyGap | src/lib/src/time_conversion.cpp:298-299 | the every-fourth-year rule puts February 28 and March 1 1900 two Julian days apart |
| Julian.CenturyPhantomDay | src/lib/src/time_conversion.cpp:356-379 | the Julian Date in that gap decomposes into February 29 1900, which the validity check rejects |
| Julian.LeapSecondRoundTrip | src/lib/src/time_conversion.cpp:381-413 | a valid date-time at 60 seconds converts to a Julian Date that decomposes into the carried date-time, the first second of the next minute |
| Julian.CarryIdleOnDecomposition | src/lib/src/time_conversion.cpp:381-413 | the carry pass leaves every date-time the decomposition yields unchanged |
| Julian.YearZeroSlip | src/lib/src/time_conversion.cpp:284-299 | January 1 of year 0 converts to Julian Date 1721045.5, which decomposes into January 2 of year 0 |
| Julian.JulianExamples | src/lib/test/time_conversion_test.cpp:37-79 | 2022-01-01 23:59:60 is Julian Date 2459581.5, and that decomposes into 2022-01-02 00:00:00 |
| Weekday.WeekdayOfRemainder | src/lib/src/time_conversion.cpp:218-244 | a Monday-based remainder in 0..6 maps to the Sunday-based day one further on, modulo 7; any other remainder fails |
| Weekday.DayOfWeekFromJulianDate | src/lib/src/time_conversion.cpp:194-247 | with the day number as written, the result fails iff that number is negative and not a multiple of 7; otherwise it is one past its Monday-based remainder, modulo 7 |
| Weekday.NoonDayNumberAsWritten | src/lib/src/time_conversion.cpp:208-215 | as written, the day number is the floor of the Julian Date or one more, and one more exactly when the fraction is strictly above one half |
| Weekday.NoonDayNumber | src/lib/src/time_conversion.cpp:208-215 | corrected: the day number is the floor of the Julian Date plus one half |
| Weekday.DayOfWeekCorrected | src/lib/src/time_conversion.cpp:194-247 | the same mapping on the corrected day number |
| Weekday.AsWrittenAgreesOffMidnight | src/lib/src/time_conversion.cpp:208 | the source and the corrected versions agree whenever the date is not an exact midnight |
| Weekday.MidnightSlip | src/lib/src/time_conversion.cpp:208 | as written, the midnight that starts Sunday 2022-01-02 is reported as Saturday, while 06:00 the same day is Sunday |
| Weekday.WeekdayOfDate | src/lib/src/time_conversion.cpp:194-247 | corrected, every instant of a valid civil day has the day of the week of that day's number |
| Weekday.WeekdayAdvances | src/lib/src/time_conversion.cpp:218-244 | consecutive days have consecutive days of the week, Saturday followed by Sunday |
| Weekday.WeekdayExamples | src/lib/src/time_conversion.cpp:203-204 | the quoted example, 17:48 on Wednesday 2008-12-03, gives Wednesday; the 2022-01-02 values give Sunday |
| Gps.JulianDateFromGpsTime | src/lib/src/time_conversion.cpp:249-265 | fails iff the time of week is outside [0, 604800]; otherwise the date lies the GPS seconds less the offset after the epoch |
| Gps.GpsFromJulian | src/lib/src/time_conversion.cpp:303-334 | fails iff the date is negative; from the epoch on, the time of week is in [0, 604800]; before week 65535 the result stands for the date's seconds since the epoch plus the offset |
| Gps.GpsTimeFromJulianDate | src/lib/src/time_conversion.cpp:303-334 | the in-place week and time-of-week updates of the source equal `GpsFromJulian` |
| Gps.JulianGpsRoundTrip | src/lib/src/time_conversion.cpp:303-334 | from the epoch on, a Julian Date converts to GPS time and back to itself under the same offset |
| Gps.GpsJulianRoundTrip | src/lib/src/time_conversion.cpp:249-265 | a GPS time with time of week in [0, 604800) converts to a Julian Date and back to itself, except for time of week 0 in a week after week 0 under a positive offset |
| Gps.EndOfWeekRepresentation | src/lib/src/time_conversion.cpp:324-328 | week 2191 at 0 s under offset 15 comes back as week 2190 at 604800 s, the same instant |
| Gps.GpsTimeFromUtcTime | src/lib/src/time_conversion.cpp:425-464 | fails iff the date-time is invalid or its Julian Date is negative; from the epoch on, the result stands for the UTC seconds since the epoch plus the leap-second offset of that date |
| Gps.GpsTimeFromRinexTime | src/lib/src/time_conversion.cpp:466-499 | the same failures; from the epoch on, the result stands for the seconds since the epoch with no offset |
| Gps.UtcAheadOfRinex | src/lib/src/time_conversion.cpp:466-499 | the UTC reading is ahead of the RINEX reading of the same date-time by exactly the leap-second offset |
| Gps.Iterate | src/lib/src/time_conversion.cpp:522-535 | the state after n passes of the loop fails iff a pass was made on a time of week outside the week; the date is never negative and the offset never above 15 |
| Gps.PassLands | src/lib/src/time_conversion.cpp:522-535 | a pass from offset o on the GPS time of a date with offset k lands k - o seconds after that date and takes up the offset there |
| Gps.UtcFromGps | src/lib/src/time_conversion.cpp:501-544 | fails iff the time of week is outside [0, 604800] |
| Gps.UtcTimeFromGpsTime | src/lib/src/time_conversion.cpp:501-544 | the four-pass loop of the source, rewriting the date and the offset, equals `UtcFromGps` |
| Gps.UtcGpsRoundTrip | src/lib/src/time_conversion.cpp:501-544 | from the epoch on, a valid date-time with seconds in [0, 60) converts to GPS time and back to itself: the four passes settle on the offset of the date |
| Gps.YearStart | src/lib/src/time_conversion.cpp:773-777 | the Julian Date of January 1 at 00:00:00 of the year, which always converts |
| Gps.GpsFromYearAndDayOfYearAsWritten | src/lib/src/time_conversion.cpp:758-794 | fails iff the day of year is outside 1..366 or January 1 has a negative date; otherwise it stands for the day's seconds since the epoch plus the offset of January 1 |
| Gps.GpsTimeFromYearAndDayOfYear | src/lib/src/time_conversion.cpp:758-794 | the source's in-place advance of the Julian Date equals `GpsFromYearAndDayOfYearAsWritten` |
| Gps.GpsFromYearAndDayOfYear | src/lib/src/time_conversion.cpp:758-794 | corrected: the same, with the offset of the day itself |
| Gps.YearDayAsWrittenAgrees | src/lib/src/time_conversion.cpp:773-785 | the source and the corrected versions agree when no leap second falls between January 1 and the day |
| Gps.YearDayAgreesWithUtc | src/lib/src/time_conversion.cpp:758-794 | corrected, the GPS time of a day of the year is the GPS time of that day's midnight as a civil date, from year 1 on where the formula's leap rule agrees with the Gregorian one |
| Gps.YearDayOffsetSlip | src/lib/src/time_conversion.cpp:773-785 | as written, day 182 of 1981 comes out as week 77 at 259200 s, one second short of the civil conversion of 1981-07-01 and of the corrected version |
| Gps.GpsTimeToValue | src/lib/src/time_conversion.cpp:841-855 | fails iff the time of week is outside [0, 604800]; otherwise the value is the non-negative GPS seconds since the epoch |
| Gps.WholeWeeks | src/lib/src/time_conversion.cpp:868 | the whole weeks of an integer count of seconds, taken in floating point and truncated, are its integer quotient by 604800 |
| Gps.GpsTimeFromValue | src/lib/src/time_conversion.cpp:857-871 | fails iff the value is not positive; otherwise the time of week is in [0, 604800) and the GPS time stands for the value |
| Gps.ValueRoundTrip | src/lib/src/time_conversion.cpp:857-871 | a positive value below 2^31 unpacks and packs back to itself |
| Gps.GpsValueRoundTrip | src/lib/src/time_conversion.cpp:841-855 | a GPS time with time of week in [0, 604800) and a value in (0, 2^31) packs and unpacks back to itself |
| Gps.LeapSecondOscillation | src/lib/src/time_conversion.cpp:501-544 | for week 1512 at 345614 s the offsets after passes one to four are 15, 14, 15, 14, and the result is 2008-12-31 23:59:59 rather than the leap second |
| Gps.GpsExamples | src/lib/test/time_conversion_test.cpp:48-181 | week 2191 at 15 s under offset 15 is Julian Date 2459581.5 both ways; it is 2022-01-01 23:59:60 UTC, converts back to 2022-01-02 00:00:00, and is day 2 of 2022 |
| Gps.TableEndsIn2009 | src/lib/src/time_conversion.cpp:557-588 | the leap seconds of 2012-07-01, 2015-07-01 and 2017-01-01 fall at Julian Dates 2456109.5, 2457204.5 and 2457754.5, where the offset is still 15 |
| Gps.ValueExamples | src/lib/test/api_time_conversion_test.cpp:10-21 | week 2191 at 15 s is the value 1325116815 both ways; week 0 at 0 s packs to 0, which does not unpack |

## Left out

- The clock readers `current_system_time`, `current_julian_date`, `current_gps_time` and `current_utc_time` (src/lib/src/time_conversion.cpp:55-192) are left out: they read the host clock.
- The `ERROR_MESSAGE` logging macro is left out. A failure is a plain `None`.
- `src/lib/src/api.cpp` is not part of this model: it only wraps the clock or returns defaults.
- Floating point: `double` and `float` are exact reals. IEEE rounding is not modelled. Neither is the narrowing of the seconds to `float` at :376 and :420.
- Integer widths: the 32-bit casts of the decomposition (:356-360) are modelled as unbounded floors, so Julian Dates of 2^31 days or more are not modelled. The 16-bit cast of the year and the year carry are modelled by reduction modulo 2^16.
- Gps.GpsFromJulian: the cast of the week count to `unsigned short` at :317 is undefined unless the count truncates into 0..65535. The model states this as the precondition `WeekCastDefined` and does not model what happens otherwise. The same precondition carries over to the conversions from UTC, RINEX time and a day of the year.
- Gps.GpsFromJulian: the week rollover at :324-325 wraps past 65535 by reduction modulo 2^16. The seconds-since-epoch equation is stated only before week 65535.
- Gps.GpsTimeFromValue: the whole seconds go through `int32_t` at :868. The model requires a value below 2^31 rather than modelling the undefined cast.
- Time of week 604800: the comments give the range as (0-604800.0). The code admits 604800 (:256, :515, :846) and rolls over only beyond it (:324), so a week boundary has two spellings (`Gps.EndOfWeekRepresentation`).
- Julian.JulianDateFromUtcTime: the function's own contract states only when it fails. Its value is characterised by `Julian.JulianDateSplit`, which is proved separately, and its round trip by `Julian.UtcJulianRoundTrip`.
- Julian.UtcJulianRoundTrip: the round trip is stated from year 1 on and for seconds in [0, 60). A leap second of 60 comes back as the first second of the next minute (`Julian.LeapSecondRoundTrip`). A negative seconds value, which the validity check admits, is not covered. Year 0 is excluded because the round trip fails there: truncating `365.25 * -1` at :298 gives -365 rather than -366, so January and February of year 0 come back one day late (`Julian.YearZeroSlip`).
- Julian.UtcTimeFromJulianDate: with exact reals the decomposition always leaves seconds below 60, so the carry pass never fires on this path (`Julian.CarryIdleOnDecomposition`). In the source it is reached only through the rounding of the seconds to `float` at :376, which is not modelled.
- Gps.UtcGpsRoundTrip: a GPS time inside an inserted leap second is not covered. There the four passes at :522-535 alternate between two offsets and the result depends on the parity of the pass count; `Gps.LeapSecondOscillation` shows week 1512 at 345614 s (2008-12-31 23:59:60 UTC) coming back as 23:59:59.
- The formula's leap rule (every fourth year) agrees with the Gregorian calendar only from March 1900 to February 2100. `Julian.CenturyGap` and `Julian.CenturyPhantomDay` document the discrepancy. Lemmas that relate consecutive days require the two rules to agree.
- The leap seconds of 2012-07-01, 2015-07-01 and 2017-01-01 are absent from the table at :21-36 and :557-588, so from 2012-07-01 on the offset stays at 15 (`Gps.TableEndsIn2009`). The model follows the table as written.
- The header's remark that the largest offset is 13 (src/lib/include/openE57/impl/time_conversion.h:168) is stale. The table and the code go to 15, and the model follows the code.

## Findings

| source | as written | input that shows it | evidently intended | confidence | as-written member | corrected member |
|---|---|---|---|---|---|---|
| src/lib/src/time_conversion.cpp:208 | the day number moves on to the next noon only when the fraction of the Julian Date is strictly above one half | Julian Date 2459581.5, the midnight that starts Sunday 2022-01-02, gives Saturday (6), while 2459581.75, later the same day, gives Sunday (0) | the comment rounds the twelve hours before noon up, so midnight (fraction exactly one half) belongs to the day it starts; `Weekday.WeekdayOfDate` proves every instant of a day then gets that day's weekday | high, not executed | Weekday.MidnightSlip | Weekday.DayOfWeekCorrected |
| src/lib/src/time_conversion.cpp:773-785 | the UTC offset is looked up at January 1 and the Julian Date only then moved on to the requested day | year 1981, day 182 (1981-07-01, when the first leap second took effect) gives week 77 at 259200 s, while the UTC conversion of 1981-07-01 00:00:00 gives week 77 at 259201 s | the offset of the requested day itself, so that the result is the GPS time of that day's midnight; `Gps.YearDayAgreesWithUtc` proves the corrected version agrees with the UTC conversion | medium, not executed | Gps.YearDayOffsetSlip | Gps.GpsFromYearAndDayOfYear |
