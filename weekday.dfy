/** Day of the week of a Julian Date: the number of the nearest noon, taken
    modulo 7 (0 for Monday), mapped to 0 for Sunday through 6 for Saturday. */
module Weekday {
  import opened Wrappers
  import opened Casts
  import opened Calendar
  import opened Julian

  /** The switch of the source: remainder 0 (Monday) to 1, ..., 5 (Saturday)
      to 6 and 6 (Sunday) to 0; any other remainder, which only a negative day
      number yields, fails. */
  function WeekdayOfRemainder(dow: int): (r: Option<uint8>)
    ensures r.Some? <==> 0 <= dow <= 6
    ensures r.Some? ==> r.value == (dow + 1) % 7
  {
    match dow
    case 0 => Some(1)
    case 1 => Some(2)
    case 2 => Some(3)
    case 3 => Some(4)
    case 4 => Some(5)
    case 5 => Some(6)
    case 6 => Some(0)
    case _ => None
  }

  /** The day number the source assigns to `jd`: its floor, moved on to the
      next noon only when the fraction is strictly past one half. */
  function NoonDayNumberAsWritten(jd: real): (n: int)
    ensures jd.Floor <= n <= jd.Floor + 1
    ensures n == jd.Floor + 1 <==> jd - jd.Floor as real > 0.5
  {
    if jd - jd.Floor as real > 0.5 then (jd + 0.5).Floor else jd.Floor
  }

  /** Day of the week as the source computes it, with the truncating `%` of
      C++. It fails only for a negative day number that is not a multiple of
      7; otherwise it is one past the Monday-based remainder. */
  function DayOfWeekFromJulianDate(jd: real): (r: Option<uint8>)
    ensures var n := NoonDayNumberAsWritten(jd);
            && (r.None? <==> n < 0 && n % 7 != 0)
            && (r.Some? ==> r.value == (n % 7 + 1) % 7)
  {
    WeekdayOfRemainder(CRem7(NoonDayNumberAsWritten(jd)))
  }

  /** The day number with the comparison the rounding rule calls for: a
      fraction of one half, midnight, already belongs to the next noon. */
  function NoonDayNumber(jd: real): (n: int)
    ensures n == (jd + 0.5).Floor
  {
    if jd - jd.Floor as real >= 0.5 then (jd + 0.5).Floor else jd.Floor
  }

  /** Day of the week on the corrected day number. */
  function DayOfWeekCorrected(jd: real): (r: Option<uint8>)
    ensures var n := NoonDayNumber(jd);
            && (r.None? <==> n < 0 && n % 7 != 0)
            && (r.Some? ==> r.value == (n % 7 + 1) % 7)
  {
    WeekdayOfRemainder(CRem7(NoonDayNumber(jd)))
  }

  /** The two versions disagree only at exact midnight, when the fraction is
      one half. */
  lemma AsWrittenAgreesOffMidnight(jd: real)
    requires jd - jd.Floor as real != 0.5
    ensures DayOfWeekFromJulianDate(jd) == DayOfWeekCorrected(jd)
  {
    assert NoonDayNumberAsWritten(jd) == NoonDayNumber(jd);
  }

  /** As written, the midnight that starts Sunday 2022-01-02 is reported as
      Saturday (6), while six hours later the same civil day is Sunday (0). */
  lemma MidnightSlip()
    ensures UtcFromJulian(2459581.5) == Some(UtcTime(2022, 1, 2, 0, 0, 0.0))
    ensures DayOfWeekFromJulianDate(2459581.5) == Some(6)
    ensures JulianDateFromUtcTime(UtcTime(2022, 1, 2, 6, 0, 0.0)) == Some(2459581.75)
    ensures DayOfWeekFromJulianDate(2459581.75) == Some(0)
  {
    JulianExamples();
    assert JulianDateFromUtcTime(UtcTime(2022, 1, 2, 6, 0, 0.0)) == Some(2459581.75) by {
      JulianDateSplit(UtcTime(2022, 1, 2, 6, 0, 0.0));
      JulianDateSplit(UtcTime(2022, 1, 2, 0, 0, 0.0));
      UtcJulianRoundTrip(UtcTime(2022, 1, 2, 0, 0, 0.0));
    }
    assert NoonDayNumberAsWritten(2459581.5) == 2459581;
    assert NoonDayNumberAsWritten(2459581.75) == 2459582;
  }

  /** Corrected, every instant of a civil day, from its midnight up to the
      next, has the same day of the week: the one of the day's number. */
  lemma WeekdayOfDate(t: UtcTime)
    requires IsUtcTimeValid(t) && 1 <= t.year && 0.0 <= t.seconds < 60.0
    ensures DayOfWeekCorrected(JulianDateFromUtcTime(t).value) == Some((DayNumber(t) % 7 + 1) % 7)
  {
    JulianDateSplit(t);
    TimeOfDayRoundTrip(t.hour, t.minute, t.seconds);
    DateRoundTrip(t);
    FloorIs(JulianDateFromUtcTime(t).value + 0.5, DayNumber(t));
  }

  /** Consecutive day numbers have consecutive days of the week, Saturday (6)
      being followed by Sunday (0). */
  lemma WeekdayAdvances(n: int)
    requires 0 <= n
    ensures DayOfWeekCorrected(n as real + 1.0).value == (DayOfWeekCorrected(n as real).value + 1) % 7
  {
    assert NoonDayNumber(n as real) == n;
    assert NoonDayNumber(n as real + 1.0) == n + 1;
  }

  /** The worked example the source quotes: at 17:48 UTC on Wednesday
      2008-12-03 the nearest noon is day 2454804, remainder 2, Wednesday (3);
      and Sunday 2022-01-02 at noon is 0. */
  lemma WeekdayExamples()
    ensures DayOfWeekFromJulianDate(2454804.2416666) == Some(3)
    ensures DayOfWeekCorrected(2454804.2416666) == Some(3)
    ensures DayOfWeekCorrected(2459581.5) == Some(0)
    ensures DayOfWeekFromJulianDate(2459582.0) == Some(0)
  {
    assert NoonDayNumberAsWritten(2454804.2416666) == 2454804;
    assert NoonDayNumberAsWritten(2459582.0) == 2459582;
  }
}
