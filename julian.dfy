/** Civil UTC date-time to and from Julian Date, after Hofmann-Wellenhof,
    Lichtenegger and Collins, GPS Theory and Practice, pp. 38-42, with the
    carry pass of the decomposition. */
module Julian {
  import opened Wrappers
  import opened Casts
  import opened Calendar

  /** The fraction of a day elapsed at `hour:minute:seconds`. */
  function DayFraction(hour: int, minute: int, seconds: real): real
  {
    hour as real / 24.0 + minute as real / 1440.0 + seconds / 86400.0
  }

  /** The year of the formula: January and February count as months 13 and 14
      of the previous year. */
  function ShiftedYear(t: UtcTime): int
  {
    if t.month <= 2 then t.year - 1 else t.year
  }

  function ShiftedMonth(t: UtcTime): int
  {
    if t.month <= 2 then t.month + 12 else t.month
  }

  /** Julian Date of a civil UTC date-time; fails exactly when the date-time is
      not valid. The time of day is carried in the fraction: taking it away
      leaves a midnight, which falls on a half day. */
  function JulianDateFromUtcTime(t: UtcTime): (r: Option<real>)
    ensures r.None? <==> !IsUtcTimeValid(t)
  {
    if !IsUtcTimeValid(t) then None
    else
      var y := ShiftedYear(t) as real;
      var m := ShiftedMonth(t) as real;
      Some(Trunc(365.25 * y) as real + Trunc(30.6001 * (m + 1.0)) as real + t.day as real
           + t.hour as real / 24.0 + t.minute as real / 1440.0 + t.seconds / 86400.0 + 1720981.5)
  }

  /** Truncations of `30.6001 * k` for k = 4..16: the day offsets of the months
      of the formula's March-based year. */
  const MonthBases: seq<int> := [122, 153, 183, 214, 244, 275, 306, 336, 367, 397, 428, 459, 489]

  lemma MonthTerm(k: int)
    requires 4 <= k <= 16
    ensures Trunc(30.6001 * k as real) == (30.6001 * k as real).Floor == MonthBases[k - 4]
    ensures (MonthBases[k - 4] as real) < 30.6001 * k as real < (MonthBases[k - 4] + 1) as real
  {
    if k == 4 {} else if k == 5 {} else if k == 6 {} else if k == 7 {}
    else if k == 8 {} else if k == 9 {} else if k == 10 {} else if k == 11 {}
    else if k == 12 {} else if k == 13 {} else if k == 14 {} else if k == 15 {}
    else {}
  }

  /** `30.6001 * k` is never a whole number on 4..16, so its truncation lies
      strictly below it: this is what the extra 0.0001 in the formula is for. */
  lemma MonthTermFractional(k: int)
    requires 4 <= k <= 16
    ensures ((30.6001 * k as real).Floor as real) < 30.6001 * k as real
  {
    MonthTerm(k);
  }

  /** Truncating `365.25 * y` counts one extra day per four whole years. */
  lemma YearTerm(y: int)
    requires 0 <= y
    ensures Trunc(365.25 * y as real) == (365.25 * y as real).Floor == 365 * y + y / 4
  {
    var q, r := y / 4, y % 4;
    assert y == 4 * q + r;
    assert 365.25 * y as real == (365 * y + q) as real + r as real / 4.0;
    FloorIs(365.25 * y as real, 365 * y + q);
  }

  /** The carry pass applied after the decomposition: seconds of 60 or more
      move one minute on, and a full minute, hour or day carries into the next
      field. The length of the month is looked up only when a day is carried
      (the only way to fail), against the month before it is incremented. */
  function Carry(year: uint16, month: uint8, day: uint8, hour: uint8, minute: uint8, seconds: real): (r: Option<UtcTime>)
    requires month <= 12 && day <= 31 && hour <= 23 && minute <= 59
    ensures r.None? <==> 60.0 <= seconds && minute == 59 && hour == 23 && (month < 1 || 12 < month)
    ensures seconds < 60.0 ==> r == Some(UtcTime(year, month, day, hour, minute, seconds))
    ensures 60.0 <= seconds && r.Some? ==> r.value.seconds == seconds - 60.0
  {
    if 60.0 <= seconds then
      var seconds' := seconds - 60.0;
      var minute' := minute + 1;
      if 60 <= minute' then
        var minute'' := minute' - 60;
        var hour' := hour + 1;
        if 24 <= hour' then
          var hour'' := hour' - 24;
          var day' := day + 1;
          match DaysInMonth(year, month)
          case None => None
          case Some(daysInMonth) =>
            if day' > daysInMonth then
              var month' := month + 1;
              if month' > 12 then Some(UtcTime(ToUInt16(year as int + 1), 1, 1, hour'', minute'', seconds'))
              else Some(UtcTime(year, month', 1, hour'', minute'', seconds'))
            else Some(UtcTime(year, month, day', hour'', minute'', seconds'))
        else Some(UtcTime(year, month, day, hour', minute'', seconds'))
      else Some(UtcTime(year, month, day, hour, minute', seconds'))
    else Some(UtcTime(year, month, day, hour, minute, seconds))
  }

  /** The carry pass as the source runs it, updating the fields in turn. */
  method Rollover(year: uint16, month: uint8, day: uint8, hour: uint8, minute: uint8, seconds: real)
    returns (r: Option<UtcTime>)
    requires month <= 12 && day <= 31 && hour <= 23 && minute <= 59
    ensures r == Carry(year, month, day, hour, minute, seconds)
  {
    var y, mo, d, h, mi, s := year, month, day, hour, minute, seconds;
    if s >= 60.0 {
      s := s - 60.0;
      mi := mi + 1;
      if mi >= 60 {
        mi := mi - 60;
        h := h + 1;
        if h >= 24 {
          h := h - 24;
          d := d + 1;
          var daysInMonth := DaysInMonth(y, mo);
          if daysInMonth.None? {
            return None;
          }
          if d > daysInMonth.value {
            d := 1;
            mo := mo + 1;
            if mo > 12 {
              mo := 1;
              y := ToUInt16(y as int + 1);
            }
          }
        }
      }
    }
    r := Some(UtcTime(y, mo, d, h, mi, s));
  }

  /** The intermediate values of the decomposition stay in range for every
      day number reached from a non-negative Julian Date: `e` is a month of the
      March-based year (4..15) and the day lies in 1..31. */
  lemma DecompositionBounds(b: int, c: int, d: int, e: int)
    requires 1537 <= b
    requires c == ((b as real - 122.1) / 365.25).Floor
    requires d == (365.25 * c as real).Floor
    requires e == ((b - d) as real / 30.6001).Floor
    ensures 4 <= e <= 15
    ensures 1 <= b - d - (30.6001 * e as real).Floor <= 31
  {
    assert 3 <= c;
    assert 123 <= b - d <= 488;
    MonthTermFractional(e);
    MonthTermFractional(e + 1);
  }

  /** Calendar date of the day number `a` (the Julian Date plus half a day,
      truncated), before the year is cast to 16 bits: the closed-form
      decomposition of the source. Every date it yields has a month in 1..12
      and a day in 1..31. Every operand here is positive, so the source's
      truncating casts are floors. */
  function CivilDate(a: int): (date: (int, int, int))
    requires 0 <= a
    ensures 1 <= date.1 <= 12 && 1 <= date.2 <= 31
  {
    var b := a + 1537;
    var c := ((b as real - 122.1) / 365.25).Floor;
    var d := (365.25 * c as real).Floor;
    var e := ((b - d) as real / 30.6001).Floor;
    DecompositionBounds(b, c, d, e);
    var month := e - 1 - 12 * (e / 14);
    (c - 4715 - ((7.0 + month as real) / 10.0).Floor, month, b - d - (30.6001 * e as real).Floor)
  }

  /** Hours, minutes and seconds of the fraction `f` of a day, scaled out one
      unit at a time. They are in range and add back up to `f`. */
  function TimeOfDay(f: real): (time: (int, int, real))
    requires 0.0 <= f < 1.0
    ensures 0 <= time.0 <= 23 && 0 <= time.1 <= 59 && 0.0 <= time.2 < 60.0
    ensures DayFraction(time.0, time.1, time.2) == f
  {
    var hours := f * 24.0;
    var hour := hours.Floor;
    var minutes := (hours - hour as real) * 60.0;
    var minute := minutes.Floor;
    (hour, minute, (minutes - minute as real) * 60.0)
  }

  /** Julian Date to civil UTC date-time, as a function of the Julian Date:
      the date of the day number, the time of the fraction of the day, then
      the carry pass. Fails exactly for a negative Julian Date; every field it
      yields is in range. */
  function UtcFromJulian(jd: real): (r: Option<UtcTime>)
    ensures r.None? <==> jd < 0.0
    ensures r.Some? ==>
      && 1 <= r.value.month <= 12 && 1 <= r.value.day <= 31
      && r.value.hour <= 23 && r.value.minute <= 59
      && 0.0 <= r.value.seconds < 60.0
  {
    if jd < 0.0 then None
    else
      var (year, month, day) := CivilDate((jd + 0.5).Floor);
      var (hour, minute, seconds) := TimeOfDay(Fmod1(jd + 0.5));
      Carry(ToUInt16(year), month, day, hour, minute, seconds)
  }

  /** Julian Date to civil UTC date-time as the source computes it: the day
      and its fraction are summed, then the sum is scaled step by step into
      day, hours, minutes and seconds, and the carry pass runs. */
  method UtcTimeFromJulianDate(jd: real) returns (r: Option<UtcTime>)
    ensures r == UtcFromJulian(jd)
  {
    if jd < 0.0 {
      return None;
    }
    var a := (jd + 0.5).Floor;
    var b := a + 1537;
    var c := ((b as real - 122.1) / 365.25).Floor;
    var d := (365.25 * c as real).Floor;
    var e := ((b - d) as real / 30.6001).Floor;
    DecompositionBounds(b, c, d, e);
    var f := Fmod1(jd + 0.5);

    var td := (b - d - (30.6001 * e as real).Floor) as real + f;
    FloorIs(td, b - d - (30.6001 * e as real).Floor);
    var day: uint8 := td.Floor;
    td := td - day as real;
    assert td == f;
    td := td * 24.0;
    var hour: uint8 := td.Floor;
    td := td - hour as real;
    td := td * 60.0;
    var minute: uint8 := td.Floor;
    td := td - minute as real;
    td := td * 60.0;
    var seconds := td;
    assert TimeOfDay(f) == (hour as int, minute as int, seconds);

    var month: uint8 := e - 1 - 12 * (e / 14);
    var year := ToUInt16(c - 4715 - ((7.0 + month as real) / 10.0).Floor);
    assert CivilDate(a) == (c - 4715 - ((7.0 + month as real) / 10.0).Floor, month as int, day as int);
    assert UtcFromJulian(jd) == Carry(year, month, day, hour, minute, seconds);
    r := Rollover(year, month, day, hour, minute, seconds);
  }

  /** The day number of a date: the Julian Date of its noon. */
  function DayNumber(t: UtcTime): int
  {
    Trunc(365.25 * ShiftedYear(t) as real) + Trunc(30.6001 * (ShiftedMonth(t) + 1) as real) + t.day + 1720982
  }

  /** The Julian Date of a valid date-time is the midnight that starts its day,
      half a day before the day number, plus the time of day. */
  lemma JulianDateSplit(t: UtcTime)
    requires IsUtcTimeValid(t)
    ensures JulianDateFromUtcTime(t).value == DayNumber(t) as real - 0.5 + DayFraction(t.hour, t.minute, t.seconds)
  {
  }

  /** Scaling the fraction of a day out again gives the same time of day. */
  lemma TimeOfDayRoundTrip(hour: int, minute: int, seconds: real)
    requires 0 <= hour <= 23 && 0 <= minute <= 59 && 0.0 <= seconds < 60.0
    ensures 0.0 <= DayFraction(hour, minute, seconds) < 1.0
    ensures TimeOfDay(DayFraction(hour, minute, seconds)) == (hour, minute, seconds)
  {
    var f := DayFraction(hour, minute, seconds);
    var hours := f * 24.0;
    assert hours == hour as real + (minute as real + seconds / 60.0) / 60.0;
    FloorIs(hours, hour);
    var minutes := (hours - hour as real) * 60.0;
    assert minutes == minute as real + seconds / 60.0;
    FloorIs(minutes, minute);
  }

  /** With `y` years of 365 days and one leap day per four, the days `x` into
      the March-based year give back year `y` (offset by 4716) as long as `x`
      stays within that year; 488 is reached only in the year before a leap
      year, whose February has 29 days. */
  lemma YearOfDayNumber(y: int, x: int)
    requires 0 <= y && 123 <= x <= 488
    requires x == 488 ==> y % 4 == 3
    ensures var b := 365 * y + y / 4 + x + 1722519;
            && ((b as real - 122.1) / 365.25).Floor == y + 4716
            && (365.25 * (y + 4716) as real).Floor == 365 * y + y / 4 + 1722519
  {
    var b := 365 * y + y / 4 + x + 1722519;
    assert 4 * (y / 4) + y % 4 == y;
    FloorIs((b as real - 122.1) / 365.25, y + 4716);
    YearTerm(y + 4716);
  }

  /** `day` days into month `m` of the March-based year give back month
      `m + 1` of the formula, as long as the day stays within the month. */
  lemma MonthOfDayNumber(m: int, day: int)
    requires 3 <= m <= 14 && 1 <= day
    requires (30.6001 * (m + 1) as real).Floor + day <= (30.6001 * (m + 2) as real).Floor
    ensures (((30.6001 * (m + 1) as real).Floor + day) as real / 30.6001).Floor == m + 1
  {
    MonthTermFractional(m + 2);
    FloorIs(((30.6001 * (m + 1) as real).Floor + day) as real / 30.6001, m + 1);
  }

  /** Days into the March-based year of a valid date: at least 123 (March 1)
      and within the month; 488 (February 29) only in the year before a year
      divisible by 4. */
  lemma ShiftedDayBounds(t: UtcTime)
    requires IsUtcTimeValid(t) && 1 <= t.year
    ensures var y, m := ShiftedYear(t), ShiftedMonth(t);
            var x := (30.6001 * (m + 1) as real).Floor + t.day;
            && 123 <= x <= 488
            && (x == 488 ==> y % 4 == 3)
            && x <= (30.6001 * (m + 2) as real).Floor
  {
    var m := ShiftedMonth(t);
    MonthTerm(m + 1);
    MonthTerm(m + 2);
    match t.month
    case 1 => case 2 => case 3 => case 4 => case 5 => case 6 =>
    case 7 => case 8 => case 9 => case 10 => case 11 => case 12 =>
  }

  /** The decomposition inverts the day count of the March-based calendar:
      `y` shifted years, month `m` (3..14, January and February being 13 and
      14) and a day within that month. */
  lemma ShiftedDateRoundTrip(y: int, m: int, day: int)
    requires 0 <= y && 3 <= m <= 14 && 1 <= day
    requires var x := (30.6001 * (m + 1) as real).Floor + day;
             x <= (30.6001 * (m + 2) as real).Floor && x <= 488 && (x == 488 ==> y % 4 == 3)
    ensures CivilDate(365 * y + y / 4 + (30.6001 * (m + 1) as real).Floor + day + 1720982)
         == (if m <= 12 then (y, m, day) else (y + 1, m - 12, day))
  {
    var x := (30.6001 * (m + 1) as real).Floor + day;
    var b := 365 * y + y / 4 + x + 1722519;
    var c := ((b as real - 122.1) / 365.25).Floor;
    var d := (365.25 * c as real).Floor;
    var e := ((b - d) as real / 30.6001).Floor;
    var month := e - 1 - 12 * (e / 14);
    assert CivilDate(b - 1537)
        == (c - 4715 - ((7.0 + month as real) / 10.0).Floor, month, b - d - (30.6001 * e as real).Floor);
    assert c == y + 4716 && b - d == x by {
      YearOfDayNumber(y, x);
    }
    assert e == m + 1 by {
      MonthOfDayNumber(m, day);
    }
    assert e / 14 == if m <= 12 then 0 else 1;
    assert ((7.0 + month as real) / 10.0).Floor == if m <= 12 then 1 else 0 by {
      FloorIs((7.0 + month as real) / 10.0, if m <= 12 then 1 else 0);
    }
  }

  /** The date survives the decomposition of its day number, for every valid
      date from year 1 on. */
  lemma DateRoundTrip(t: UtcTime)
    requires IsUtcTimeValid(t) && 1 <= t.year
    ensures 0 <= DayNumber(t)
    ensures CivilDate(DayNumber(t)) == (t.year as int, t.month as int, t.day as int)
  {
    var y, m := ShiftedYear(t), ShiftedMonth(t);
    YearTerm(y);
    MonthTerm(m + 1);
    ShiftedDayBounds(t);
    ShiftedDateRoundTrip(y, m, t.day);
  }

  /** Decomposing the Julian Date of a valid date-time gives that date-time
      back, for every year from 1 on and seconds in [0, 60). */
  lemma UtcJulianRoundTrip(t: UtcTime)
    requires IsUtcTimeValid(t) && 1 <= t.year && 0.0 <= t.seconds < 60.0
    ensures UtcFromJulian(JulianDateFromUtcTime(t).value) == Some(t)
  {
    var jd := JulianDateFromUtcTime(t).value;
    JulianDateSplit(t);
    TimeOfDayRoundTrip(t.hour, t.minute, t.seconds);
    DateRoundTrip(t);
    var n := DayNumber(t);
    FloorIs(jd + 0.5, n);
    assert Fmod1(jd + 0.5) == DayFraction(t.hour, t.minute, t.seconds);
  }

  /** December 31 and the following January 1 have consecutive day numbers. */
  lemma YearEndDayNumber(year: int)
    requires 1 <= year < 0xFFFF
    ensures DayNumber(UtcTime(year + 1, 1, 1, 0, 0, 0.0)) == DayNumber(UtcTime(year, 12, 31, 0, 0, 0.0)) + 1
  {
    YearTerm(year);
    MonthTerm(13);
    MonthTerm(14);
  }

  /** The last day of February, by the formula's every-fourth-year rule, and
      March 1 have consecutive day numbers. */
  lemma FebruaryEndDayNumber(year: int)
    requires 1 <= year <= 0xFFFF
    ensures var last := if year % 4 == 0 then 29 else 28;
            DayNumber(UtcTime(year, 3, 1, 0, 0, 0.0)) == DayNumber(UtcTime(year, 2, last, 0, 0, 0.0)) + 1
  {
    YearTerm(year - 1);
    YearTerm(year);
    MonthTerm(4);
    MonthTerm(15);
    assert year / 4 - (year - 1) / 4 == if year % 4 == 0 then 1 else 0;
  }

  /** The last day of any other month and the first of the next have
      consecutive day numbers. */
  lemma MonthEndDayNumber(t: UtcTime)
    requires IsUtcTimeValid(t) && t.month != 2 && t.month != 12
    requires t.day == DaysInMonth(t.year, t.month).value
    ensures DayNumber(UtcTime(t.year, t.month + 1, 1, 0, 0, 0.0)) == DayNumber(t) + 1
  {
    var m := ShiftedMonth(t);
    MonthTerm(m + 1);
    MonthTerm(m + 2);
    match t.month
    case 1 => case 3 => case 4 => case 5 => case 6 =>
    case 7 => case 8 => case 9 => case 10 => case 11 =>
  }

  /** From year 1 on, the day number is whole-number arithmetic: 365 days a
      year, a leap day every fourth year, and the month offsets. */
  lemma DayNumberArithmetic(t: UtcTime)
    requires 1 <= t.year && 1 <= t.month <= 12
    ensures var y := ShiftedYear(t);
            DayNumber(t) == 365 * y + y / 4 + MonthBases[ShiftedMonth(t) - 3] + t.day + 1720982
  {
    YearTerm(ShiftedYear(t));
    MonthTerm(ShiftedMonth(t) + 1);
  }

  /** The month offsets of the formula count the days before each month: from
      March 1 for March to December, from March 1 of the year before for
      January and February. */
  lemma MonthBasesCountDays(year: uint16, m: int)
    requires 1 <= m <= 12
    ensures 3 <= m ==> MonthBases[m - 3] - 63 + (if IsLeapYear(year) then 1 else 0) == DaysBeforeMonth(year, m)
    ensures m <= 2 ==> MonthBases[m + 9] - 428 == DaysBeforeMonth(year, m)
  {
    DaysBeforeMonthTable(year, m);
    match m
    case 1 => case 2 => case 3 => case 4 => case 5 => case 6 =>
    case 7 => case 8 => case 9 => case 10 => case 11 => case 12 =>
  }

  /** Counted from January 1 of its year, a date lies as many days on as its
      ordinal day less one, in any year where the formula's leap rule (every
      fourth year) agrees with the Gregorian one. */
  lemma DayNumberFromYearStart(t: UtcTime)
    requires IsUtcTimeValid(t) && 1 <= t.year
    requires IsLeapYear(t.year) <==> t.year % 4 == 0
    ensures DayNumber(t) == DayNumber(UtcTime(t.year, 1, 1, 0, 0, 0.0)) + DayOfYear(t.year, t.month, t.day).value - 1
  {
    var y := t.year;
    DayNumberArithmetic(t);
    DayNumberArithmetic(UtcTime(y, 1, 1, 0, 0, 0.0));
    MonthBasesCountDays(y, t.month as int);
    assert y / 4 - (y - 1) / 4 == if y % 4 == 0 then 1 else 0;
  }

  /** A year of the formula is 365 days, 366 when the year is divisible by 4. */
  lemma YearSpan(y: int)
    requires 1 <= y
    ensures Trunc(365.25 * y as real) - Trunc(365.25 * (y - 1) as real) == if y % 4 == 0 then 366 else 365
  {
    YearTerm(y - 1);
    YearTerm(y);
    assert y / 4 - (y - 1) / 4 == if y % 4 == 0 then 1 else 0;
  }

  /** The day after a valid date, as the carry pass forms it, is valid and has
      the next day number. February needs the formula's leap rule (every fourth
      year) to agree with the Gregorian one, and December 31 a year that does
      not wrap around 16 bits. */
  lemma NextDayNumber(t: UtcTime)
    requires IsUtcTimeValid(t) && 1 <= t.year < 0xFFFF
    requires t.hour == 23 && t.minute == 59 && 60.0 <= t.seconds
    requires t.month == 2 ==> (IsLeapYear(t.year) <==> t.year % 4 == 0)
    ensures var u := Carry(t.year, t.month, t.day, t.hour, t.minute, t.seconds);
            && u.Some? && IsUtcTimeValid(u.value)
            && DayNumber(u.value) == DayNumber(t) + 1
  {
    var u := Carry(t.year, t.month, t.day, t.hour, t.minute, t.seconds).value;
    var dim := DaysInMonth(t.year, t.month).value;
    if t.day < dim {
      assert u == UtcTime(t.year, t.month, t.day + 1, 0, 0, t.seconds - 60.0);
    } else if t.month == 12 {
      assert u == UtcTime(t.year + 1, 1, 1, 0, 0, t.seconds - 60.0);
      YearEndDayNumber(t.year);
    } else if t.month == 2 {
      assert u == UtcTime(t.year, 3, 1, 0, 0, t.seconds - 60.0);
      FebruaryEndDayNumber(t.year);
    } else {
      assert u == UtcTime(t.year, t.month + 1, 1, 0, 0, t.seconds - 60.0);
      MonthEndDayNumber(t);
    }
  }

  /** An inserted leap second, 60 seconds into the last minute, carries into
      the next minute, hour, day, month or year without changing the Julian
      Date: both spellings name the same instant. */
  lemma LeapSecondCarry(t: UtcTime)
    requires IsUtcTimeValid(t) && 1 <= t.year < 0xFFFF && 60.0 <= t.seconds
    requires t.month == 2 ==> (IsLeapYear(t.year) <==> t.year % 4 == 0)
    ensures var u := Carry(t.year, t.month, t.day, t.hour, t.minute, t.seconds);
            && u.Some? && IsUtcTimeValid(u.value) && u.value.seconds == 0.0
            && JulianDateFromUtcTime(u.value) == JulianDateFromUtcTime(t)
  {
    var u := Carry(t.year, t.month, t.day, t.hour, t.minute, t.seconds).value;
    JulianDateSplit(t);
    if t.hour == 23 && t.minute == 59 {
      NextDayNumber(t);
    } else if t.minute == 59 {
      assert DayNumber(u) == DayNumber(t);
    } else {
      assert DayNumber(u) == DayNumber(t);
    }
    JulianDateSplit(u);
  }

  /** An inserted leap second converts to a Julian Date that decomposes into
      the first second of the next minute, as the carry pass spells it. */
  lemma LeapSecondRoundTrip(t: UtcTime)
    requires IsUtcTimeValid(t) && 1 <= t.year < 0xFFFF && t.seconds == 60.0
    requires t.month == 2 ==> (IsLeapYear(t.year) <==> t.year % 4 == 0)
    ensures UtcFromJulian(JulianDateFromUtcTime(t).value) == Carry(t.year, t.month, t.day, t.hour, t.minute, t.seconds)
  {
    LeapSecondCarry(t);
    UtcJulianRoundTrip(Carry(t.year, t.month, t.day, t.hour, t.minute, t.seconds).value);
  }

  /** In exact arithmetic the decomposition never leaves 60 seconds, so the
      carry pass leaves every date-time it yields unchanged. */
  lemma CarryIdleOnDecomposition(jd: real)
    requires 0.0 <= jd
    ensures var u := UtcFromJulian(jd).value;
            Carry(u.year, u.month, u.day, u.hour, u.minute, u.seconds) == Some(u)
  {
  }

  /** The formula counts every fourth year as a leap year. Before March 1900 it
      runs a day behind the Gregorian calendar, so February 28 and March 1 1900
      come out two days apart. */
  lemma CenturyGap()
    ensures JulianDateFromUtcTime(UtcTime(1900, 2, 28, 0, 0, 0.0)) == Some(2415077.5)
    ensures JulianDateFromUtcTime(UtcTime(1900, 3, 1, 0, 0, 0.0)) == Some(2415079.5)
  {
    YearTerm(1899);
    MonthTerm(15);
    YearTerm(1900);
    MonthTerm(4);
  }

  /** The Julian Date in the gap left by `CenturyGap` decomposes into February
      29 1900, a date that does not exist. */
  lemma CenturyPhantomDay()
    ensures UtcFromJulian(2415078.5) == Some(UtcTime(1900, 2, 29, 0, 0, 0.0))
    ensures !IsUtcTimeValid(UtcTime(1900, 2, 29, 0, 0, 0.0))
  {
    assert UtcFromJulian(2415078.5) == Some(UtcTime(1900, 2, 29, 0, 0, 0.0)) by {
      MonthTerm(15);
      MonthTerm(16);
      ShiftedDateRoundTrip(1899, 14, 29);
      TimeOfDayRoundTrip(0, 0, 0.0);
      assert (2415078.5 + 0.5).Floor == 2415079;
      assert Fmod1(2415078.5 + 0.5) == 0.0;
    }
    assert !IsLeapYear(1900);
  }

  /** Year 0, which the validity check admits: truncating `365.25 * -1`
      toward zero gives -365 rather than -366, so January 1 of year 0
      converts to the Julian Date that decomposes into January 2. */
  lemma YearZeroSlip()
    ensures JulianDateFromUtcTime(UtcTime(0, 1, 1, 0, 0, 0.0)) == Some(1721045.5)
    ensures UtcFromJulian(1721045.5) == Some(UtcTime(0, 1, 2, 0, 0, 0.0))
  {
    MonthTerm(14);
    FloorIs((1722583.0 - 122.1) / 365.25, 4715);
    FloorIs(430.0 / 30.6001, 14);
    assert CivilDate(1721046) == (0, 1, 2);
    assert TimeOfDay(Fmod1(1721046.0)) == (0, 0, 0.0);
  }

  /** The source's test vectors: the leap second at the end of 2022-01-01 is
      Julian Date 2459581.5, which decomposes into 2022-01-02 00:00:00. */
  lemma JulianExamples()
    ensures JulianDateFromUtcTime(UtcTime(2022, 1, 1, 23, 59, 60.0)) == Some(2459581.5)
    ensures UtcFromJulian(2459581.5) == Some(UtcTime(2022, 1, 2, 0, 0, 0.0))
  {
    YearTerm(2021);
    MonthTerm(14);
    UtcJulianRoundTrip(UtcTime(2022, 1, 2, 0, 0, 0.0));
  }
}
