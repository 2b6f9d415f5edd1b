/** GPS time, a week number and the seconds into that week counted from the
    GPS epoch, and its conversions to and from Julian Date, civil UTC
    date-time, year and day of year, and a single scalar value. */
module Gps {
  import opened Wrappers
  import opened Casts
  import opened Calendar
  import opened LeapSeconds
  import opened Julian

  /** A GPS time: the week since the epoch (16 bits wide) and the time of week
      in seconds. */
  datatype GpsTime = GpsTime(week: uint16, tow: real)

  /** Seconds since the GPS epoch that a GPS time stands for. */
  function Seconds(g: GpsTime): real
  {
    g.week as real * 604800.0 + g.tow
  }

  /** The time-of-week check of the source: both ends of a week are admitted. */
  predicate TowInRange(tow: real)
  {
    0.0 <= tow <= 604800.0
  }

  /** Julian Date of a GPS time, with `offset` the whole seconds GPS time is
      ahead of UTC. Fails exactly when the time of week is outside the week;
      otherwise the date lies `Seconds(g) - offset` seconds after the epoch. */
  function JulianDateFromGpsTime(g: GpsTime, offset: uint8): (r: Option<real>)
    ensures r.None? <==> !TowInRange(g.tow)
    ensures r.Some? ==> (r.value - GpsEpochJulianDate) * 86400.0 == Seconds(g) - offset as real
  {
    if g.tow < 0.0 || g.tow > 604800.0 then None
    else Some((g.week as real + (g.tow - offset as real) / 604800.0) * 7.0 + GpsEpochJulianDate)
  }

  /** The cast of the week count to `unsigned short` is defined only when the
      count truncates into 0..65535; a negative Julian Date is rejected before
      the cast is reached. */
  predicate WeekCastDefined(jd: real)
  {
    jd < 0.0 || (GpsEpochJulianDate - 7.0 < jd && jd < GpsEpochJulianDate + 7.0 * 65536.0)
  }

  /** GPS time of a Julian Date with the given offset. Fails exactly for a
      negative date. From the epoch on, the time of week lies in the week, both
      ends included; while the week does not wrap past 65535 the result stands
      for the date's seconds since the epoch plus the offset. */
  function GpsFromJulian(jd: real, offset: uint8): (r: Option<GpsTime>)
    requires WeekCastDefined(jd)
    ensures r.None? <==> jd < 0.0
    ensures r.Some? ==> r.value.tow <= 604800.0
    ensures r.Some? && GpsEpochJulianDate <= jd ==> 0.0 <= r.value.tow
    ensures r.Some? && jd < GpsEpochJulianDate + 7.0 * 65535.0 ==>
              Seconds(r.value) == (jd - GpsEpochJulianDate) * 86400.0 + offset as real
  {
    if jd < 0.0 then None
    else
      var week := Trunc((jd - GpsEpochJulianDate) / 7.0);
      var tow := (jd - GpsEpochJulianDate) * 86400.0 - week as real * 604800.0 + offset as real;
      if tow > 604800.0 then Some(GpsTime(ToUInt16(week + 1), tow - 604800.0))
      else Some(GpsTime(week, tow))
  }

  /** GPS time of a Julian Date as the source computes it: the week is cut
      down from the days since the epoch, the time of week is built up in
      place, and a time of week past the end of the week rolls into the next
      week. */
  method GpsTimeFromJulianDate(jd: real, offset: uint8) returns (r: Option<GpsTime>)
    requires WeekCastDefined(jd)
    ensures r == GpsFromJulian(jd, offset)
  {
    if jd < 0.0 {
      return None;
    }
    var week: uint16 := Trunc((jd - GpsEpochJulianDate) / 7.0);
    var tow := (jd - GpsEpochJulianDate) * 86400.0;
    tow := tow - week as real * 604800.0;
    tow := tow + offset as real;
    if tow > 604800.0 {
      tow := tow - 604800.0;
      week := ToUInt16(week + 1);
    }
    r := Some(GpsTime(week, tow));
  }

  /** From the epoch on, and before the week wraps, the GPS time of a Julian
      Date converts back to that Julian Date under the same offset. */
  lemma JulianGpsRoundTrip(jd: real, offset: uint8)
    requires GpsEpochJulianDate <= jd < GpsEpochJulianDate + 7.0 * 65535.0
    ensures JulianDateFromGpsTime(GpsFromJulian(jd, offset).value, offset) == Some(jd)
  {
  }

  /** A GPS time with its time of week inside the week converts to a Julian
      Date and back to itself under the same offset, except at the very start
      of a week after week 0 under a positive offset (see
      `EndOfWeekRepresentation`). */
  lemma GpsJulianRoundTrip(g: GpsTime, offset: uint8)
    requires 0.0 <= g.tow < 604800.0
    requires g.tow == 0.0 ==> g.week == 0 || offset == 0
    ensures WeekCastDefined(JulianDateFromGpsTime(g, offset).value)
    ensures GpsFromJulian(JulianDateFromGpsTime(g, offset).value, offset) == Some(g)
  {
    var jd := JulianDateFromGpsTime(g, offset).value;
    var x := (jd - GpsEpochJulianDate) / 7.0;
    assert x == g.week as real + (g.tow - offset as real) / 604800.0;
    if offset as real <= g.tow {
      FloorIs(x, g.week);
    } else if 0 < g.week {
      FloorIs(x, g.week - 1);
    } else {
      assert -1.0 < x < 0.0;
    }
  }

  /** The start of week 2191 under offset 15 comes back as the end of week
      2190: the same instant, written with the time of week 604800 that the
      rollover test (`>` rather than `>=`) leaves in place. */
  lemma EndOfWeekRepresentation()
    ensures JulianDateFromGpsTime(GpsTime(2191, 0.0), 15) == Some(2459581.5 - 15.0 / 86400.0)
    ensures GpsFromJulian(2459581.5 - 15.0 / 86400.0, 15) == Some(GpsTime(2190, 604800.0))
    ensures Seconds(GpsTime(2190, 604800.0)) == Seconds(GpsTime(2191, 0.0))
  {
    FloorIs((2459581.5 - 15.0 / 86400.0 - GpsEpochJulianDate) / 7.0, 2190);
  }

  /** GPS time of a civil UTC date-time: its Julian Date, shifted by the
      leap-second offset of that date. Fails for an invalid date-time and for
      one whose Julian Date is negative; from the epoch on, the result stands
      for the seconds since the epoch plus the offset. */
  function GpsTimeFromUtcTime(t: UtcTime): (r: Option<GpsTime>)
    requires !IsUtcTimeValid(t) || WeekCastDefined(JulianDateFromUtcTime(t).value)
    ensures r.None? <==> !IsUtcTimeValid(t) || JulianDateFromUtcTime(t).value < 0.0
    ensures r.Some? ==>
              var jd := JulianDateFromUtcTime(t).value;
              GpsEpochJulianDate <= jd < GpsEpochJulianDate + 7.0 * 65535.0 ==>
                && TowInRange(r.value.tow)
                && Seconds(r.value) == (jd - GpsEpochJulianDate) * 86400.0 + DetermineUtcOffset(jd).value as real
  {
    if !IsUtcTimeValid(t) then None
    else
      var jd := JulianDateFromUtcTime(t).value;
      match DetermineUtcOffset(jd)
      case None => None
      case Some(offset) => GpsFromJulian(jd, offset as uint8)
  }

  /** GPS time of a RINEX date-time: the same conversion, but with offset 0,
      as RINEX observation times are already on the GPS time scale. */
  function GpsTimeFromRinexTime(t: UtcTime): (r: Option<GpsTime>)
    requires !IsUtcTimeValid(t) || WeekCastDefined(JulianDateFromUtcTime(t).value)
    ensures r.None? <==> !IsUtcTimeValid(t) || JulianDateFromUtcTime(t).value < 0.0
    ensures r.Some? ==>
              var jd := JulianDateFromUtcTime(t).value;
              GpsEpochJulianDate <= jd < GpsEpochJulianDate + 7.0 * 65535.0 ==>
                Seconds(r.value) == (jd - GpsEpochJulianDate) * 86400.0
  {
    if !IsUtcTimeValid(t) then None
    else GpsFromJulian(JulianDateFromUtcTime(t).value, 0)
  }

  /** The UTC reading is ahead of the RINEX reading of the same date-time by
      exactly the leap-second offset of the date. */
  lemma UtcAheadOfRinex(t: UtcTime)
    requires IsUtcTimeValid(t)
    requires GpsEpochJulianDate <= JulianDateFromUtcTime(t).value < GpsEpochJulianDate + 7.0 * 65535.0
    ensures Seconds(GpsTimeFromUtcTime(t).value)
            == Seconds(GpsTimeFromRinexTime(t).value) + DetermineUtcOffset(JulianDateFromUtcTime(t).value).value as real
  {
  }

  /** The state of the offset-settling loop after `n` passes: each pass takes
      the Julian Date of the GPS time under the current offset, then the
      offset at that date. The loop starts from date 0 and offset 0, and a
      pass fails only on a time of week outside the week. */
  function Iterate(g: GpsTime, n: nat): (r: Option<(real, uint8)>)
    ensures r.None? <==> 0 < n && !TowInRange(g.tow)
    ensures r.Some? ==> 0.0 <= r.value.0 && r.value.1 as int <= MaxOffset
  {
    if n == 0 then Some((0.0, 0))
    else
      match Iterate(g, n - 1)
      case None => None
      case Some((_, offset)) =>
        match JulianDateFromGpsTime(g, offset)
        case None => None
        case Some(jd) =>
          match DetermineUtcOffset(jd)
          case None => None
          case Some(next) => Some((jd, next as uint8))
  }

  /** Civil UTC date-time of a GPS time: the Julian Date after four passes
      of the loop, decomposed. Fails exactly when the time of week is outside
      the week. */
  function UtcFromGps(g: GpsTime): (r: Option<UtcTime>)
    ensures r.None? <==> !TowInRange(g.tow)
  {
    if g.tow < 0.0 || g.tow > 604800.0 then None
    else UtcFromJulian(Iterate(g, 4).value.0)
  }

  /** Civil UTC date-time of a GPS time as the source computes it, rewriting
      the Julian Date and the offset on each of four passes. */
  method UtcTimeFromGpsTime(g: GpsTime) returns (r: Option<UtcTime>)
    ensures r == UtcFromGps(g)
  {
    if g.tow < 0.0 || g.tow > 604800.0 {
      return None;
    }
    var julianDate := 0.0;
    var offset: uint8 := 0;
    var i := 0;
    while i < 4
      invariant 0 <= i <= 4
      invariant Iterate(g, i) == Some((julianDate, offset))
    {
      var jd := JulianDateFromGpsTime(g, offset);
      if jd.None? {
        return None;
      }
      julianDate := jd.value;
      var next := DetermineUtcOffset(julianDate);
      if next.None? {
        return None;
      }
      offset := next.value as uint8;
      i := i + 1;
    }
    r := UtcTimeFromJulianDate(julianDate);
  }

  /** A pass of the loop from offset `o`, on a GPS time standing for `jd`'s
      seconds since the epoch plus `k`, lands `k - o` seconds after `jd`, and
      takes up the offset found there. */
  lemma PassLands(g: GpsTime, n: nat, jd: real, k: nat, o: uint8)
    requires TowInRange(g.tow)
    requires Seconds(g) == (jd - GpsEpochJulianDate) * 86400.0 + k as real
    requires Iterate(g, n).Some? && Iterate(g, n).value.1 == o
    ensures var x := jd + (k - o as int) as real / 86400.0;
            && 0.0 <= x
            && Iterate(g, n + 1) == Some((x, DetermineUtcOffset(x).value as uint8))
  {
    var x := jd + (k - o as int) as real / 86400.0;
    assert JulianDateFromGpsTime(g, o) == Some(x);
  }

  /** From the epoch on, converting a civil UTC date-time to GPS time and back
      gives the date-time again: the loop settles on the offset of the date
      itself within its four passes. */
  lemma UtcGpsRoundTrip(t: UtcTime)
    requires IsUtcTimeValid(t) && 1 <= t.year && 0.0 <= t.seconds < 60.0
    requires GpsEpochJulianDate <= JulianDateFromUtcTime(t).value < GpsEpochJulianDate + 7.0 * 65535.0
    ensures UtcFromGps(GpsTimeFromUtcTime(t).value) == Some(t)
  {
    var jd := JulianDateFromUtcTime(t).value;
    var k := DetermineUtcOffset(jd).value;
    var g := GpsTimeFromUtcTime(t).value;
    CorrectionSettles(jd);
    assert Iterate(g, 0) == Some((0.0, 0));
    PassLands(g, 0, jd, k, 0);
    var o1 := Iterate(g, 1).value.1;
    PassLands(g, 1, jd, k, o1);
    assert Iterate(g, 2).value.1 == k as uint8;
    PassLands(g, 2, jd, k, k as uint8);
    assert Iterate(g, 3) == Some((jd, k as uint8));
    PassLands(g, 3, jd, k, k as uint8);
    UtcJulianRoundTrip(t);
  }

  /** Julian Date of January 1, 00:00:00 of `year`. */
  function YearStart(year: uint16): (jd: real)
    ensures JulianDateFromUtcTime(UtcTime(year, 1, 1, 0, 0, 0.0)) == Some(jd)
  {
    JulianDateFromUtcTime(UtcTime(year, 1, 1, 0, 0, 0.0)).value
  }

  /** GPS time at the start of a day given by year and day of year, as the
      source computes it: the offset is the one of January 1, whatever the
      day. Fails exactly for a day of year outside 1..366 and for a negative
      date. */
  function GpsFromYearAndDayOfYearAsWritten(year: uint16, dayOfYear: uint16): (r: Option<GpsTime>)
    requires dayOfYear < 1 || 366 < dayOfYear || WeekCastDefined(YearStart(year) + (dayOfYear - 1) as real)
    ensures r.None? <==> dayOfYear < 1 || 366 < dayOfYear || YearStart(year) < 0.0
    ensures r.Some? ==>
              var jd := YearStart(year) + (dayOfYear - 1) as real;
              GpsEpochJulianDate <= jd < GpsEpochJulianDate + 7.0 * 65535.0 ==>
                Seconds(r.value) == (jd - GpsEpochJulianDate) * 86400.0 + DetermineUtcOffset(YearStart(year)).value as real
  {
    if dayOfYear < 1 || 366 < dayOfYear then None
    else
      match DetermineUtcOffset(YearStart(year))
      case None => None
      case Some(offset) => GpsFromJulian(YearStart(year) + (dayOfYear - 1) as real, offset as uint8)
  }

  /** The same, step by step as the source writes it, moving the Julian Date
      of January 1 on to the day in place. */
  method GpsTimeFromYearAndDayOfYear(year: uint16, dayOfYear: uint16) returns (r: Option<GpsTime>)
    requires dayOfYear < 1 || 366 < dayOfYear || WeekCastDefined(YearStart(year) + (dayOfYear - 1) as real)
    ensures r == GpsFromYearAndDayOfYearAsWritten(year, dayOfYear)
  {
    if dayOfYear < 1 || 366 < dayOfYear {
      return None;
    }
    var start := JulianDateFromUtcTime(UtcTime(year, 1, 1, 0, 0, 0.0));
    if start.None? {
      return None;
    }
    var julianDate := start.value;
    var offset := DetermineUtcOffset(julianDate);
    if offset.None? {
      return None;
    }
    julianDate := julianDate + (dayOfYear - 1) as real;
    r := GpsTimeFromJulianDate(julianDate, offset.value as uint8);
  }

  /** Corrected: the offset is looked up at the day itself. */
  function GpsFromYearAndDayOfYear(year: uint16, dayOfYear: uint16): (r: Option<GpsTime>)
    requires dayOfYear < 1 || 366 < dayOfYear || WeekCastDefined(YearStart(year) + (dayOfYear - 1) as real)
    ensures r.None? <==> dayOfYear < 1 || 366 < dayOfYear || YearStart(year) + (dayOfYear - 1) as real < 0.0
    ensures r.Some? ==>
              var jd := YearStart(year) + (dayOfYear - 1) as real;
              GpsEpochJulianDate <= jd < GpsEpochJulianDate + 7.0 * 65535.0 ==>
                Seconds(r.value) == (jd - GpsEpochJulianDate) * 86400.0 + DetermineUtcOffset(jd).value as real
  {
    if dayOfYear < 1 || 366 < dayOfYear then None
    else
      var jd := YearStart(year) + (dayOfYear - 1) as real;
      match DetermineUtcOffset(jd)
      case None => None
      case Some(offset) => GpsFromJulian(jd, offset as uint8)
  }

  /** The two readings agree whenever no leap second is inserted between
      January 1 and the day. */
  lemma YearDayAsWrittenAgrees(year: uint16, dayOfYear: uint16)
    requires 1 <= dayOfYear <= 366 && 0.0 <= YearStart(year)
    requires WeekCastDefined(YearStart(year) + (dayOfYear - 1) as real)
    requires DetermineUtcOffset(YearStart(year)) == DetermineUtcOffset(YearStart(year) + (dayOfYear - 1) as real)
    ensures GpsFromYearAndDayOfYearAsWritten(year, dayOfYear) == GpsFromYearAndDayOfYear(year, dayOfYear)
  {
  }

  /** Corrected, the GPS time of a day of the year is the GPS time of that
      day's midnight as a civil date, in every year from 1 on where the
      formula's leap rule agrees with the Gregorian one. */
  lemma YearDayAgreesWithUtc(t: UtcTime)
    requires IsUtcTimeValid(t) && 1 <= t.year
    requires t.hour == 0 && t.minute == 0 && t.seconds == 0.0
    requires IsLeapYear(t.year) <==> t.year % 4 == 0
    requires WeekCastDefined(JulianDateFromUtcTime(t).value)
    ensures var dayOfYear := DayOfYear(t.year, t.month, t.day).value;
            && 1 <= dayOfYear <= 366
            && WeekCastDefined(YearStart(t.year) + (dayOfYear - 1) as real)
            && GpsFromYearAndDayOfYear(t.year, dayOfYear) == GpsTimeFromUtcTime(t)
  {
    DayOfYearRange(t.year, t.month, t.day);
    DayNumberFromYearStart(t);
    JulianDateSplit(t);
    JulianDateSplit(UtcTime(t.year, 1, 1, 0, 0, 0.0));
    assert JulianDateFromUtcTime(t).value == YearStart(t.year) + (DayOfYear(t.year, t.month, t.day).value - 1) as real;
  }

  /** As written, the start of 1981-07-01, day 182 of 1981, is one second
      short: the leap second inserted that midnight is not counted, while the
      civil conversion of the same instant and the corrected lookup count it. */
  lemma YearDayOffsetSlip()
    ensures GpsFromYearAndDayOfYearAsWritten(1981, 182) == Some(GpsTime(77, 259200.0))
    ensures GpsTimeFromUtcTime(UtcTime(1981, 7, 1, 0, 0, 0.0)) == Some(GpsTime(77, 259201.0))
    ensures GpsFromYearAndDayOfYear(1981, 182) == Some(GpsTime(77, 259201.0))
  {
    assert YearStart(1981) == 2444605.5;
    FloorIs((2444786.5 - GpsEpochJulianDate) / 7.0, 77);
  }

  /** A GPS time as one value, seconds since the epoch; fails exactly when the
      time of week is outside the week. The value is never negative. */
  function GpsTimeToValue(g: GpsTime): (r: Option<real>)
    ensures r.None? <==> !TowInRange(g.tow)
    ensures r.Some? ==> 0.0 <= r.value && r.value == Seconds(g)
  {
    if g.tow < 0.0 || g.tow > 604800.0 then None
    else Some(g.week as real * 604800.0 + g.tow)
  }

  /** Whole weeks in `n` seconds, computed in floating point, are the
      integer quotient. */
  lemma WholeWeeks(n: int)
    requires 0 <= n
    ensures Trunc(n as real / 604800.0) == n / 604800
  {
    var q := n / 604800;
    assert q * 604800 <= n < (q + 1) * 604800;
    FloorIs(n as real / 604800.0, q);
  }

  /** The GPS time of a single value: whole weeks of its whole seconds, and the
      rest as time of week, which then lies in [0, 604800). Fails exactly for
      a value that is not positive. The whole seconds go through a 32-bit
      signed integer, so the value must stay below 2^31. */
  function GpsTimeFromValue(value: real): (r: Option<GpsTime>)
    requires value <= 0.0 || value < 2147483648.0
    ensures r.None? <==> value <= 0.0
    ensures r.Some? ==> 0.0 <= r.value.tow < 604800.0 && Seconds(r.value) == value
  {
    if value <= 0.0 then None
    else
      WholeWeeks(value.Floor);
      var week := Trunc(value.Floor as real / 604800.0);
      Some(GpsTime(week, value - week as real * 604800.0))
  }

  /** Unpacking a value and packing it again gives the value back. */
  lemma ValueRoundTrip(value: real)
    requires 0.0 < value < 2147483648.0
    ensures GpsTimeToValue(GpsTimeFromValue(value).value) == Some(value)
  {
  }

  /** Packing a GPS time whose time of week lies inside the week and unpacking
      the value gives the GPS time back, unless the value is 0. */
  lemma GpsValueRoundTrip(g: GpsTime)
    requires 0.0 <= g.tow < 604800.0 && 0.0 < Seconds(g) < 2147483648.0
    ensures GpsTimeFromValue(GpsTimeToValue(g).value) == Some(g)
  {
    var h := GpsTimeFromValue(Seconds(g)).value;
    assert (h.week - g.week) as real * 604800.0 == g.tow - h.tow;
  }

  /** The source's GPS test vectors: week 2191, 15 s under offset 15 is
      2022-01-02 00:00:00 UTC, Julian Date 2459581.5, both ways; it is the
      GPS time of the leap second 2022-01-01 23:59:60 and of day 2 of 2022. */
  lemma GpsExamples()
    ensures JulianDateFromGpsTime(GpsTime(2191, 15.0), 15) == Some(2459581.5)
    ensures GpsFromJulian(2459581.5, 15) == Some(GpsTime(2191, 15.0))
    ensures GpsTimeFromUtcTime(UtcTime(2022, 1, 1, 23, 59, 60.0)) == Some(GpsTime(2191, 15.0))
    ensures UtcFromGps(GpsTime(2191, 15.0)) == Some(UtcTime(2022, 1, 2, 0, 0, 0.0))
    ensures GpsFromYearAndDayOfYearAsWritten(2022, 2) == Some(GpsTime(2191, 15.0))
  {
    JulianExamples();
    FloorIs((2459581.5 - GpsEpochJulianDate) / 7.0, 2191);
    OffsetExample();
    assert JulianDateFromGpsTime(GpsTime(2191, 15.0), 0) == Some(2459581.5 + 15.0 / 86400.0);
    assert Iterate(GpsTime(2191, 15.0), 1) == Some((2459581.5 + 15.0 / 86400.0, 15));
    assert Iterate(GpsTime(2191, 15.0), 2) == Some((2459581.5, 15));
    assert Iterate(GpsTime(2191, 15.0), 4) == Some((2459581.5, 15));
    assert YearStart(2022) == 2459580.5;
  }

  /** A GPS time inside the leap second inserted at the end of 2008: the
      offset read after each pass alternates between 15 and 14 and never
      settles, and the four passes stop on 14, one second before the leap
      second, so the leap second itself is never produced. */
  lemma LeapSecondOscillation()
    ensures Iterate(GpsTime(1512, 345614.0), 1).value.1 == 15
    ensures Iterate(GpsTime(1512, 345614.0), 2).value.1 == 14
    ensures Iterate(GpsTime(1512, 345614.0), 3).value.1 == 15
    ensures Iterate(GpsTime(1512, 345614.0), 4).value.1 == 14
    ensures UtcFromGps(GpsTime(1512, 345614.0)) == Some(UtcTime(2008, 12, 31, 23, 59, 59.0))
  {
    var g := GpsTime(1512, 345614.0);
    var before := 2454832.5 - 1.0 / 86400.0;
    assert Iterate(g, 1) == Some((2454832.5 + 14.0 / 86400.0, 15));
    assert Iterate(g, 2) == Some((before, 14));
    assert Iterate(g, 3) == Some((2454832.5, 15));
    assert Iterate(g, 4) == Some((before, 14));
    YearTerm(2008);
    MonthTerm(13);
    assert JulianDateFromUtcTime(UtcTime(2008, 12, 31, 23, 59, 59.0)) == Some(before);
    UtcJulianRoundTrip(UtcTime(2008, 12, 31, 23, 59, 59.0));
  }

  /** The table ends with the leap second of 2009-01-01: at the leap seconds
      of 2012-07-01, 2015-07-01 and 2017-01-01 the offset stays at 15. */
  lemma TableEndsIn2009()
    ensures JulianDateFromUtcTime(UtcTime(2012, 7, 1, 0, 0, 0.0)) == Some(2456109.5)
    ensures JulianDateFromUtcTime(UtcTime(2015, 7, 1, 0, 0, 0.0)) == Some(2457204.5)
    ensures JulianDateFromUtcTime(UtcTime(2017, 1, 1, 0, 0, 0.0)) == Some(2457754.5)
    ensures DetermineUtcOffset(2456109.5) == DetermineUtcOffset(2457204.5)
         == DetermineUtcOffset(2457754.5) == Some(15)
  {
    YearTerm(2012);
    YearTerm(2015);
    YearTerm(2016);
    MonthTerm(8);
    MonthTerm(14);
  }

  /** The scalar value of week 2191, 15 s is 1325116815, both ways; week 0 at
      0 s packs to 0, which does not unpack. */
  lemma ValueExamples()
    ensures GpsTimeToValue(GpsTime(2191, 15.0)) == Some(1325116815.0)
    ensures GpsTimeFromValue(1325116815.0) == Some(GpsTime(2191, 15.0))
    ensures GpsTimeToValue(GpsTime(0, 0.0)) == Some(0.0) && GpsTimeFromValue(0.0) == None
  {
    FloorIs(1325116815.0 / 604800.0, 2191);
  }
}
