/** Gregorian calendar rules: leap years, month lengths, the ordinal day of the
    year and the validity check on a civil UTC date-time. */
module Calendar {
  import opened Wrappers
  import opened Casts

  /** A civil UTC date-time with the field widths of the source: a 16-bit year,
      8-bit month, day, hour and minute, and single-precision seconds (a real
      here). */
  datatype UtcTime = UtcTime(year: uint16, month: uint8, day: uint8, hour: uint8, minute: uint8, seconds: real)

  /** Gregorian leap-year rule, tested in the order the source tests it. */
  function IsLeapYear(year: uint16): (leap: bool)
    ensures leap <==> year % 4 == 0 && (year % 100 != 0 || year % 400 == 0)
  {
    if year % 4 == 0 then
      if year % 100 == 0 then year % 400 == 0 else true
    else
      false
  }

  /** Number of days in `month` of `year`; fails for a month outside 1..12. */
  function DaysInMonth(year: uint16, month: uint8): (r: Option<uint8>)
    ensures r.None? <==> month < 1 || 12 < month
    ensures month == 2 ==> r == Some(if IsLeapYear(year) then 29 else 28)
    ensures month in {4, 6, 9, 11} ==> r == Some(30)
    ensures month in {1, 3, 5, 7, 8, 10, 12} ==> r == Some(31)
  {
    match month
    case 1 => Some(31)
    case 2 => if IsLeapYear(year) then Some(29) else Some(28)
    case 3 => Some(31)
    case 4 => Some(30)
    case 5 => Some(31)
    case 6 => Some(30)
    case 7 => Some(31)
    case 8 => Some(31)
    case 9 => Some(30)
    case 10 => Some(31)
    case 11 => Some(30)
    case 12 => Some(31)
    case _ => None
  }

  /** Reference definition: the days of all months of `year` before `month`. */
  function DaysBeforeMonth(year: uint16, month: int): nat
    requires 1 <= month <= 13
  {
    if month == 1 then 0 else DaysBeforeMonth(year, month - 1) + DaysInMonth(year, month - 1).value
  }

  /** The running totals of month lengths, with February left as `feb`. */
  lemma {:induction false} DaysBeforeMonthTable(year: uint16, month: int)
    requires 1 <= month <= 13
    ensures var feb := if IsLeapYear(year) then 29 else 28;
            DaysBeforeMonth(year, month)
            == [0, 31, 31 + feb, 62 + feb, 92 + feb, 123 + feb, 153 + feb,
                184 + feb, 215 + feb, 245 + feb, 276 + feb, 306 + feb, 337 + feb][month - 1]
  {
    if month > 1 {
      DaysBeforeMonthTable(year, month - 1);
    }
  }

  /** Ordinal day of the date within its year. The day itself is not checked;
      only a month outside 1..12 fails. */
  function DayOfYear(year: uint16, month: uint8, day: uint8): (r: Option<uint16>)
    ensures r.None? <==> month < 1 || 12 < month
    ensures r.Some? ==> r.value == DaysBeforeMonth(year, month) + day
  {
    var feb := DaysInMonth(year, 2).value;
    if month < 1 || 12 < month then None
    else
      DaysBeforeMonthTable(year, month);
      match month
      case 1 => Some(day)
      case 2 => Some(31 + day)
      case 3 => Some(31 + feb + day)
      case 4 => Some(62 + feb + day)
      case 5 => Some(92 + feb + day)
      case 6 => Some(123 + feb + day)
      case 7 => Some(153 + feb + day)
      case 8 => Some(184 + feb + day)
      case 9 => Some(215 + feb + day)
      case 10 => Some(245 + feb + day)
      case 11 => Some(276 + feb + day)
      case _ => Some(306 + feb + day)
  }

  /** The day of the year of a real date lies in 1..365, or 1..366 in a leap
      year, and December 31 is the last day. */
  lemma DayOfYearRange(year: uint16, month: uint8, day: uint8)
    requires 1 <= month <= 12 && 1 <= day <= DaysInMonth(year, month).value
    ensures 1 <= DayOfYear(year, month, day).value <= if IsLeapYear(year) then 366 else 365
    ensures month == 12 && day == 31 ==> DayOfYear(year, month, day).value == if IsLeapYear(year) then 366 else 365
  {
    DaysBeforeMonthTable(year, month);
  }

  /** Validity of a civil date-time. The year is never checked, and any seconds
      value up to 60 passes, so that an inserted leap second is admitted. */
  function IsUtcTimeValid(t: UtcTime): (valid: bool)
    ensures valid <==>
      && 1 <= t.month <= 12
      && t.hour <= 23
      && t.minute <= 59
      && t.seconds <= 60.0
      && 1 <= t.day <= DaysInMonth(t.year, t.month).value
  {
    if t.month == 0 || t.month > 12 then false
    else if t.hour > 23 then false
    else if t.minute > 59 then false
    else if t.seconds > 60.0 then false
    else
      match DaysInMonth(t.year, t.month)
      case None => false
      case Some(daysInMonth) => !(t.day == 0 || t.day > daysInMonth)
  }

  /** The source's calendar test vectors. */
  lemma CalendarExamples()
    ensures !IsLeapYear(2022) && !IsLeapYear(1399) && IsLeapYear(2000) && IsLeapYear(2004)
    ensures !IsLeapYear(1900)
    ensures DaysInMonth(2022, 2) == Some(28) && DaysInMonth(2000, 2) == Some(29)
    ensures DayOfYear(2022, 1, 1) == Some(1) && DayOfYear(2022, 12, 31) == Some(365)
    ensures !IsUtcTimeValid(UtcTime(2022, 13, 1, 0, 0, 0.0))
    ensures !IsUtcTimeValid(UtcTime(2022, 2, 0, 0, 0, 0.0))
    ensures !IsUtcTimeValid(UtcTime(2022, 2, 30, 0, 0, 0.0))
    ensures IsUtcTimeValid(UtcTime(2022, 1, 1, 23, 59, 60.0))
  {
  }
}
