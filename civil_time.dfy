/** UTC calendar arithmetic on millisecond timestamps: the day a timestamp falls on
    and the (year, month) that MongoDB's `$year` and `$month` operators return, in the
    proleptic Gregorian calendar counted from 1 January 1970. */
module CivilTime {

  const MsPerDay: int := 86_400_000

  datatype YearMonth = YearMonth(year: int, month: int)

  predicate IsLeapYear(y: int) {
    y % 4 == 0 && (y % 100 != 0 || y % 400 == 0)
  }

  function DaysInYear(y: int): int {
    if IsLeapYear(y) then 366 else 365
  }

  /** Days from 1 January 1970 to 1 January of year `y` (negative before 1970). */
  function YearStart(y: int): int
    decreases if y >= 1970 then y - 1970 else 1970 - y
  {
    if y == 1970 then 0
    else if y > 1970 then YearStart(y - 1) + DaysInYear(y - 1)
    else YearStart(y + 1) - DaysInYear(y)
  }

  lemma YearStartStep(y: int)
    ensures YearStart(y + 1) == YearStart(y) + DaysInYear(y)
  {
  }

  /** Counts whole years forward from 1 January of `year`. */
  function YearForward(days: nat, year: int): (r: (int, nat))
    ensures YearStart(r.0) + r.1 == YearStart(year) + days
    ensures r.1 < DaysInYear(r.0)
    decreases days
  {
    if days < DaysInYear(year) then (year, days)
    else
      YearStartStep(year);
      YearForward(days - DaysInYear(year), year + 1)
  }

  /** Counts whole years backward from 1 January of `year`. */
  function YearBackward(days: int, year: int): (r: (int, nat))
    requires days < 0
    ensures YearStart(r.0) + r.1 == YearStart(year) + days
    ensures r.1 < DaysInYear(r.0)
    decreases -days
  {
    YearStartStep(year - 1);
    var d := days + DaysInYear(year - 1);
    if d >= 0 then (year - 1, d) else YearBackward(d, year - 1)
  }

  /** The year of day number `epochDay` (0 is 1 January 1970) and its day within the year. */
  function YearAndDay(epochDay: int): (r: (int, nat))
    ensures YearStart(r.0) <= epochDay < YearStart(r.0) + DaysInYear(r.0)
    ensures r.1 == epochDay - YearStart(r.0)
  {
    if epochDay >= 0 then YearForward(epochDay, 1970) else YearBackward(epochDay, 1970)
  }

  /** Days of year `year` before the first of `month`. */
  function DaysBefore(year: int, month: int): (n: nat)
    requires 1 <= month <= 12
  {
    var cumulative := [0, 31, 59, 90, 120, 151, 181, 212, 243, 273, 304, 334];
    cumulative[month - 1] + (if month > 2 && IsLeapYear(year) then 1 else 0)
  }

  /** The month, at or after `month`, that day `dayOfYear` of `year` falls in. */
  function MonthFrom(year: int, dayOfYear: int, month: int): (m: int)
    requires 1 <= month <= 12 && DaysBefore(year, month) <= dayOfYear
    ensures month <= m <= 12
    ensures DaysBefore(year, m) <= dayOfYear
    ensures m < 12 ==> dayOfYear < DaysBefore(year, m + 1)
    decreases 12 - month
  {
    if month == 12 || dayOfYear < DaysBefore(year, month + 1) then month
    else MonthFrom(year, dayOfYear, month + 1)
  }

  /** The UTC calendar month of timestamp `ms`: the day it falls on lies within that
      month of that year. */
  function YearMonthOf(ms: int): (ym: YearMonth)
    ensures 1 <= ym.month <= 12
    ensures var day := ms / MsPerDay - YearStart(ym.year);
      && 0 <= day < DaysInYear(ym.year)
      && DaysBefore(ym.year, ym.month) <= day
      && (ym.month < 12 ==> day < DaysBefore(ym.year, ym.month + 1))
  {
    var yd := YearAndDay(ms / MsPerDay);
    YearMonth(yd.0, MonthFrom(yd.0, yd.1, 1))
  }

  /** December holds the last 31 days of every year. */
  lemma DecemberLength(y: int)
    ensures DaysBefore(y, 12) + 31 == DaysInYear(y)
  {
  }
}
