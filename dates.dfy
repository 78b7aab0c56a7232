/** Calendar dates as pandas timestamps hold them (day resolution): validity,
    a day number for `(b - a).days`, chronological order and the
    `- pd.DateOffset(months=1)` shift. */
module Dates {

  datatype Date = Date(year: int, month: int, day: int)

  /** Proleptic Gregorian leap years (`%` is floor-based, so this holds for every year). */
  predicate IsLeap(y: int)
  {
    y % 4 == 0 && (y % 100 != 0 || y % 400 == 0)
  }

  function DaysInMonth(y: int, m: int): (n: int)
    requires 1 <= m <= 12
    ensures 28 <= n <= 31
  {
    if m == 2 then (if IsLeap(y) then 29 else 28)
    else if m == 4 || m == 6 || m == 9 || m == 11 then 30
    else 31
  }

  function DaysInYear(y: int): int
  {
    if IsLeap(y) then 366 else 365
  }

  predicate Valid(d: Date)
  {
    1 <= d.month <= 12 && 1 <= d.day <= DaysInMonth(d.year, d.month)
  }

  /** A date a parser can produce: a real calendar day. */
  type CalendarDate = d: Date | Valid(d) witness Date(2000, 1, 1)

  /** Days from 0001-01-01 to the first of January of year `y`. */
  function DaysBeforeYear(y: int): int
  {
    var p := y - 1;
    365 * p + p / 4 - p / 100 + p / 400
  }

  /** Days from the first of January to the first of month `m`. */
  function DaysBeforeMonth(y: int, m: int): int
    requires 1 <= m <= 12
  {
    [0, 31, 59, 90, 120, 151, 181, 212, 243, 273, 304, 334][m - 1] + (if m > 2 && IsLeap(y) then 1 else 0)
  }

  /** Days since 0001-01-01: the difference of two day numbers is pandas' `(b - a).days`. */
  function DayNumber(d: CalendarDate): int
  {
    DaysBeforeYear(d.year) + DaysBeforeMonth(d.year, d.month) + d.day - 1
  }

  /** Calendar order on dates: by year, then month, then day. */
  predicate Before(a: Date, b: Date)
  {
    a.year < b.year || (a.year == b.year && (a.month < b.month || (a.month == b.month && a.day < b.day)))
  }

  /** A year has 365 days, or 366 in a leap year. */
  lemma YearLength(y: int)
    ensures DaysBeforeYear(y + 1) == DaysBeforeYear(y) + DaysInYear(y)
  {
    QuotientStep4(y);
    QuotientStep100(y);
    QuotientStep400(y);
    LeapDivisors(y);
    if y % 400 == 0 {
      assert DaysBeforeYear(y + 1) - DaysBeforeYear(y) == 365 + 1 - 1 + 1;
    } else if y % 100 == 0 {
      assert DaysBeforeYear(y + 1) - DaysBeforeYear(y) == 365 + 1 - 1;
    } else if y % 4 == 0 {
      assert DaysBeforeYear(y + 1) - DaysBeforeYear(y) == 365 + 1;
    } else {
      assert DaysBeforeYear(y + 1) - DaysBeforeYear(y) == 365;
    }
  }

  lemma LeapDivisors(y: int)
    ensures y % 400 == 0 ==> y % 100 == 0
    ensures y % 100 == 0 ==> y % 4 == 0
  {
  }

  /** Stepping from `y - 1` to `y` raises `y / k` exactly when `k` divides `y`. */
  lemma QuotientStep4(y: int)
    ensures y / 4 == (y - 1) / 4 + (if y % 4 == 0 then 1 else 0)
  {
  }

  lemma QuotientStep100(y: int)
    ensures y / 100 == (y - 1) / 100 + (if y % 100 == 0 then 1 else 0)
  {
  }

  lemma QuotientStep400(y: int)
    ensures y / 400 == (y - 1) / 400 + (if y % 400 == 0 then 1 else 0)
  {
  }

  /** Each month starts where the previous one ends, and December ends the year. */
  lemma MonthsFillYear(y: int, m: int)
    requires 1 <= m <= 12
    ensures DaysBeforeMonth(y, m) + DaysInMonth(y, m) <= DaysInYear(y)
    ensures m < 12 ==> DaysBeforeMonth(y, m) + DaysInMonth(y, m) == DaysBeforeMonth(y, m + 1)
  {
  }

  lemma {:induction false} MonthsIncrease(y: int, m1: int, m2: int)
    requires 1 <= m1 < m2 <= 12
    ensures DaysBeforeMonth(y, m1) + DaysInMonth(y, m1) <= DaysBeforeMonth(y, m2)
    decreases m2 - m1
  {
    MonthsFillYear(y, m1);
    if m1 + 1 < m2 {
      MonthsIncrease(y, m1 + 1, m2);
    }
  }

  lemma {:induction false} YearsIncrease(y1: int, y2: int)
    requires y1 < y2
    ensures DaysBeforeYear(y1) + DaysInYear(y1) <= DaysBeforeYear(y2)
    decreases y2 - y1
  {
    YearLength(y1);
    if y1 + 1 < y2 {
      YearLength(y1 + 1);
      YearsIncrease(y1 + 1, y2);
    }
  }

  /** Day numbers follow the calendar: an earlier date has a smaller day
      number, so sorting by day number is sorting chronologically and equal
      day numbers mean equal dates. */
  lemma DayNumberOrder(a: CalendarDate, b: CalendarDate)
    ensures Before(a, b) <==> DayNumber(a) < DayNumber(b)
    ensures DayNumber(a) == DayNumber(b) <==> a == b
  {
    if a.year < b.year {
      MonthsFillYear(a.year, a.month);
      YearsIncrease(a.year, b.year);
    } else if b.year < a.year {
      MonthsFillYear(b.year, b.month);
      YearsIncrease(b.year, a.year);
    } else if a.month < b.month {
      MonthsIncrease(a.year, a.month, b.month);
    } else if b.month < a.month {
      MonthsIncrease(a.year, b.month, a.month);
    }
  }

  /** Months counted from year 0, so that consecutive months differ by one. */
  function MonthIndex(year: int, month: int): int
  {
    12 * year + month - 1
  }

  /** `date - pd.DateOffset(months=1)`: the same day of the previous month,
      clamped to that month's last day. */
  function ShiftBackOneMonth(d: CalendarDate): (r: CalendarDate)
    ensures MonthIndex(r.year, r.month) == MonthIndex(d.year, d.month) - 1
    ensures r.day <= d.day
    ensures r.day == d.day || r.day == DaysInMonth(r.year, r.month)
  {
    var y, m := if d.month == 1 then d.year - 1 else d.year, if d.month == 1 then 12 else d.month - 1;
    var last := DaysInMonth(y, m);
    Date(y, m, if d.day <= last then d.day else last)
  }

  /** January steps back to December of the previous year; any other month
      to the previous month of the same year. */
  lemma ShiftBackMonth(d: CalendarDate)
    ensures var r := ShiftBackOneMonth(d);
      if d.month == 1 then r.year == d.year - 1 && r.month == 12
      else r.year == d.year && r.month == d.month - 1
  {
    var r := ShiftBackOneMonth(d);
    assert 1 <= r.month <= 12;
  }

  /** 15 January to 10 February 2021 is 26 days. */
  lemma JanuaryToFebruaryGap()
    ensures DayNumber(Date(2021, 2, 10)) - DayNumber(Date(2021, 1, 15)) == 26
  {
  }
}
