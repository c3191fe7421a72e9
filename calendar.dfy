/**
 * Dates of the proleptic Gregorian calendar, as Python's `datetime.date`
 * represents them: ordering, day numbers, weekdays and the successor date.
 */
module Calendar {

  /** The largest year a Python date can hold (`datetime.MAXYEAR`). */
  const MaxYear := 9999

  datatype Date = Date(year: int, month: int, day: int)

  predicate IsLeap(y: int) {
    y % 4 == 0 && (y % 100 != 0 || y % 400 == 0)
  }

  function DaysInMonth(y: int, m: int): (n: int)
    requires 1 <= m <= 12
    ensures 28 <= n <= 31
  {
    if m == 2 then (if IsLeap(y) then 29 else 28)
    else if m == 4 || m == 6 || m == 9 || m == 11 then 30
    else 31
  }

  function DaysInYear(y: int): int {
    if IsLeap(y) then 366 else 365
  }

  /** A date of the proleptic Gregorian calendar from year 1 on, with no upper bound. */
  predicate IsCalendarDate(d: Date) {
    1 <= d.year && 1 <= d.month <= 12 && 1 <= d.day <= DaysInMonth(d.year, d.month)
  }

  /** A date that Python's `date` type can hold: years 1 to 9999. */
  predicate ValidDate(d: Date) {
    IsCalendarDate(d) && d.year <= MaxYear
  }

  /** Python's comparison of dates: lexicographic on (year, month, day). */
  predicate Before(a: Date, b: Date) {
    a.year < b.year || (a.year == b.year && (a.month < b.month || (a.month == b.month && a.day < b.day)))
  }

  /** Days from 0001-01-01 to January 1st of year `y`. */
  function DaysBeforeYear(y: int): (n: int)
    requires 1 <= y
    ensures 0 <= n
  {
    var p := y - 1;
    365 * p + p / 4 - p / 100 + p / 400
  }

  /** Days from January 1st of year `y` to the first day of month `m`. */
  function DaysBeforeMonth(y: int, m: int): (n: int)
    requires 1 <= m <= 12
    ensures 0 <= n
  {
    var common := [0, 31, 59, 90, 120, 151, 181, 212, 243, 273, 304, 334][m - 1];
    if m > 2 && IsLeap(y) then common + 1 else common
  }

  /** Days since 0001-01-01, which is day 0: Python's `date.toordinal()` minus one. */
  function DayNumber(d: Date): (n: int)
    requires IsCalendarDate(d)
    ensures 0 <= n
  {
    DaysBeforeYear(d.year) + DaysBeforeMonth(d.year, d.month) + d.day - 1
  }

  /** Day of the week as Python's `date.weekday()`: Monday is 0, Saturday 5, Sunday 6. */
  function Weekday(d: Date): (w: int)
    requires IsCalendarDate(d)
    ensures 0 <= w < 7
  {
    DayNumber(d) % 7
  }

  /** A year contributes exactly its length to the day count. */
  lemma YearStep(y: int)
    requires 1 <= y
    ensures DaysBeforeYear(y + 1) == DaysBeforeYear(y) + DaysInYear(y)
  {
    var p := y - 1;
    assert (p + 1) / 4 == p / 4 + (if (p + 1) % 4 == 0 then 1 else 0);
    assert (p + 1) / 100 == p / 100 + (if (p + 1) % 100 == 0 then 1 else 0);
    assert (p + 1) / 400 == p / 400 + (if (p + 1) % 400 == 0 then 1 else 0);
  }

  /** A month contributes exactly its length to the day count. */
  lemma MonthStep(y: int, m: int)
    requires 1 <= m <= 12
    ensures m < 12 ==> DaysBeforeMonth(y, m + 1) == DaysBeforeMonth(y, m) + DaysInMonth(y, m)
    ensures m == 12 ==> DaysBeforeMonth(y, m) + DaysInMonth(y, m) == DaysInYear(y)
  {
  }

  /** Later years start later: by at least 365 days per year in between. */
  lemma {:induction false} YearsIncrease(a: int, b: int)
    requires 1 <= a <= b
    ensures DaysBeforeYear(a) + 365 * (b - a) <= DaysBeforeYear(b)
    decreases b - a
  {
    if a < b {
      YearsIncrease(a, b - 1);
      YearStep(b - 1);
    }
  }

  /** Later months of one year start later, after the whole of every earlier month. */
  lemma {:induction false} MonthsIncrease(y: int, a: int, b: int)
    requires 1 <= a < b <= 12
    ensures DaysBeforeMonth(y, a) + DaysInMonth(y, a) <= DaysBeforeMonth(y, b)
    decreases b - a
  {
    MonthStep(y, a);
    if a + 1 < b {
      MonthsIncrease(y, a + 1, b);
    }
  }

  /** Every day of a year is numbered before the first day of the next year. */
  lemma WithinYear(d: Date)
    requires IsCalendarDate(d)
    ensures DaysBeforeYear(d.year) <= DayNumber(d) < DaysBeforeYear(d.year + 1)
  {
    YearStep(d.year);
    if d.month < 12 {
      MonthsIncrease(d.year, d.month, 12);
    }
    MonthStep(d.year, 12);
  }

  /** A date in an earlier year has a smaller day number. */
  lemma EarlierYear(x: Date, y: Date)
    requires IsCalendarDate(x) && IsCalendarDate(y) && x.year < y.year
    ensures DayNumber(x) < DayNumber(y)
  {
    WithinYear(x);
    WithinYear(y);
    YearsIncrease(x.year + 1, y.year);
  }

  /** A date in an earlier month of the same year has a smaller day number. */
  lemma EarlierMonth(x: Date, y: Date)
    requires IsCalendarDate(x) && IsCalendarDate(y) && x.year == y.year && x.month < y.month
    ensures DayNumber(x) < DayNumber(y)
  {
    MonthsIncrease(x.year, x.month, y.month);
  }

  /** Python's ordering of dates agrees with their day numbers. */
  lemma BeforeIffEarlier(a: Date, b: Date)
    requires IsCalendarDate(a) && IsCalendarDate(b)
    ensures Before(a, b) <==> DayNumber(a) < DayNumber(b)
    ensures a == b <==> DayNumber(a) == DayNumber(b)
  {
    if a.year < b.year {
      EarlierYear(a, b);
    } else if b.year < a.year {
      EarlierYear(b, a);
    } else if a.month < b.month {
      EarlierMonth(a, b);
    } else if b.month < a.month {
      EarlierMonth(b, a);
    }
  }

  /** The following calendar day, as `d + timedelta(days=1)`. */
  function NextDay(d: Date): (e: Date)
    requires IsCalendarDate(d)
    ensures IsCalendarDate(e)
    ensures DayNumber(e) == DayNumber(d) + 1
    ensures Weekday(e) == (Weekday(d) + 1) % 7
  {
    var e :=
      if d.day < DaysInMonth(d.year, d.month) then Date(d.year, d.month, d.day + 1)
      else if d.month < 12 then Date(d.year, d.month + 1, 1)
      else Date(d.year + 1, 1, 1);
    NextDayNumber(d, e);
    e
  }

  lemma NextDayNumber(d: Date, e: Date)
    requires IsCalendarDate(d)
    requires e == if d.day < DaysInMonth(d.year, d.month) then Date(d.year, d.month, d.day + 1)
                  else if d.month < 12 then Date(d.year, d.month + 1, 1)
                  else Date(d.year + 1, 1, 1)
    ensures IsCalendarDate(e)
    ensures DayNumber(e) == DayNumber(d) + 1
    ensures Weekday(e) == (Weekday(d) + 1) % 7
  {
    if d.day < DaysInMonth(d.year, d.month) {
    } else if d.month < 12 {
      MonthStep(d.year, d.month);
    } else {
      MonthStep(d.year, 12);
      YearStep(d.year);
    }
    WeekdayStep(DayNumber(d), DayNumber(e));
  }

  lemma WeekdayStep(n: int, m: int)
    requires 0 <= n && m == n + 1
    ensures m % 7 == (n % 7 + 1) % 7
  {
  }

  /** The last day Python can represent, 9999-12-31, is a Friday. */
  lemma LastDayIsFriday()
    ensures Weekday(Date(MaxYear, 12, 31)) == 4
    ensures Weekday(Date(MaxYear, 12, 30)) == 3
  {
  }
}
