/**
 * The proleptic Gregorian calendar of Python's `datetime.date`: dates are
 * (year, month, day) triples, and the day ordinal (1 for 0001-01-01) turns
 * date differences and weekdays into integer arithmetic.
 */
module Calendar {
  import opened Results

  const MinYear := 1
  const MaxYear := 9999

  datatype Date = Date(year: int, month: int, day: int)

  /** The last date `datetime.date` can represent. */
  const MaxDate := Date(MaxYear, 12, 31)

  predicate IsLeap(y: int) {
    y % 4 == 0 && (y % 100 != 0 || y % 400 == 0)
  }

  function YearLength(y: int): int {
    if IsLeap(y) then 366 else 365
  }

  function DaysInMonth(y: int, m: int): (n: int)
    requires 1 <= m <= 12
    ensures 28 <= n <= 31
    ensures n == 29 <==> m == 2 && IsLeap(y)
  {
    if m == 2 then (if IsLeap(y) then 29 else 28)
    else if m == 4 || m == 6 || m == 9 || m == 11 then 30
    else 31
  }

  /** A date of the unbounded proleptic Gregorian calendar. */
  predicate IsCalendarDate(d: Date) {
    MinYear <= d.year && 1 <= d.month <= 12 && 1 <= d.day <= DaysInMonth(d.year, d.month)
  }

  /** A date `datetime.date` accepts: years 1 to 9999. */
  predicate IsPyDate(d: Date) {
    IsCalendarDate(d) && d.year <= MaxYear
  }

  /** Days of a common year before the first day of month `m` (13 stands for the next year). */
  function CommonDaysBeforeMonth(m: int): int
    requires 1 <= m <= 13
  {
    [0, 31, 59, 90, 120, 151, 181, 212, 243, 273, 304, 334, 365][m - 1]
  }

  /** Number of days in year `y` before the first day of month `m`: the common-year table plus the leap day. */
  function DaysBeforeMonth(y: int, m: int): int
    requires 1 <= m <= 13
  {
    CommonDaysBeforeMonth(m) + (if m > 2 && IsLeap(y) then 1 else 0)
  }

  /** Number of days before January 1st of year `y`, in closed form. */
  function DaysBeforeYear(y: int): int
    requires y >= 1
  {
    var p := y - 1;
    p * 365 + p / 4 - p / 100 + p / 400
  }

  /** The day ordinal of `date.toordinal()`: 0001-01-01 is day 1. */
  function Ordinal(d: Date): (n: int)
    requires IsCalendarDate(d)
    ensures n >= 1
    ensures d.year == 1 ==> n <= 365
  {
    DaysBeforeYear(d.year) + DaysBeforeMonth(d.year, d.month) + d.day
  }

  /** `date.weekday()`: Monday is 0 and Sunday is 6; ordinal 1 is a Monday. */
  function Weekday(d: Date): (w: int)
    requires IsCalendarDate(d)
    ensures 0 <= w < 7
  {
    (Ordinal(d) + 6) % 7
  }

  /** The number of whole days from `b` to `a`, as `(a - b).days`. */
  function DaysBetween(a: Date, b: Date): (n: int)
    requires IsCalendarDate(a) && IsCalendarDate(b)
    ensures n < 0 <==> Before(a, b)
    ensures n == 0 <==> a == b
    ensures n > 0 <==> Before(b, a)
  {
    BeforeIsOrdinalLess(a, b);
    BeforeIsOrdinalLess(b, a);
    Ordinal(a) - Ordinal(b)
  }

  /** `a < b` on dates: lexicographic on (year, month, day). */
  predicate Before(a: Date, b: Date): (r: bool)
    ensures r ==> a != b && a.year <= b.year
    ensures a.year < b.year ==> r
  {
    a.year < b.year || (a.year == b.year && (a.month < b.month || (a.month == b.month && a.day < b.day)))
  }

  /** `<` on dates is a strict total order: of two different dates exactly one comes first. */
  lemma BeforeIsTotal(a: Date, b: Date)
    ensures !(Before(a, b) && Before(b, a))
    ensures a != b ==> Before(a, b) || Before(b, a)
  {
  }

  /** The day after `d`. */
  function NextDay(d: Date): (r: Date)
    requires IsCalendarDate(d)
    ensures IsCalendarDate(r) && Before(d, r)
  {
    if d.day < DaysInMonth(d.year, d.month) then Date(d.year, d.month, d.day + 1)
    else if d.month < 12 then Date(d.year, d.month + 1, 1)
    else Date(d.year + 1, 1, 1)
  }

  /** `d + timedelta(days=n)` for a non-negative `n`, before any range check. */
  function AddDays(d: Date, n: nat): (r: Date)
    requires IsCalendarDate(d)
    ensures IsCalendarDate(r) && Ordinal(r) == Ordinal(d) + n
    decreases n
  {
    if n == 0 then d
    else
      NextDayOrdinal(d);
      AddDays(NextDay(d), n - 1)
  }

  /** `d.replace(year=y)`: fails when the year leaves 1..9999 or the day is not in that year's month. */
  function Replace(d: Date, y: int): (r: Result<Date>)
    requires IsCalendarDate(d)
    ensures r.Ok? <==> MinYear <= y <= MaxYear && !(d.month == 2 && d.day == 29 && !IsLeap(y))
    ensures r.Ok? ==> IsPyDate(r.value) && r.value == Date(y, d.month, d.day)
    ensures r.Err? ==> r.error == DateOutOfRange
  {
    if MinYear <= y <= MaxYear && d.day <= DaysInMonth(y, d.month) then Ok(Date(y, d.month, d.day))
    else Err(DateOutOfRange)
  }

  // ---------------------------------------------------------------------------
  // Ordinal arithmetic

  lemma DaysBeforeMonthStep(y: int, m: int)
    requires 1 <= m <= 12
    ensures DaysBeforeMonth(y, m + 1) == DaysBeforeMonth(y, m) + DaysInMonth(y, m)
  {
  }

  lemma {:induction false} DaysBeforeMonthGrows(y: int, m1: int, m2: int)
    requires 1 <= m1 < m2 <= 13
    ensures DaysBeforeMonth(y, m1) + DaysInMonth(y, m1) <= DaysBeforeMonth(y, m2)
    decreases m2
  {
    DaysBeforeMonthStep(y, m2 - 1);
    if m1 < m2 - 1 {
      DaysBeforeMonthGrows(y, m1, m2 - 1);
    }
  }

  lemma DaysBeforeYearStep(y: int)
    requires y >= 1
    ensures DaysBeforeYear(y + 1) == DaysBeforeYear(y) + YearLength(y)
  {
    MultiplesStep(y, 4);
    MultiplesStep(y, 100);
    MultiplesStep(y, 400);
  }

  /** The count `y / k` of multiples of `k` up to `y` grows by one exactly at a multiple of `k`. */
  lemma MultiplesStep(y: int, k: int)
    requires k == 4 || k == 100 || k == 400
    ensures y / k - (y - 1) / k == if y % k == 0 then 1 else 0
  {
    if k == 4 {
      assert y / 4 - (y - 1) / 4 == if y % 4 == 0 then 1 else 0;
    } else if k == 100 {
      assert y / 100 - (y - 1) / 100 == if y % 100 == 0 then 1 else 0;
    } else {
      assert y / 400 - (y - 1) / 400 == if y % 400 == 0 then 1 else 0;
    }
  }

  lemma {:induction false} DaysBeforeYearGrows(y1: int, y2: int)
    requires 1 <= y1 < y2
    ensures DaysBeforeYear(y1) + YearLength(y1) <= DaysBeforeYear(y2)
    decreases y2
  {
    DaysBeforeYearStep(y2 - 1);
    if y1 < y2 - 1 {
      DaysBeforeYearGrows(y1, y2 - 1);
    }
  }

  /** A date's ordinal lies inside its year's range of ordinals. */
  lemma OrdinalInYear(d: Date)
    requires IsCalendarDate(d)
    ensures DaysBeforeYear(d.year) < Ordinal(d) <= DaysBeforeYear(d.year) + YearLength(d.year)
  {
    if d.month < 12 {
      DaysBeforeMonthGrows(d.year, d.month, 12);
    }
  }

  lemma NextDayOrdinal(d: Date)
    requires IsCalendarDate(d)
    ensures Ordinal(NextDay(d)) == Ordinal(d) + 1
  {
    if d.day == DaysInMonth(d.year, d.month) && d.month == 12 {
      DaysBeforeYearStep(d.year);
    }
  }

  /** Comparing dates is comparing their ordinals. */
  lemma BeforeIsOrdinalLess(a: Date, b: Date)
    requires IsCalendarDate(a) && IsCalendarDate(b)
    ensures Before(a, b) <==> Ordinal(a) < Ordinal(b)
    ensures a == b <==> Ordinal(a) == Ordinal(b)
  {
    if Before(a, b) {
      OrdinalIncreases(a, b);
    } else if Before(b, a) {
      OrdinalIncreases(b, a);
    }
  }

  lemma OrdinalIncreases(a: Date, b: Date)
    requires IsCalendarDate(a) && IsCalendarDate(b) && Before(a, b)
    ensures Ordinal(a) < Ordinal(b)
  {
    if a.year < b.year {
      OrdinalInYear(a);
      OrdinalInYear(b);
      DaysBeforeYearGrows(a.year, b.year);
    } else if a.month < b.month {
      DaysBeforeMonthGrows(a.year, a.month, b.month);
    }
  }

  /** The dates `datetime.date` accepts are exactly the calendar dates up to 9999-12-31. */
  lemma PyDateIsUpToMaxDate(d: Date)
    requires IsCalendarDate(d)
    ensures IsPyDate(d) <==> Ordinal(d) <= Ordinal(MaxDate)
  {
    BeforeIsOrdinalLess(d, MaxDate);
    BeforeIsOrdinalLess(MaxDate, d);
  }

  /** 9999-12-31 is a Friday. */
  lemma MaxDateIsFriday()
    ensures IsPyDate(MaxDate) && Weekday(MaxDate) == 4
  {
  }
}
