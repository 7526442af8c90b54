/**
 * Proleptic Gregorian calendar arithmetic in UTC, as `calendar.timegm(datetime.date(y, m, d).timetuple())`
 * performs it: the number of days from 1970-01-01 to a date, and its midnight in epoch seconds.
 */
module Calendar {

  const SecondsPerDay := 86400
  /** `datetime.MINYEAR` and `datetime.MAXYEAR`: `datetime.date` refuses years outside this range. */
  const MinYear := 1
  const MaxYear := 9999

  datatype Date = Date(year: int, month: int, day: int)

  predicate IsLeapYear(y: int) {
    y % 4 == 0 && (y % 100 != 0 || y % 400 == 0)
  }

  function DaysInYear(y: int): int {
    if IsLeapYear(y) then 366 else 365
  }

  function DaysInMonth(y: int, m: int): (n: int)
    requires 1 <= m <= 12
    ensures 28 <= n <= 31
  {
    if m == 2 then (if IsLeapYear(y) then 29 else 28)
    else if m == 4 || m == 6 || m == 9 || m == 11 then 30
    else 31
  }

  /** The dates `datetime.date` accepts; for any other year, month and day it raises `ValueError`. */
  predicate ValidDate(d: Date) {
    MinYear <= d.year <= MaxYear && 1 <= d.month <= 12 && 1 <= d.day <= DaysInMonth(d.year, d.month)
  }

  // ---------------------------------------------------------------------------------------------
  // Reference definitions: count the days one year, and one month, at a time.

  /** Days from 1970-01-01 to January 1st of year `y` (negative before 1970). */
  function YearStart(y: int): int
    decreases if y < 1970 then 1970 - y else y - 1970
  {
    if y == 1970 then 0
    else if y > 1970 then YearStart(y - 1) + DaysInYear(y - 1)
    else YearStart(y + 1) - DaysInYear(y)
  }

  /** Days from January 1st to the first day of month `m` of year `y` (`m == 13` gives the whole year). */
  function MonthStart(y: int, m: int): int
    requires 1 <= m <= 13
  {
    if m == 1 then 0 else MonthStart(y, m - 1) + DaysInMonth(y, m - 1)
  }

  // ---------------------------------------------------------------------------------------------
  // Closed forms, as an implementation computes them.

  /** The number of leap years among 1..n, for n >= 0. */
  function LeapYearsThrough(n: int): int {
    n / 4 - n / 100 + n / 400
  }

  function DaysBeforeYear(y: int): int {
    365 * (y - 1970) + LeapYearsThrough(y - 1) - LeapYearsThrough(1969)
  }

  const CumulativeDays: seq<int> := [0, 31, 59, 90, 120, 151, 181, 212, 243, 273, 304, 334, 365]

  function DaysBeforeMonth(y: int, m: int): int
    requires 1 <= m <= 13
  {
    CumulativeDays[m - 1] + (if m > 2 && IsLeapYear(y) then 1 else 0)
  }

  /** Days from 1970-01-01 to the given date: the days of the years and months before it, plus the day minus one. */
  function EpochDay(d: Date): (n: int)
    requires 1 <= d.month <= 12
    ensures n == YearStart(d.year) + MonthStart(d.year, d.month) + d.day - 1
  {
    DaysBeforeYearIsYearStart(d.year);
    DaysBeforeMonthIsMonthStart(d.year, d.month);
    DaysBeforeYear(d.year) + DaysBeforeMonth(d.year, d.month) + d.day - 1
  }

  /** What `calendar.timegm` gives for midnight UTC of a date: a whole number of days, `EpochDay` of them. */
  function MidnightUtc(d: Date): (t: int)
    requires 1 <= d.month <= 12
    ensures t % SecondsPerDay == 0 && t / SecondsPerDay == EpochDay(d)
  {
    EpochDay(d) * SecondsPerDay
  }

  // ---------------------------------------------------------------------------------------------
  // The closed forms agree with the reference definitions.

  lemma FourYearStep(n: int)
    ensures n / 4 - (n - 1) / 4 == if n % 4 == 0 then 1 else 0
  {
  }

  lemma CenturyStep(n: int)
    ensures n / 100 - (n - 1) / 100 == if n % 100 == 0 then 1 else 0
  {
  }

  lemma QuadricentennialStep(n: int)
    ensures n / 400 - (n - 1) / 400 == if n % 400 == 0 then 1 else 0
  {
  }

  /** Going from year n - 1 to year n adds one leap year exactly when n is one. */
  lemma LeapYearsStep(n: int)
    ensures LeapYearsThrough(n) - LeapYearsThrough(n - 1) == if IsLeapYear(n) then 1 else 0
  {
    FourYearStep(n);
    CenturyStep(n);
    QuadricentennialStep(n);
  }

  /** Consecutive years are `DaysInYear` apart. */
  lemma DaysBeforeNextYear(y: int)
    ensures DaysBeforeYear(y + 1) == DaysBeforeYear(y) + DaysInYear(y)
  {
    LeapYearsStep(y);
  }

  lemma {:induction false} DaysBeforeYearIsYearStart(y: int)
    ensures DaysBeforeYear(y) == YearStart(y)
    decreases if y < 1970 then 1970 - y else y - 1970
  {
    if y > 1970 {
      DaysBeforeYearIsYearStart(y - 1);
      DaysBeforeNextYear(y - 1);
    } else if y < 1970 {
      DaysBeforeYearIsYearStart(y + 1);
      DaysBeforeNextYear(y);
    }
  }

  lemma {:induction false} DaysBeforeMonthIsMonthStart(y: int, m: int)
    requires 1 <= m <= 13
    ensures DaysBeforeMonth(y, m) == MonthStart(y, m)
  {
    if m > 1 {
      DaysBeforeMonthIsMonthStart(y, m - 1);
    }
  }

  // ---------------------------------------------------------------------------------------------
  // What the day count means: day 0 is 1970-01-01 and each following date is one more.

  /** The calendar date after `d`. */
  function NextDay(d: Date): (n: Date)
    requires ValidDate(d)
    ensures 1 <= n.month <= 12 && 1 <= n.day <= DaysInMonth(n.year, n.month)
  {
    if d.day < DaysInMonth(d.year, d.month) then Date(d.year, d.month, d.day + 1)
    else if d.month < 12 then Date(d.year, d.month + 1, 1)
    else Date(d.year + 1, 1, 1)
  }

  lemma EpochDayOrigin()
    ensures EpochDay(Date(1970, 1, 1)) == 0
  {
  }

  lemma EpochDayNext(d: Date)
    requires ValidDate(d)
    ensures EpochDay(NextDay(d)) == EpochDay(d) + 1
  {
    if d.day == DaysInMonth(d.year, d.month) {
      if d.month < 12 {
        DaysBeforeMonthIsMonthStart(d.year, d.month + 1);
        DaysBeforeMonthIsMonthStart(d.year, d.month);
      } else {
        DaysBeforeNextYear(d.year);
      }
    }
  }

  /** Lexicographic order on (year, month, day). */
  predicate Before(a: Date, b: Date) {
    a.year < b.year || (a.year == b.year && (a.month < b.month || (a.month == b.month && a.day < b.day)))
  }

  lemma {:induction false} DaysBeforeMonthMonotone(y: int, m: int, m': int)
    requires 1 <= m <= m' <= 13
    ensures DaysBeforeMonth(y, m) <= DaysBeforeMonth(y, m')
    decreases m' - m
  {
    if m < m' {
      DaysBeforeMonthMonotone(y, m, m' - 1);
      DaysBeforeMonthIsMonthStart(y, m' - 1);
      DaysBeforeMonthIsMonthStart(y, m');
    }
  }

  lemma {:induction false} DaysBeforeYearMonotone(y: int, y': int)
    requires y <= y'
    ensures DaysBeforeYear(y) <= DaysBeforeYear(y')
    decreases y' - y
  {
    if y < y' {
      DaysBeforeYearMonotone(y, y' - 1);
      DaysBeforeNextYear(y' - 1);
    }
  }

  /** A valid date's day count falls inside its month. */
  lemma EpochDayWithinMonth(d: Date)
    requires ValidDate(d)
    ensures DaysBeforeYear(d.year) + DaysBeforeMonth(d.year, d.month) <= EpochDay(d)
    ensures EpochDay(d) < DaysBeforeYear(d.year) + DaysBeforeMonth(d.year, d.month + 1)
  {
    DaysBeforeMonthIsMonthStart(d.year, d.month + 1);
    DaysBeforeMonthIsMonthStart(d.year, d.month);
  }

  lemma EpochDayWithinYear(d: Date)
    requires ValidDate(d)
    ensures DaysBeforeYear(d.year) <= EpochDay(d) < DaysBeforeYear(d.year + 1)
  {
    EpochDayWithinMonth(d);
    DaysBeforeMonthMonotone(d.year, d.month + 1, 13);
    DaysBeforeNextYear(d.year);
  }

  /** Later dates have larger day counts, so distinct valid dates never share a midnight. */
  lemma EpochDayStrictlyIncreasing(a: Date, b: Date)
    requires ValidDate(a) && ValidDate(b) && Before(a, b)
    ensures EpochDay(a) < EpochDay(b)
  {
    if a.year < b.year {
      EpochDayWithinYear(a);
      EpochDayWithinYear(b);
      DaysBeforeYearMonotone(a.year + 1, b.year);
    } else if a.month < b.month {
      EpochDayWithinMonth(a);
      EpochDayWithinMonth(b);
      DaysBeforeMonthMonotone(a.year, a.month + 1, b.month);
    }
  }
}
