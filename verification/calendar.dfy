/** Proleptic Gregorian calendar dates, as Python's `datetime.date` has them:
    years 1..9999, the leap-year rule, day ordinals (1 January of year 1 is
    day 1), the subtraction that `(a - b).days` performs, and the
    field-by-field comparison of dates. */
module Calendar {
  import opened Arith

  datatype Date = Date(year: int, month: int, day: int)

  const MinYear := 1
  const MaxYear := 9999

  predicate IsLeapYear(y: int) {
    y % 4 == 0 && (y % 100 != 0 || y % 400 == 0)
  }

  function DaysInYear(y: int): int {
    if IsLeapYear(y) then 366 else 365
  }

  function DaysInMonth(y: int, m: int): int
    requires 1 <= m <= 12
  {
    if m == 2 then (if IsLeapYear(y) then 29 else 28)
    else if m == 4 || m == 6 || m == 9 || m == 11 then 30
    else 31
  }

  /** A date `datetime.date` can represent. */
  predicate ValidDate(d: Date) {
    MinYear <= d.year <= MaxYear && 1 <= d.month <= 12 && 1 <= d.day <= DaysInMonth(d.year, d.month)
  }

  /** Days in the years before `y`, one year at a time. */
  function DaysBeforeYear(y: int): nat
    requires y >= 1
  {
    if y == 1 then 0 else DaysBeforeYear(y - 1) + DaysInYear(y - 1)
  }

  /** Days in the months of year `y` before month `m`, from a table of
      common-year sums plus the leap day once February is past. */
  function DaysBeforeMonth(y: int, m: int): int
    requires 1 <= m <= 12
  {
    [0, 31, 59, 90, 120, 151, 181, 212, 243, 273, 304, 334][m - 1]
      + (if m > 2 && IsLeapYear(y) then 1 else 0)
  }

  /** `date.toordinal()`. */
  function Ordinal(d: Date): int
    requires ValidDate(d)
  {
    DaysBeforeYear(d.year) + DaysBeforeMonth(d.year, d.month) + d.day
  }

  /** `a < b` on dates: year first, then month, then day. */
  predicate Before(a: Date, b: Date) {
    a.year < b.year
    || (a.year == b.year && (a.month < b.month || (a.month == b.month && a.day < b.day)))
  }

  /** The month table agrees with adding the months' lengths one by one. */
  lemma MonthTableSumsLengths(y: int, m: int)
    requires 1 <= m <= 12
    ensures m == 1 ==> DaysBeforeMonth(y, m) == 0
    ensures m < 12 ==> DaysBeforeMonth(y, m + 1) == DaysBeforeMonth(y, m) + DaysInMonth(y, m)
    ensures m == 12 ==> DaysBeforeMonth(y, m) + DaysInMonth(y, m) == DaysInYear(y)
  {
  }

  /** Months before `m2` include all of month `m1` when `m1 < m2`. */
  lemma {:induction false} MonthsBeforeGrow(y: int, m1: int, m2: int)
    requires 1 <= m1 < m2 <= 12
    ensures DaysBeforeMonth(y, m1) + DaysInMonth(y, m1) <= DaysBeforeMonth(y, m2)
    decreases m2
  {
    MonthTableSumsLengths(y, m2 - 1);
    if m1 < m2 - 1 {
      MonthsBeforeGrow(y, m1, m2 - 1);
    }
  }

  /** A valid date's day of the year lies within its year. */
  lemma DayOfYearInRange(d: Date)
    requires ValidDate(d)
    ensures 1 <= DaysBeforeMonth(d.year, d.month) + d.day <= DaysInYear(d.year)
  {
    if d.month < 12 {
      MonthsBeforeGrow(d.year, d.month, 12);
    }
    MonthTableSumsLengths(d.year, 12);
  }

  /** Years before `y2` include all of year `y1` when `y1 < y2`. */
  lemma {:induction false} YearsBeforeGrow(y1: int, y2: int)
    requires 1 <= y1 < y2
    ensures DaysBeforeYear(y1) + DaysInYear(y1) <= DaysBeforeYear(y2)
    decreases y2
  {
    if y1 < y2 - 1 {
      YearsBeforeGrow(y1, y2 - 1);
    }
  }

  /** The one-year-at-a-time count equals the closed form used by Python's
      `datetime` module: 365 days a year plus the leap days of the
      Gregorian rule. */
  lemma {:induction false} DaysBeforeYearClosedForm(y: int)
    requires y >= 1
    ensures DaysBeforeYear(y) == 365 * (y - 1) + (y - 1) / 4 - (y - 1) / 100 + (y - 1) / 400
    decreases y
  {
    if y > 1 {
      DaysBeforeYearClosedForm(y - 1);
      var n := y - 1;
      QuotientStep(n - 1, 4);
      QuotientStep(n - 1, 100);
      QuotientStep(n - 1, 400);
      MultiplesNest(n);
      assert DaysInYear(n) == 365 + (if n % 4 == 0 then 1 else 0)
        - (if n % 100 == 0 then 1 else 0) + (if n % 400 == 0 then 1 else 0);
    }
  }

  /** Ordinals order valid dates exactly as the date comparison does, and
      only equal dates share an ordinal. */
  lemma OrdinalOrder(a: Date, b: Date)
    requires ValidDate(a) && ValidDate(b)
    ensures Before(a, b) <==> Ordinal(a) < Ordinal(b)
    ensures a == b <==> Ordinal(a) == Ordinal(b)
  {
    DayOfYearInRange(a);
    DayOfYearInRange(b);
    if a.year < b.year {
      YearsBeforeGrow(a.year, b.year);
    } else if b.year < a.year {
      YearsBeforeGrow(b.year, a.year);
    } else if a.month < b.month {
      MonthsBeforeGrow(a.year, a.month, b.month);
    } else if b.month < a.month {
      MonthsBeforeGrow(a.year, b.month, a.month);
    }
  }
}
