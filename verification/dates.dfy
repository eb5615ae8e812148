/** Calendar dates as Python's `datetime.date` represents them: the
    proleptic Gregorian calendar over years 1 to 9999, with day ordinals
    counted as `date.toordinal()` counts them. */
module Dates {
  import opened Outcomes

  datatype Date = Date(year: int, month: int, day: int)

  const MinYear := 1
  const MaxYear := 9999

  predicate IsLeapYear(y: int) {
    y % 4 == 0 && (y % 100 != 0 || y % 400 == 0)
  }

  function DaysInYear(y: int): int {
    if IsLeapYear(y) then 366 else 365
  }

  function DaysInMonth(y: int, m: int): (n: int)
    requires 1 <= m <= 12
    ensures 28 <= n <= 31
  {
    if m == 2 then (if IsLeapYear(y) then 29 else 28)
    else if m == 4 || m == 6 || m == 9 || m == 11 then 30
    else 31
  }

  /** The triples `date(y, m, d)` accepts without raising ValueError. */
  predicate ValidDate(d: Date) {
    && MinYear <= d.year <= MaxYear
    && 1 <= d.month <= 12
    && 1 <= d.day <= DaysInMonth(d.year, d.month)
  }

  /** Python's tuple comparison `(a.month, a.day) < (b.month, b.day)`. */
  predicate MonthDayBefore(a: Date, b: Date) {
    a.month < b.month || (a.month == b.month && a.day < b.day)
  }

  /** `a < b` on dates: lexicographic on (year, month, day). */
  predicate Before(a: Date, b: Date) {
    a.year < b.year || (a.year == b.year && MonthDayBefore(a, b))
  }

  /** `d.replace(year=y)`: the same month and day in year `y`, or the
      ValueError raised when that day does not exist. */
  function WithYear(d: Date, y: int): (r: Option<Date>)
    requires ValidDate(d)
    ensures r.Some? <==> MinYear <= y <= MaxYear && !(d.month == 2 && d.day == 29 && !IsLeapYear(y))
    ensures r.Some? ==> r.value.year == y && r.value.month == d.month && r.value.day == d.day
    ensures r.Some? ==> ValidDate(r.value)
  {
    var moved := Date(y, d.month, d.day);
    if ValidDate(moved) then Some(moved) else None
  }

  /** The birth-date form field after `.strip()`: empty, text that does not
      read as three numbers in the `%Y-%m-%d` layout, or the three numbers
      it does read as. */
  datatype DateField = Blank | Unreadable | Entered(year: int, month: int, day: int)

  /** `datetime.strptime(text, '%Y-%m-%d').date()`, which `validate_date`
      uses as a test: succeeds exactly when the numbers name a real date. */
  function ParseDate(f: DateField): (r: Option<Date>)
    ensures r.Some? <==> f.Entered? && ValidDate(Date(f.year, f.month, f.day))
    ensures r.Some? ==> r.value == Date(f.year, f.month, f.day)
  {
    match f
    case Entered(y, m, d) => if ValidDate(Date(y, m, d)) then Some(Date(y, m, d)) else None
    case _ => None
  }

  function DaysBeforeYear(y: int): int
    requires y >= 1
  {
    var p := y - 1;
    p * 365 + p / 4 - p / 100 + p / 400
  }

  function DaysBeforeMonth(y: int, m: int): int
    requires 1 <= m <= 12
  {
    [0, 31, 59, 90, 120, 151, 181, 212, 243, 273, 304, 334][m - 1]
    + (if m > 2 && IsLeapYear(y) then 1 else 0)
  }

  /** `d.toordinal()`: 1 for 0001-01-01, one more for every later day. */
  function Ordinal(d: Date): int
    requires ValidDate(d)
  {
    DaysBeforeYear(d.year) + DaysBeforeMonth(d.year, d.month) + d.day
  }

  /** `(a - b).days` for two dates. */
  function DaysBetween(a: Date, b: Date): int
    requires ValidDate(a) && ValidDate(b)
  {
    Ordinal(a) - Ordinal(b)
  }

  /** The day difference is positive exactly when the first date is later,
      and zero exactly when the two dates are the same. */
  lemma DaysBetweenSign(a: Date, b: Date)
    requires ValidDate(a) && ValidDate(b)
    ensures DaysBetween(a, b) > 0 <==> Before(b, a)
    ensures DaysBetween(a, b) == 0 <==> a == b
  {
    OrdinalMonotone(b, a);
  }

  lemma MonthStep(y: int, m: int)
    requires 1 <= m <= 12
    ensures m < 12 ==> DaysBeforeMonth(y, m) + DaysInMonth(y, m) == DaysBeforeMonth(y, m + 1)
    ensures m == 12 ==> DaysBeforeMonth(y, m) + DaysInMonth(y, m) == DaysInYear(y)
  {
  }

  /** A month ends no later than any later month of the same year begins,
      and the last month ends with the year. */
  lemma {:induction false} MonthEndsBefore(y: int, m: int, n: int)
    requires 1 <= m < n <= 12
    ensures DaysBeforeMonth(y, m) + DaysInMonth(y, m) <= DaysBeforeMonth(y, n)
    decreases n - m
  {
    MonthStep(y, m);
    if m + 1 < n {
      MonthEndsBefore(y, m + 1, n);
    }
  }

  lemma MonthEndsWithYear(y: int, m: int)
    requires 1 <= m <= 12
    ensures DaysBeforeMonth(y, m) + DaysInMonth(y, m) <= DaysInYear(y)
  {
    MonthStep(y, 12);
    if m < 12 {
      MonthEndsBefore(y, m, 12);
    }
  }

  /** One more year crosses a multiple of `k` (4, 100 or 400) exactly when
      the new count is that multiple. */
  lemma DivStep(p: int)
    requires p >= 0
    ensures (p + 1) / 4 == p / 4 + (if (p + 1) % 4 == 0 then 1 else 0)
    ensures (p + 1) / 100 == p / 100 + (if (p + 1) % 100 == 0 then 1 else 0)
    ensures (p + 1) / 400 == p / 400 + (if (p + 1) % 400 == 0 then 1 else 0)
  {
    var q4, q100, q400 := p / 4, p / 100, p / 400;
    assert p == 4 * q4 + p % 4;
    assert p == 100 * q100 + p % 100;
    assert p == 400 * q400 + p % 400;
  }

  lemma YearStep(y: int)
    requires y >= 1
    ensures DaysBeforeYear(y + 1) == DaysBeforeYear(y) + DaysInYear(y)
  {
    DivStep(y - 1);
  }

  /** A year ends no later than any later year begins. */
  lemma {:induction false} YearEndsBefore(y: int, z: int)
    requires 1 <= y < z
    ensures DaysBeforeYear(y) + DaysInYear(y) <= DaysBeforeYear(z)
    decreases z - y
  {
    YearStep(y);
    if y + 1 < z {
      YearEndsBefore(y + 1, z);
      YearStep(y + 1);
    }
  }

  /** Ordinals grow with the date order, so `(a - b).days > 0` exactly when
      `b < a`. */
  lemma OrdinalMonotone(a: Date, b: Date)
    requires ValidDate(a) && ValidDate(b)
    ensures Before(a, b) <==> Ordinal(a) < Ordinal(b)
    ensures a == b <==> Ordinal(a) == Ordinal(b)
  {
    if Before(a, b) {
      OrdinalBelow(a, b);
    } else if Before(b, a) {
      OrdinalBelow(b, a);
    }
  }

  lemma OrdinalBelow(a: Date, b: Date)
    requires ValidDate(a) && ValidDate(b)
    requires Before(a, b)
    ensures Ordinal(a) < Ordinal(b)
  {
    if a.year < b.year {
      MonthEndsWithYear(a.year, a.month);
      YearEndsBefore(a.year, b.year);
    } else if a.month < b.month {
      MonthEndsBefore(a.year, a.month, b.month);
    }
  }
}
