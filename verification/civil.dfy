/** Calendar arithmetic as Python's `datetime.date` does it: proleptic Gregorian dates,
    day ordinals (`toordinal`, 0001-01-01 is day 1), weekdays (Monday is 0), stepping by
    days, and `replace`, which fails when the requested day does not exist. */
module Civil {
  import opened Results

  datatype Date = Date(year: int, month: int, day: int)

  /** A wall-clock time on a date, in minutes since midnight, in the fixed +05:30 zone. */
  datatype DateTime = DateTime(date: Date, minute: int)

  predicate IsLeap(y: int) {
    y % 4 == 0 && (y % 100 != 0 || y % 400 == 0)
  }

  function DaysInYear(y: int): int {
    if IsLeap(y) then 366 else 365
  }

  function DaysInMonth(y: int, m: int): int {
    if m == 2 then (if IsLeap(y) then 29 else 28)
    else if m == 4 || m == 6 || m == 9 || m == 11 then 30
    else 31
  }

  predicate Valid(d: Date) {
    1 <= d.month <= 12 && 1 <= d.day <= DaysInMonth(d.year, d.month)
  }

  /** Days in the years before `y` (CPython's `_days_before_year`). */
  function DaysBeforeYear(y: int): int {
    var p := y - 1;
    365 * p + p / 4 - p / 100 + p / 400
  }

  /** Days in the months of `y` before month `m` (CPython's `_days_before_month`). */
  function DaysBeforeMonth(y: int, m: int): int {
    (if m <= 1 then 0 else if m == 2 then 31 else if m == 3 then 59
     else if m == 4 then 90 else if m == 5 then 120 else if m == 6 then 151
     else if m == 7 then 181 else if m == 8 then 212 else if m == 9 then 243
     else if m == 10 then 273 else if m == 11 then 304 else 334)
    + (if m > 2 && IsLeap(y) then 1 else 0)
  }

  /** `date.toordinal()`. */
  function Ordinal(d: Date): int {
    DaysBeforeYear(d.year) + DaysBeforeMonth(d.year, d.month) + d.day
  }

  /** `date.weekday()`: Monday is 0, Sunday is 6. */
  function Weekday(d: Date): int {
    (Ordinal(d) + 6) % 7
  }

  /** `date.isoweekday()`: Monday is 1, Sunday is 7. */
  function IsoWeekday(d: Date): int {
    Weekday(d) + 1
  }

  // Stepping a numerator by one bumps the quotient exactly at multiples of the divisor.
  lemma QuotientStep4(p: int)
    ensures (p + 1) / 4 == p / 4 + (if (p + 1) % 4 == 0 then 1 else 0)
  {
  }

  lemma QuotientStep100(p: int)
    ensures (p + 1) / 100 == p / 100 + (if (p + 1) % 100 == 0 then 1 else 0)
  {
  }

  lemma QuotientStep400(p: int)
    ensures (p + 1) / 400 == p / 400 + (if (p + 1) % 400 == 0 then 1 else 0)
  {
  }

  lemma DaysBeforeYearStep(y: int)
    ensures DaysBeforeYear(y + 1) == DaysBeforeYear(y) + DaysInYear(y)
  {
    var p := y - 1;
    QuotientStep4(p);
    QuotientStep100(p);
    QuotientStep400(p);
    if y % 100 == 0 {
      CenturyIsLeapCandidate(y);
    }
    if y % 400 == 0 {
      QuadCenturyIsCentury(y);
    }
  }

  lemma CenturyIsLeapCandidate(y: int)
    requires y % 100 == 0
    ensures y % 4 == 0
  {
    var q := y / 100;
    assert y == 4 * (25 * q);
  }

  lemma QuadCenturyIsCentury(y: int)
    requires y % 400 == 0
    ensures y % 100 == 0
  {
    var q := y / 400;
    assert y == 100 * (4 * q);
  }

  lemma DaysBeforeYearMonotone(a: int, b: int)
    requires a <= b
    ensures DaysBeforeYear(a) <= DaysBeforeYear(b)
    decreases b - a
  {
    if a < b {
      DaysBeforeYearStep(a);
      DaysBeforeYearMonotone(a + 1, b);
    }
  }

  /** A valid date's ordinal lies inside its year and inside its month. */
  lemma OrdinalBounds(d: Date)
    requires Valid(d)
    ensures DaysBeforeYear(d.year) < Ordinal(d) <= DaysBeforeYear(d.year + 1)
    ensures DaysBeforeMonth(d.year, d.month) < Ordinal(d) - DaysBeforeYear(d.year)
            <= DaysBeforeMonth(d.year, d.month) + DaysInMonth(d.year, d.month)
  {
    DaysBeforeYearStep(d.year);
  }

  /** Distinct valid dates have distinct ordinals, so a date is determined by its ordinal. */
  lemma OrdinalInjective(a: Date, b: Date)
    requires Valid(a) && Valid(b) && Ordinal(a) == Ordinal(b)
    ensures a == b
  {
    if a != b {
      if Before(a, b) {
        OrdinalBefore(a, b);
      } else {
        OrdinalBefore(b, a);
      }
    }
  }

  /** An earlier valid date has a smaller ordinal. */
  lemma OrdinalBefore(a: Date, b: Date)
    requires Valid(a) && Valid(b) && Before(a, b)
    ensures Ordinal(a) < Ordinal(b)
  {
    if a.year < b.year {
      YearsApart(a, b);
    } else if a.month < b.month {
      MonthsApart(a, b);
    }
  }

  lemma YearsApart(a: Date, b: Date)
    requires Valid(a) && Valid(b) && a.year < b.year
    ensures Ordinal(a) < Ordinal(b)
  {
    OrdinalBounds(a);
    OrdinalBounds(b);
    DaysBeforeYearMonotone(a.year + 1, b.year);
  }

  lemma MonthsApart(a: Date, b: Date)
    requires Valid(a) && Valid(b) && a.year == b.year && a.month < b.month
    ensures Ordinal(a) < Ordinal(b)
  {
    DaysBeforeMonthMonotone(a.year, a.month, b.month);
  }

  /** Lexicographic order on (year, month, day), the order Python compares dates in. */
  predicate Before(a: Date, b: Date) {
    a.year < b.year || (a.year == b.year && (a.month < b.month || (a.month == b.month && a.day < b.day)))
  }

  lemma DaysBeforeMonthStep(y: int, m: int)
    requires 1 <= m < 12
    ensures DaysBeforeMonth(y, m + 1) == DaysBeforeMonth(y, m) + DaysInMonth(y, m)
  {
  }

  lemma {:induction false} DaysBeforeMonthMonotone(y: int, m: int, n: int)
    requires 1 <= m < n <= 12
    ensures DaysBeforeMonth(y, m) + DaysInMonth(y, m) <= DaysBeforeMonth(y, n)
    decreases n - m
  {
    DaysBeforeMonthStep(y, m);
    if m + 1 < n {
      DaysBeforeMonthMonotone(y, m + 1, n);
    }
  }

  /** Ordinals order valid dates exactly as the calendar does. */
  lemma OrdinalOrder(a: Date, b: Date)
    requires Valid(a) && Valid(b)
    ensures Ordinal(a) < Ordinal(b) <==> Before(a, b)
  {
    if Before(a, b) {
      OrdinalBefore(a, b);
    } else if a != b {
      OrdinalBefore(b, a);
    }
  }

  /** The day after `d` (`d + timedelta(days=1)`). */
  function NextDay(d: Date): (r: Date)
    ensures Valid(d) ==> Valid(r) && Ordinal(r) == Ordinal(d) + 1
  {
    if d.day < DaysInMonth(d.year, d.month) then Date(d.year, d.month, d.day + 1)
    else if d.month < 12 then Date(d.year, d.month + 1, 1)
    else (DaysBeforeYearStep(d.year); Date(d.year + 1, 1, 1))
  }

  /** The day before `d` (`d - timedelta(days=1)`). */
  function PrevDay(d: Date): (r: Date)
    ensures Valid(d) ==> Valid(r) && Ordinal(r) == Ordinal(d) - 1
  {
    if d.day > 1 then Date(d.year, d.month, d.day - 1)
    else if d.month > 1 then Date(d.year, d.month - 1, DaysInMonth(d.year, d.month - 1))
    else (DaysBeforeYearStep(d.year - 1); Date(d.year - 1, 12, 31))
  }

  /** `d + timedelta(days=n)` for any integer `n`. */
  function AddDays(d: Date, n: int): (r: Date)
    ensures Valid(d) ==> Valid(r) && Ordinal(r) == Ordinal(d) + n
    decreases if n < 0 then -n else n
  {
    if n == 0 then d
    else if n > 0 then AddDays(NextDay(d), n - 1)
    else AddDays(PrevDay(d), n + 1)
  }

  /** Shifting by `n` days shifts the weekday by `n` modulo 7. */
  lemma AddDaysWeekday(d: Date, n: int)
    requires Valid(d)
    ensures Weekday(AddDays(d, n)) == (Weekday(d) + n) % 7
  {
    var a := Ordinal(d) + 6;
    var q, w := a / 7, a % 7;
    assert Ordinal(AddDays(d, n)) + 6 == a + n;
    assert a == 7 * q + w;
    ModShift(w + n, q);
    assert a + n == 7 * q + (w + n);
  }

  lemma ModShift(x: int, q: int)
    ensures (7 * q + x) % 7 == x % 7
  {
  }

  /** `d.replace(year=y, month=m, day=dd)`: fails when that day does not exist. */
  function Replace(y: int, m: int, dd: int): (r: Result<Date>)
    ensures r.Success? <==> Valid(Date(y, m, dd))
    ensures r.Success? ==> r.value == Date(y, m, dd)
    ensures r.Failure? ==> r.error == ValueError
  {
    if Valid(Date(y, m, dd)) then Success(Date(y, m, dd)) else Failure(ValueError)
  }

  /** `time(hour=h, minute=mi)` as minutes since midnight; out-of-range fields raise. */
  function Time(h: int, mi: int): (r: Result<int>)
    ensures r.Success? <==> 0 <= h <= 23 && 0 <= mi <= 59
    ensures r.Success? ==> r.value == 60 * h + mi && 0 <= r.value < 24 * 60
  {
    if 0 <= h <= 23 && 0 <= mi <= 59 then Success(60 * h + mi) else Failure(ValueError)
  }
}
