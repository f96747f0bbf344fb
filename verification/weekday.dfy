/** `get_weekday`: a day of the current week, counted from its Monday. */
module Utils {
  import opened Civil

  /** `today - timedelta(days=today.weekday() + isoweekday - 1)`. Its weekday depends on `k`
      alone; for `k >= 1` it is never after today, and `k == 1` is this week's Monday. */
  function GetWeekday(today: Date, k: int): (r: Date)
    requires Valid(today)
    ensures Valid(r) && Ordinal(r) == Ordinal(today) - (Weekday(today) + k - 1)
    ensures Weekday(r) == (1 - k) % 7
    ensures k >= 1 ==> Ordinal(r) <= Ordinal(today)
    ensures k == 1 ==> Weekday(r) == 0 && 0 <= Ordinal(today) - Ordinal(r) <= 6
  {
    var n := -(Weekday(today) + k - 1);
    AddDaysWeekday(today, n);
    AddDays(today, n)
  }

  /** Two days of the same week give the same result for the same `k`. */
  lemma GetWeekdaySameWeek(a: Date, b: Date, k: int)
    requires Valid(a) && Valid(b)
    requires Ordinal(a) - Weekday(a) == Ordinal(b) - Weekday(b)
    ensures GetWeekday(a, k) == GetWeekday(b, k)
  {
    OrdinalInjective(GetWeekday(a, k), GetWeekday(b, k));
  }
}
