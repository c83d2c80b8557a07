/** Proleptic Gregorian calendar dates: the part of `moment` that the range picker relies on.
    A date is a plain value, so every derived date is an independent copy. */
module Calendar {

  datatype Date = Date(year: int, month: int, day: int)

  predicate IsLeapYear(y: int) {
    y % 4 == 0 && (y % 100 != 0 || y % 400 == 0)
  }

  /** Number of days of month `m` (1..12) of year `y`. */
  function DaysInMonth(y: int, m: int): (n: int)
    ensures 28 <= n <= 31
  {
    if m == 2 then (if IsLeapYear(y) then 29 else 28)
    else if m == 4 || m == 6 || m == 9 || m == 11 then 30
    else 31
  }

  predicate ValidDate(d: Date) {
    1 <= d.month <= 12 && 1 <= d.day <= DaysInMonth(d.year, d.month)
  }

  /** Months since January of year 0; comparison "at month granularity" compares these. */
  function MonthIndex(d: Date): int {
    d.year * 12 + d.month - 1
  }

  function MonthLength(d: Date): int {
    DaysInMonth(d.year, d.month)
  }

  /** Day 1 of the month after that of `d` (December rolls over to January of the next year). */
  function NextMonth(d: Date): (r: Date)
    requires 1 <= d.month <= 12
    ensures ValidDate(r) && r.day == 1
    ensures MonthIndex(r) == MonthIndex(d) + 1
  {
    if d.month == 12 then Date(d.year + 1, 1, 1) else Date(d.year, d.month + 1, 1)
  }

  /** Day 1 of the month before that of `d` (January rolls back to December of the previous year). */
  function PreviousMonth(d: Date): (r: Date)
    requires 1 <= d.month <= 12
    ensures ValidDate(r) && r.day == 1
    ensures MonthIndex(r) == MonthIndex(d) - 1
  {
    if d.month == 1 then Date(d.year - 1, 12, 1) else Date(d.year, d.month - 1, 1)
  }

  /** The first day of the month with the given month index. */
  function FirstOfMonth(mi: int): (r: Date)
    ensures ValidDate(r) && r.day == 1
    ensures MonthIndex(r) == mi
  {
    Date(mi / 12, mi % 12 + 1, 1)
  }

  /** `a.isBefore(b, 'month')`, `a.isSame(b, 'month')`, `a.isAfter(b, 'month')`. */
  predicate IsBeforeMonth(a: Date, b: Date) { MonthIndex(a) < MonthIndex(b) }

  predicate IsSameMonth(a: Date, b: Date) { MonthIndex(a) == MonthIndex(b) }

  predicate IsAfterMonth(a: Date, b: Date) { MonthIndex(a) > MonthIndex(b) }

  lemma MonthComparisonTrichotomy(a: Date, b: Date)
    requires ValidDate(a) && ValidDate(b)
    ensures IsSameMonth(a, b) <==> a.year == b.year && a.month == b.month
    ensures IsBeforeMonth(a, b) || IsSameMonth(a, b) || IsAfterMonth(a, b)
    ensures !(IsBeforeMonth(a, b) && IsSameMonth(a, b))
    ensures !(IsAfterMonth(a, b) && IsSameMonth(a, b))
  {
  }

  /** `a.isBefore(b, 'date')`: strictly earlier at day granularity. */
  predicate IsBeforeDay(a: Date, b: Date) {
    a.year < b.year
    || (a.year == b.year && a.month < b.month)
    || (a.year == b.year && a.month == b.month && a.day < b.day)
  }

  /** `a.isAfter(b, 'date')`. */
  predicate IsAfterDay(a: Date, b: Date) { IsBeforeDay(b, a) }

  // ---- Day numbers: an independent reference for day arithmetic ----

  /** Days in the months of year `y` before month `m` (1..12). */
  function DaysBeforeMonth(y: int, m: int): int {
    var common :=
      if m == 1 then 0 else if m == 2 then 31 else if m == 3 then 59 else if m == 4 then 90
      else if m == 5 then 120 else if m == 6 then 151 else if m == 7 then 181 else if m == 8 then 212
      else if m == 9 then 243 else if m == 10 then 273 else if m == 11 then 304 else 334;
    common + (if m > 2 && IsLeapYear(y) then 1 else 0)
  }

  /** Days in the years 0 .. y-1 (negative for negative `y`). */
  function DaysBeforeYear(y: int): int {
    365 * y + (y + 3) / 4 - (y + 99) / 100 + (y + 399) / 400
  }

  /** Day number of a date: consecutive dates have consecutive numbers. */
  function DayNumber(d: Date): int {
    DaysBeforeYear(d.year) + DaysBeforeMonth(d.year, d.month) + d.day - 1
  }

  lemma YearLength(y: int)
    ensures DaysBeforeYear(y + 1) == DaysBeforeYear(y) + (if IsLeapYear(y) then 366 else 365)
  {
    MultipleStep4(y);
    MultipleStep100(y);
    MultipleStep400(y);
    if y % 400 == 0 {
      MultipleOfMultiple(y, 100, 4);
    }
    if y % 100 == 0 {
      MultipleOfMultiple(y, 4, 25);
    }
  }

  /** A multiple of `c * f` is a multiple of `c`. */
  lemma MultipleOfMultiple(y: int, c: int, f: int)
    requires c > 0 && f > 0 && y % (c * f) == 0
    ensures y % c == 0
  {
    var q := y / (c * f);
    assert y == (c * f) * q;
    assert y == c * (f * q);
  }

  /** Counting multiples of 4, 100 and 400 below `y + 1` instead of below `y` adds one exactly
      when `y` is such a multiple. */
  lemma MultipleStep4(y: int)
    ensures (y + 1 + 3) / 4 == (y + 3) / 4 + (if y % 4 == 0 then 1 else 0)
  {
    var q, r := y / 4, y % 4;
    assert (y + 1 + 3) / 4 == q + 1;
    assert (y + 3) / 4 == if r == 0 then q else q + 1;
  }

  lemma MultipleStep100(y: int)
    ensures (y + 1 + 99) / 100 == (y + 99) / 100 + (if y % 100 == 0 then 1 else 0)
  {
    var q, r := y / 100, y % 100;
    assert (y + 1 + 99) / 100 == q + 1;
    assert (y + 99) / 100 == if r == 0 then q else q + 1;
  }

  lemma MultipleStep400(y: int)
    ensures (y + 1 + 399) / 400 == (y + 399) / 400 + (if y % 400 == 0 then 1 else 0)
  {
    var q, r := y / 400, y % 400;
    assert (y + 1 + 399) / 400 == q + 1;
    assert (y + 399) / 400 == if r == 0 then q else q + 1;
  }

  /** The day after `d`. */
  function NextDay(d: Date): (r: Date)
    requires ValidDate(d)
    ensures ValidDate(r)
    ensures IsBeforeDay(d, r)
  {
    if d.day < DaysInMonth(d.year, d.month) then Date(d.year, d.month, d.day + 1)
    else if d.month < 12 then Date(d.year, d.month + 1, 1)
    else Date(d.year + 1, 1, 1)
  }

  /** The day after `d` has the next day number. */
  lemma NextDayDayNumber(d: Date)
    requires ValidDate(d)
    ensures DayNumber(NextDay(d)) == DayNumber(d) + 1
  {
    if d.day == DaysInMonth(d.year, d.month) && d.month == 12 {
      YearLength(d.year);
    }
  }

  /** `d.clone().add(n, 'day')`. */
  function AddDays(d: Date, n: nat): (r: Date)
    requires ValidDate(d)
    ensures ValidDate(r)
    ensures n > 0 ==> IsBeforeDay(d, r)
    decreases n
  {
    if n == 0 then d else AddDays(NextDay(d), n - 1)
  }

  /** `AddDays(d, n)` is the date whose day number is `n` more than that of `d`. */
  lemma {:induction false} AddDaysDayNumber(d: Date, n: nat)
    requires ValidDate(d)
    ensures DayNumber(AddDays(d, n)) == DayNumber(d) + n
    decreases n
  {
    if n > 0 {
      NextDayDayNumber(d);
      AddDaysDayNumber(NextDay(d), n - 1);
    }
  }

  lemma {:induction false} AddDaysCompose(d: Date, a: nat, b: nat)
    requires ValidDate(d)
    ensures AddDays(d, a + b) == AddDays(AddDays(d, a), b)
    decreases a
  {
    if a > 0 {
      assert AddDays(d, a + b) == AddDays(NextDay(d), (a - 1) + b);
      assert AddDays(d, a) == AddDays(NextDay(d), a - 1);
      AddDaysCompose(NextDay(d), a - 1, b);
    }
  }

  /** Adding days without leaving the month only moves the day-of-month. */
  lemma {:induction false} AddDaysWithinMonth(d: Date, n: nat)
    requires ValidDate(d)
    requires d.day + n <= DaysInMonth(d.year, d.month)
    ensures AddDays(d, n) == Date(d.year, d.month, d.day + n)
    decreases n
  {
    if n > 0 {
      AddDaysWithinMonth(NextDay(d), n - 1);
    }
  }

  /** Adding the days left in the month (counting `d`) lands on the first of the next month. */
  lemma AddDaysPastMonthEnd(d: Date, n: nat)
    requires ValidDate(d)
    requires d.day + n == DaysInMonth(d.year, d.month) + 1
    ensures AddDays(d, n) == NextMonth(d)
  {
    var last := Date(d.year, d.month, d.day + n - 1);
    AddDaysCompose(d, n - 1, 1);
    AddDaysWithinMonth(d, n - 1);
    assert AddDays(d, n) == NextDay(last) by {
      assert AddDays(last, 1) == AddDays(NextDay(last), 0);
    }
  }

  /** Adding more days gives a strictly later date. */
  lemma AddDaysStrictlyIncreasing(d: Date, a: nat, b: nat)
    requires ValidDate(d) && a < b
    ensures IsBeforeDay(AddDays(d, a), AddDays(d, b))
  {
    AddDaysCompose(d, a, b - a);
  }

  /** The day-granularity order agrees with day numbers, so the day number identifies the date. */
  lemma {:induction false} DaysBeforeYearMonotone(y: int, z: int)
    requires y < z
    ensures DaysBeforeYear(y) + (if IsLeapYear(y) then 366 else 365) <= DaysBeforeYear(z)
    decreases z - y
  {
    YearLength(y);
    if y + 1 < z {
      DaysBeforeYearMonotone(y + 1, z);
      YearLength(y + 1);
    }
  }

  /** Month index and day-of-month determine a date, and an earlier month means an earlier day. */
  lemma MonthIndexOrder(a: Date, b: Date)
    requires ValidDate(a) && ValidDate(b)
    ensures MonthIndex(a) < MonthIndex(b) ==> IsBeforeDay(a, b)
    ensures MonthIndex(a) == MonthIndex(b) ==> (IsBeforeDay(a, b) <==> a.day < b.day)
    ensures MonthIndex(a) == MonthIndex(b) && a.day == b.day ==> a == b
  {
  }

  lemma DayNumberOrder(a: Date, b: Date)
    requires ValidDate(a) && ValidDate(b)
    ensures IsBeforeDay(a, b) <==> DayNumber(a) < DayNumber(b)
    ensures a == b <==> DayNumber(a) == DayNumber(b)
  {
    if a.year < b.year {
      DaysBeforeYearMonotone(a.year, b.year);
    } else if b.year < a.year {
      DaysBeforeYearMonotone(b.year, a.year);
    }
  }

  /** `d.clone().add(n, 'month')`: the same day in the month `n` months away, clamped to that
      month's last day when it has fewer days. */
  function AddMonths(d: Date, n: int): (r: Date)
    requires ValidDate(d)
    ensures ValidDate(r)
    ensures MonthIndex(r) == MonthIndex(d) + n
    ensures r.day <= d.day
    ensures d.day <= DaysInMonth(r.year, r.month) ==> r.day == d.day
    ensures r.day < d.day ==> r.day == DaysInMonth(r.year, r.month)
  {
    var first := FirstOfMonth(MonthIndex(d) + n);
    var last := DaysInMonth(first.year, first.month);
    Date(first.year, first.month, if d.day <= last then d.day else last)
  }

  /** One month forward and one back returns to the same month; the day survives when it exists
      in the intermediate month (always for days up to 28). */
  lemma NextThenPrevMonth(d: Date)
    requires ValidDate(d)
    ensures IsSameMonth(AddMonths(AddMonths(d, 1), -1), d)
    ensures AddMonths(AddMonths(d, 1), -1).day <= d.day
    ensures d.day <= DaysInMonth(AddMonths(d, 1).year, AddMonths(d, 1).month) ==>
              AddMonths(AddMonths(d, 1), -1) == d
  {
  }

  lemma PrevThenNextMonth(d: Date)
    requires ValidDate(d)
    ensures IsSameMonth(AddMonths(AddMonths(d, -1), 1), d)
    ensures AddMonths(AddMonths(d, -1), 1).day <= d.day
    ensures d.day <= DaysInMonth(AddMonths(d, -1).year, AddMonths(d, -1).month) ==>
              AddMonths(AddMonths(d, -1), 1) == d
  {
  }
}
