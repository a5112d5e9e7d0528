/**
  Calendar days in the proleptic Gregorian calendar, with the conventions of
  `java.util.Calendar`: months run from 0 (January) to 11 (December), weekdays
  from 1 (Sunday) to 7 (Saturday). Time of day is not modelled: a date is a
  whole day, as the picker's own calendars are after `setMidnight`.
*/
module Dates {

  datatype Date = Date(year: int, month: int, day: int)

  /** `Calendar.DAY_OF_WEEK`: 1 = Sunday, 2 = Monday, ..., 7 = Saturday. */
  type Weekday = w: int | 1 <= w <= 7 witness 1

  predicate IsLeapYear(y: int) {
    y % 4 == 0 && (y % 100 != 0 || y % 400 == 0)
  }

  function DaysInMonth(y: int, m: int): (n: int)
    requires 0 <= m < 12
    ensures 28 <= n <= 31
    ensures n == 29 <==> m == 1 && IsLeapYear(y)
  {
    if m == 1 then (if IsLeapYear(y) then 29 else 28)
    else if m == 3 || m == 5 || m == 8 || m == 10 then 30
    else 31
  }

  /** A day that exists on the calendar. */
  predicate Valid(d: Date) {
    0 <= d.month < 12 && 1 <= d.day <= DaysInMonth(d.year, d.month)
  }

  /** Chronological order: `a` is a strictly earlier day than `b`. */
  predicate Before(a: Date, b: Date) {
    || a.year < b.year
    || (a.year == b.year && (a.month < b.month || (a.month == b.month && a.day < b.day)))
  }

  /** `sameDate`: the same year, month and day of month. */
  predicate SameDate(a: Date, b: Date) {
    a.month == b.month && a.year == b.year && a.day == b.day
  }

  /** `betweenDates`: the half-open test `lo <= d < hi`. */
  predicate Between(d: Date, lo: Date, hi: Date) {
    !Before(d, lo) && Before(d, hi)
  }

  lemma BeforeIsStrictTotalOrder(a: Date, b: Date, c: Date)
    ensures !Before(a, a)
    ensures Before(a, b) ==> !Before(b, a)
    ensures Before(a, b) && Before(b, c) ==> Before(a, c)
    ensures a == b || Before(a, b) || Before(b, a)
  {
  }

  lemma SameDateIsEquality(a: Date, b: Date)
    ensures SameDate(a, b) <==> a == b
  {
  }

  /** The day after `d` (`Calendar.add(Calendar.DATE, 1)`). */
  function Next(d: Date): (e: Date)
    requires Valid(d)
    ensures Valid(e) && Before(d, e)
  {
    if d.day < DaysInMonth(d.year, d.month) then d.(day := d.day + 1)
    else if d.month < 11 then Date(d.year, d.month + 1, 1)
    else Date(d.year + 1, 0, 1)
  }

  /** The day before `d` (`Calendar.add(Calendar.DATE, -1)`). */
  function Prev(d: Date): (e: Date)
    requires Valid(d)
    ensures Valid(e) && Before(e, d)
  {
    if d.day > 1 then d.(day := d.day - 1)
    else if d.month > 0 then Date(d.year, d.month - 1, DaysInMonth(d.year, d.month - 1))
    else Date(d.year - 1, 11, 31)
  }

  /** `Next` is the immediate successor: no valid day lies strictly between `d` and `Next(d)`. */
  lemma NextIsImmediate(d: Date, e: Date)
    requires Valid(d) && Valid(e)
    ensures Before(d, e) <==> e == Next(d) || Before(Next(d), e)
  {
  }

  lemma PrevNextInverse(d: Date)
    requires Valid(d)
    ensures Prev(Next(d)) == d
    ensures Next(Prev(d)) == d
  {
  }

  /** `Calendar.add(Calendar.DATE, k)`, one day at a time. */
  function AddDays(d: Date, k: int): (e: Date)
    requires Valid(d)
    ensures Valid(e)
    decreases if k < 0 then -k else k
  {
    if k == 0 then d
    else if k > 0 then AddDays(Next(d), k - 1)
    else AddDays(Prev(d), k + 1)
  }

  // ---------------------------------------------------------------------------
  // Day numbers and weekdays

  /** Days in the years before `y` (counted from the year 1). */
  function DaysBeforeYear(y: int): int {
    365 * (y - 1) + (y - 1) / 4 - (y - 1) / 100 + (y - 1) / 400
  }

  /** Days in the months of year `y` before month `m`. */
  function DaysBeforeMonth(y: int, m: int): int
    requires 0 <= m <= 12
  {
    (if m > 1 && IsLeapYear(y) then 1 else 0)
    + [0, 31, 59, 90, 120, 151, 181, 212, 243, 273, 304, 334, 365][m]
  }

  /** Days since 1 January of the year 1 (a Monday). */
  function DayNumber(d: Date): int
    requires 0 <= d.month < 12
  {
    DaysBeforeYear(d.year) + DaysBeforeMonth(d.year, d.month) + d.day - 1
  }

  /** `Calendar.DAY_OF_WEEK` (Sunday is 1): day number 0 is a Monday. */
  function DayOfWeek(d: Date): Weekday
    requires 0 <= d.month < 12
  {
    WeekdayOf(DayNumber(d))
  }

  /** The weekday of day number `n`. */
  function WeekdayOf(n: int): Weekday {
    (n + 1) % 7 + 1
  }

  /** `k` days after day number `n` the weekday has moved `k` places round the week. */
  lemma WeekdayShift(n: int, k: int)
    ensures WeekdayOf(n + k) == (WeekdayOf(n) - 1 + k) % 7 + 1
  {
    var a := n + 1;
    ModShift(a / 7, a % 7 + k);
    assert a == 7 * (a / 7) + a % 7;
  }

  lemma MonthStep(y: int, m: int)
    requires 0 <= m < 12
    ensures DaysBeforeMonth(y, m + 1) == DaysBeforeMonth(y, m) + DaysInMonth(y, m)
  {
  }

  lemma YearStep(y: int)
    ensures DaysBeforeYear(y + 1) == DaysBeforeYear(y) + DaysBeforeMonth(y, 12)
  {
    var z := y - 1;
    assert y / 4 - z / 4 == (if y % 4 == 0 then 1 else 0);
    assert y / 100 - z / 100 == (if y % 100 == 0 then 1 else 0);
    assert y / 400 - z / 400 == (if y % 400 == 0 then 1 else 0);
  }

  /** The first of the month after (y, m) starts `DaysInMonth(y, m)` days after the first of (y, m). */
  lemma FirstOfNextMonth(y: int, m: int)
    requires 0 <= m < 12
    ensures var (ny, nm) := NextMonth(y, m);
            DayNumber(Date(ny, nm, 1)) == DayNumber(Date(y, m, 1)) + DaysInMonth(y, m)
  {
    MonthStep(y, m);
    if m == 11 {
      YearStep(y);
    }
  }

  lemma {:induction false} DayNumberNext(d: Date)
    requires Valid(d)
    ensures DayNumber(Next(d)) == DayNumber(d) + 1
  {
    if d.day == DaysInMonth(d.year, d.month) {
      FirstOfNextMonth(d.year, d.month);
    }
  }

  lemma {:induction false} DayNumberAddDays(d: Date, k: int)
    requires Valid(d)
    ensures DayNumber(AddDays(d, k)) == DayNumber(d) + k
    decreases if k < 0 then -k else k
  {
    if k > 0 {
      DayNumberAddDays(Next(d), k - 1);
      DayNumberNext(d);
    } else if k < 0 {
      DayNumberAddDays(Prev(d), k + 1);
      PrevNextInverse(d);
      DayNumberNext(Prev(d));
    }
  }

  /** Weekdays advance by one per day, wrapping Saturday (7) to Sunday (1). */
  lemma DayOfWeekNext(d: Date)
    requires Valid(d)
    ensures DayOfWeek(Next(d)) == DayOfWeek(d) % 7 + 1
  {
    DayNumberNext(d);
    WeekdayShift(DayNumber(d), 1);
  }

  /** `k` days later the weekday has moved `k` places round the week. */
  lemma DayOfWeekAddDays(d: Date, k: int)
    requires Valid(d)
    ensures DayOfWeek(AddDays(d, k)) == (DayOfWeek(d) - 1 + k) % 7 + 1
  {
    DayNumberAddDays(d, k);
    WeekdayShift(DayNumber(d), k);
  }

  lemma ModShift(q: int, x: int)
    ensures (7 * q + x) % 7 == x % 7
  {
  }

  // ---------------------------------------------------------------------------
  // Months

  /** The month after (y, m). */
  function NextMonth(y: int, m: int): (int, int) {
    if m < 11 then (y, m + 1) else (y + 1, 0)
  }

  /** The month before (y, m). */
  function PrevMonth(y: int, m: int): (int, int) {
    if m > 0 then (y, m - 1) else (y - 1, 11)
  }

  /** Months numbered consecutively: (y, m) and the month after it differ by one. */
  function MonthIndex(y: int, m: int): int {
    12 * y + m
  }

  /** (y1, m1) is the same month as (y2, m2) or an earlier one. */
  predicate MonthLe(y1: int, m1: int, y2: int, m2: int) {
    y1 < y2 || (y1 == y2 && m1 <= m2)
  }

  lemma MonthLeByIndex(y1: int, m1: int, y2: int, m2: int)
    requires 0 <= m1 < 12 && 0 <= m2 < 12
    ensures MonthLe(y1, m1, y2, m2) <==> MonthIndex(y1, m1) <= MonthIndex(y2, m2)
  {
  }

  /**
    `Calendar.add(Calendar.MONTH, 1)`: the same day of the month in the month
    after, clamped to that month's length (31 January becomes 28 or 29 February).
  */
  function AddMonth(d: Date): (e: Date)
    requires Valid(d)
    ensures Valid(e)
    ensures (e.year, e.month) == NextMonth(d.year, d.month)
    ensures e.day <= d.day
    ensures e.day == d.day || e.day == DaysInMonth(e.year, e.month)
    ensures d.day <= DaysInMonth(e.year, e.month) ==> e.day == d.day
    ensures MonthIndex(e.year, e.month) == MonthIndex(d.year, d.month) + 1
  {
    var (y, m) := NextMonth(d.year, d.month);
    var n := DaysInMonth(y, m);
    Date(y, m, if d.day <= n then d.day else n)
  }

  // ---------------------------------------------------------------------------
  // Days around one month

  /**
    The day `k` days after the first of month (y, m), for `k` within a week
    outside the month: the days a month's grid of weeks can show.
  */
  function DayAround(y: int, m: int, k: int): (d: Date)
    requires 0 <= m < 12
    requires -7 < k < DaysInMonth(y, m) + 7
    ensures Valid(d)
  {
    var n := DaysInMonth(y, m);
    if k < 0 then
      var (py, pm) := PrevMonth(y, m);
      Date(py, pm, DaysInMonth(py, pm) + 1 + k)
    else if k < n then Date(y, m, k + 1)
    else
      var (ny, nm) := NextMonth(y, m);
      Date(ny, nm, k - n + 1)
  }

  /** A day around the month belongs to the month exactly for offsets 0 .. n-1. */
  lemma DayAroundMonth(y: int, m: int, k: int)
    requires 0 <= m < 12
    requires -7 < k < DaysInMonth(y, m) + 7
    ensures var d := DayAround(y, m, k);
            && (d.month == m <==> 0 <= k < DaysInMonth(y, m))
            && (d.month == m <==> d.year == y && d.month == m)
            && (k < 0 ==> (d.year, d.month) == PrevMonth(y, m))
            && (k >= DaysInMonth(y, m) ==> (d.year, d.month) == NextMonth(y, m))
  {
  }

  lemma DayAroundNext(y: int, m: int, k: int)
    requires 0 <= m < 12
    requires -7 < k && k + 1 < DaysInMonth(y, m) + 7
    ensures Next(DayAround(y, m, k)) == DayAround(y, m, k + 1)
  {
  }

  lemma DayAroundPrev(y: int, m: int, k: int)
    requires 0 <= m < 12
    requires -7 < k - 1 && k < DaysInMonth(y, m) + 7
    ensures Prev(DayAround(y, m, k)) == DayAround(y, m, k - 1)
  {
    DayAroundNext(y, m, k - 1);
    PrevNextInverse(DayAround(y, m, k - 1));
  }

  /** Stepping back from the day at offset `j` lands on the day at offset `j + k`. */
  lemma {:induction false} AddDaysBackAround(y: int, m: int, j: int, k: int)
    requires 0 <= m < 12
    requires k <= 0 && -7 < j + k && j < DaysInMonth(y, m) + 7
    ensures AddDays(DayAround(y, m, j), k) == DayAround(y, m, j + k)
    decreases -k
  {
    if k < 0 {
      DayAroundPrev(y, m, j);
      AddDaysBackAround(y, m, j - 1, k + 1);
    }
  }

  lemma DayNumberAround(y: int, m: int, k: int)
    requires 0 <= m < 12
    requires -7 < k < DaysInMonth(y, m) + 7
    ensures DayNumber(DayAround(y, m, k)) == DayNumber(Date(y, m, 1)) + k
  {
    if k < 0 {
      var (py, pm) := PrevMonth(y, m);
      FirstOfNextMonth(py, pm);
    } else if k >= DaysInMonth(y, m) {
      FirstOfNextMonth(y, m);
    }
  }
}
