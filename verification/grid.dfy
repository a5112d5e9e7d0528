/**
  The picker's grid of cells (`cells` in `CalendarPickerView`): one entry per
  month, each a list of week rows, each row seven cells. A cell is identified by
  its position, which stands for the object identity the picker's lists track.
*/
module Grid {
  import opened Wrappers
  import opened Dates
  import opened MonthCells
  import opened Months
  import Sorting

  type Week = seq<Cell>
  type Grid = seq<seq<Week>>

  /** A cell's identity: month index, week row and column. */
  datatype Pos = Pos(month: nat, week: nat, col: nat)

  predicate ValidPos(g: Grid, p: Pos) {
    p.month < |g| && p.week < |g[p.month]| && p.col < |g[p.month][p.week]|
  }

  function At(g: Grid, p: Pos): Cell
    requires ValidPos(g, p)
  {
    g[p.month][p.week][p.col]
  }

  /** `g` and `h` have the same months, rows and columns. */
  predicate SameShape(g: Grid, h: Grid) {
    && |g| == |h|
    && (forall i | 0 <= i < |g| :: |g[i]| == |h[i]|)
    && (forall i, j | 0 <= i < |g| && 0 <= j < |g[i]| :: |g[i][j]| == |h[i][j]|)
  }

  lemma SameShapeValidPos(g: Grid, h: Grid)
    requires SameShape(g, h)
    ensures forall p :: ValidPos(g, p) <==> ValidPos(h, p)
  {
  }

  /**
    Calls a setter `f` on every cell whose position is in `ps`. The setters the
    picker uses put a field to a constant, so calling one once per cell or once
    per occurrence in `ps` gives the same grid.
  */
  function UpdateCells(g: Grid, ps: seq<Pos>, f: Cell -> Cell): (h: Grid)
    ensures SameShape(g, h)
    ensures forall p | ValidPos(g, p) :: At(h, p) == if p in ps then f(At(g, p)) else At(g, p)
  {
    seq(|g|, i requires 0 <= i < |g| =>
      seq(|g[i]|, j requires 0 <= j < |g[i]| =>
        seq(|g[i][j]|, k requires 0 <= k < |g[i][j]| =>
          if Pos(i, j, k) in ps then f(g[i][j][k]) else g[i][j][k])))
  }

  // ---------------------------------------------------------------------------
  // Scanning the grid month by month, week by week, cell by cell

  /** The order of the picker's nested loops over months, weeks and cells. */
  predicate PosBefore(p: Pos, q: Pos) {
    || p.month < q.month
    || (p.month == q.month && (p.week < q.week || (p.week == q.week && p.col < q.col)))
  }

  predicate Ascending(ps: seq<Pos>) {
    forall i, j | 0 <= i < j < |ps| :: PosBefore(ps[i], ps[j])
  }

  lemma AscendingConcat(a: seq<Pos>, b: seq<Pos>)
    requires Ascending(a) && Ascending(b)
    requires forall x, y | x in a && y in b :: PosBefore(x, y)
    ensures Ascending(a + b)
  {
    forall i, j | 0 <= i < j < |a + b|
      ensures PosBefore((a + b)[i], (a + b)[j])
    {
      if j < |a| {
      } else if i < |a| {
        assert (a + b)[i] in a && (a + b)[j] in b;
      } else {
        assert (a + b)[i] == b[i - |a|] && (a + b)[j] == b[j - |a|];
      }
    }
  }

  function MatchesInWeek(g: Grid, mi: nat, wi: nat, ci: nat, P: Cell -> bool): (r: seq<Pos>)
    requires mi < |g| && wi < |g[mi]| && ci <= |g[mi][wi]|
    ensures forall p :: p in r <==>
      p.month == mi && p.week == wi && ci <= p.col && ValidPos(g, p) && P(At(g, p))
    ensures Ascending(r)
    decreases |g[mi][wi]| - ci
  {
    if ci == |g[mi][wi]| then []
    else
      var rest := MatchesInWeek(g, mi, wi, ci + 1, P);
      var here := if P(g[mi][wi][ci]) then [Pos(mi, wi, ci)] else [];
      AscendingConcat(here, rest);
      here + rest
  }

  function MatchesInMonth(g: Grid, mi: nat, wi: nat, P: Cell -> bool): (r: seq<Pos>)
    requires mi < |g| && wi <= |g[mi]|
    ensures forall p :: p in r <==>
      p.month == mi && wi <= p.week && ValidPos(g, p) && P(At(g, p))
    ensures Ascending(r)
    decreases |g[mi]| - wi
  {
    if wi == |g[mi]| then []
    else
      var here := MatchesInWeek(g, mi, wi, 0, P);
      var rest := MatchesInMonth(g, mi, wi + 1, P);
      AscendingConcat(here, rest);
      here + rest
  }

  function MatchesFrom(g: Grid, mi: nat, P: Cell -> bool): (r: seq<Pos>)
    requires mi <= |g|
    ensures forall p :: p in r <==> mi <= p.month && ValidPos(g, p) && P(At(g, p))
    ensures Ascending(r)
    decreases |g| - mi
  {
    if mi == |g| then []
    else
      var here := MatchesInMonth(g, mi, 0, P);
      var rest := MatchesFrom(g, mi + 1, P);
      AscendingConcat(here, rest);
      here + rest
  }

  /** The positions of every cell satisfying `P`, in the order the picker's loops visit them. */
  function Matches(g: Grid, P: Cell -> bool): (r: seq<Pos>)
    ensures forall p :: p in r <==> ValidPos(g, p) && P(At(g, p))
    ensures Ascending(r)
  {
    MatchesFrom(g, 0, P)
  }

  /** A cell the lookup of a date accepts: the same calendar day, and selectable. */
  predicate SelectableOn(c: Cell, d: Date) {
    SameDate(c.date, d) && c.isSelectable
  }

  /**
    `getMonthCellWithIndexByDate`: the first selectable cell of the given
    calendar day, in month-week-column order; its month index is the `month`
    of the position. Absent when the grid has no such cell.
  */
  function FindSelectableCell(g: Grid, d: Date): (r: Option<Pos>)
    ensures r.None? <==> forall p | ValidPos(g, p) :: !SelectableOn(At(g, p), d)
    ensures r.Some? ==> ValidPos(g, r.value) && SelectableOn(At(g, r.value), d)
    ensures r.Some? ==> forall q | ValidPos(g, q) && PosBefore(q, r.value) :: !SelectableOn(At(g, q), d)
  {
    var ms := Matches(g, c => SelectableOn(c, d));
    if |ms| == 0 then None
    else
      assert ms[0] in ms;
      assert forall q | ValidPos(g, q) && SelectableOn(At(g, q), d) :: q in ms;
      Some(ms[0])
  }

  // ---------------------------------------------------------------------------
  // Building one month: getMonthCells

  /** What `getMonthCells` reads besides its arguments: the bounds, today, the locale's first weekday and the filter. */
  datatype BuildEnv = BuildEnv(
    minCal: Date,
    maxCal: Date,
    today: Date,
    firstDayOfWeek: Weekday,
    isDateSelectable: Date -> bool)

  /** `containsDate`: some date in the list is the same calendar day as `d`. */
  function ContainsDate(cals: seq<Date>, d: Date): (b: bool)
    ensures b <==> d in cals
  {
    if |cals| == 0 then false
    else
      assert cals == [cals[0]] + cals[1..];
      SameDate(d, cals[0]) || ContainsDate(cals[1..], d)
  }

  /** `d` is the earliest date of `cals`. */
  predicate IsEarliest(d: Date, cals: seq<Date>) {
    d in cals && forall x | x in cals :: !Before(x, d)
  }

  /** `d` is the latest date of `cals`. */
  predicate IsLatest(d: Date, cals: seq<Date>) {
    d in cals && forall x | x in cals :: !Before(d, x)
  }

  /**
    `minDate`: the earliest date, or `None` for an empty list. Like the source,
    it sorts the list it is given, so it returns the sorted list as well.
  */
  function MinDate(cals: seq<Date>): (r: (seq<Date>, Option<Date>))
    ensures multiset(r.0) == multiset(cals) && Sorting.Sorted(r.0)
    ensures r.1.None? <==> |cals| == 0
    ensures r.1.Some? ==> IsEarliest(r.1.value, cals)
  {
    var s := Sorting.SortDates(cals);
    if |s| == 0 then (s, None)
    else
      assert s[0] in multiset(s);
      Sorting.SortedEnds(s);
      assert forall x | x in cals :: x in multiset(s);
      (s, Some(s[0]))
  }

  /** `maxDate`: the latest date, or `None` for an empty list; sorts the list too. */
  function MaxDate(cals: seq<Date>): (r: (seq<Date>, Option<Date>))
    ensures multiset(r.0) == multiset(cals) && Sorting.Sorted(r.0)
    ensures r.1.None? <==> |cals| == 0
    ensures r.1.Some? ==> IsLatest(r.1.value, cals)
  {
    var s := Sorting.SortDates(cals);
    if |s| == 0 then (s, None)
    else
      assert s[|s| - 1] in multiset(s);
      Sorting.SortedEnds(s);
      assert forall x | x in cals :: x in multiset(s);
      (s, Some(s[|s| - 1]))
  }

  /** The range state a freshly built cell gets from the selected dates. */
  function BuildRangeState(d: Date, selectedCount: nat, minSel: Option<Date>, maxSel: Option<Date>): RangeState {
    if selectedCount > 1 && minSel.Some? && maxSel.Some? then
      if SameDate(minSel.value, d) then FIRST
      else if SameDate(maxSel.value, d) then LAST
      else if Between(d, minSel.value, maxSel.value) then MIDDLE
      else NONE
    else NONE
  }

  /** The body of `getMonthCells`' inner loop: the cell for day `d` of the month `md`. */
  function BuildCell(md: MonthDescriptor, d: Date, env: BuildEnv, selectedCals: seq<Date>,
                     highlightedCals: seq<Date>, minSel: Option<Date>, maxSel: Option<Date>): Cell
  {
    var isCurrentMonth := d.month == md.month;
    var isSelected := isCurrentMonth && ContainsDate(selectedCals, d);
    var isSelectable := isCurrentMonth && Between(d, env.minCal, env.maxCal) && env.isDateSelectable(d);
    var isToday := SameDate(d, env.today);
    var isHighlighted := ContainsDate(highlightedCals, d);
    var value := d.day;
    var rangeState := BuildRangeState(d, |selectedCals|, minSel, maxSel);
    NewCell(d, isCurrentMonth, isSelectable, isSelected, isToday, isHighlighted, value, rangeState)
  }

  /** The week-row loop guard as written: `(MONTH < month + 1 || YEAR < year) && YEAR <= year`. */
  predicate WeekLoopGuard(cal: Date, md: MonthDescriptor) {
    (cal.month < md.month + 1 || cal.year < md.year) && cal.year <= md.year
  }

  /** The guard holds exactly while `cal` is in the month being built or an earlier one. */
  lemma WeekLoopGuardIsMonthLe(cal: Date, md: MonthDescriptor)
    ensures WeekLoopGuard(cal, md) <==> MonthLe(cal.year, cal.month, md.year, md.month)
  {
  }

  /** Seven cells (`count` in general) from `cal` on, one day apart; also returns the day after the last. */
  function BuildWeek(cal: Date, count: nat, mk: Date -> Cell): (r: (Week, Date))
    requires Valid(cal)
    ensures Valid(r.1) && r.1 == AddDays(cal, count)
    ensures |r.0| == count
    ensures forall c | 0 <= c < count :: r.0[c] == mk(AddDays(cal, c))
    decreases count
  {
    if count == 0 then ([], cal)
    else
      var (rest, after) := BuildWeek(Next(cal), count - 1, mk);
      ([mk(cal)] + rest, after)
  }

  lemma {:induction false} AddDaysAround(y: int, m: int, j: int, k: nat)
    requires 0 <= m < 12
    requires -7 < j && j + k < DaysInMonth(y, m) + 7
    ensures AddDays(DayAround(y, m, j), k) == DayAround(y, m, j + k)
    decreases k
  {
    if k > 0 {
      DayAroundNext(y, m, j);
      AddDaysAround(y, m, j + 1, k - 1);
    }
  }

  /** At the day `k` days after the first, the week-row guard holds exactly while `k` is inside the month. */
  lemma WeekLoopGuardAround(md: MonthDescriptor, k: int)
    requires 0 <= md.month < 12
    requires -7 < k < DaysInMonth(md.year, md.month) + 7
    ensures WeekLoopGuard(DayAround(md.year, md.month, k), md) <==> k < DaysInMonth(md.year, md.month)
  {
    DayAroundMonth(md.year, md.month, k);
    WeekLoopGuardIsMonthLe(DayAround(md.year, md.month, k), md);
  }

  /**
    The week-row loop of `getMonthCells`, from `cal`, the day `k` days after the
    first of the month. Emits a row of seven consecutive days while the guard holds.
  */
  function BuildWeeks(md: MonthDescriptor, cal: Date, k: int, mk: Date -> Cell): (r: seq<Week>)
    requires 0 <= md.month < 12
    requires -7 < k < DaysInMonth(md.year, md.month) + 7
    requires cal == DayAround(md.year, md.month, k)
    ensures DaysInMonth(md.year, md.month) <= k + 7 * |r|
    ensures |r| > 0 ==> k + 7 * (|r| - 1) < DaysInMonth(md.year, md.month)
    decreases DaysInMonth(md.year, md.month) + 7 - k
  {
    WeekLoopGuardAround(md, k);
    if !WeekLoopGuard(cal, md) then []
    else
      var (week, next) := BuildWeek(cal, 7, mk);
      AddDaysAround(md.year, md.month, k, 7);
      [week] + BuildWeeks(md, next, k + 7, mk)
  }

  /** Every row has seven cells, and the cell in row `w`, column `c` is the one for the day `k + 7w + c` days from the 1st of `md`'s month. */
  predicate RowsAround(r: seq<Week>, md: MonthDescriptor, k: int, mk: Date -> Cell)
    requires 0 <= md.month < 12
  {
    && (forall w | 0 <= w < |r| :: |r[w]| == 7)
    && forall w, c | 0 <= w < |r| && 0 <= c < |r[w]| && -7 < k + 7 * w + c < DaysInMonth(md.year, md.month) + 7 ::
         r[w][c] == mk(DayAround(md.year, md.month, k + 7 * w + c))
  }

  /** A week of the days from offset `k` on, followed by rows starting a week later, keeps `RowsAround`. */
  lemma RowsAroundCons(week: Week, rest: seq<Week>, md: MonthDescriptor, k: int, mk: Date -> Cell)
    requires 0 <= md.month < 12 && |week| == 7
    requires forall c | 0 <= c < |week| && -7 < k + c < DaysInMonth(md.year, md.month) + 7 ::
      week[c] == mk(DayAround(md.year, md.month, k + c))
    requires RowsAround(rest, md, k + 7, mk)
    ensures RowsAround([week] + rest, md, k, mk)
  {
    var r := [week] + rest;
    assert forall w | 1 <= w < |r| :: r[w] == rest[w - 1];
    forall w, c | 0 <= w < |r| && 0 <= c < |r[w]| && -7 < k + 7 * w + c < DaysInMonth(md.year, md.month) + 7
      ensures r[w][c] == mk(DayAround(md.year, md.month, k + 7 * w + c))
    {
      if w == 0 {
        assert r[w][c] == week[c];
      } else {
        assert k + 7 + 7 * (w - 1) + c == k + 7 * w + c;
        assert r[w][c] == rest[w - 1][c];
      }
    }
  }

  /** The rows built from `cal`, the day at offset `k`, hold the consecutive days from offset `k` on. */
  lemma {:induction false} BuildWeeksCells(md: MonthDescriptor, cal: Date, k: int, mk: Date -> Cell)
    requires 0 <= md.month < 12
    requires -7 < k < DaysInMonth(md.year, md.month) + 7
    requires cal == DayAround(md.year, md.month, k)
    ensures RowsAround(BuildWeeks(md, cal, k, mk), md, k, mk)
    decreases DaysInMonth(md.year, md.month) + 7 - k
  {
    WeekLoopGuardAround(md, k);
    if WeekLoopGuard(cal, md) {
      var (week, next) := BuildWeek(cal, 7, mk);
      AddDaysAround(md.year, md.month, k, 7);
      BuildWeeksCells(md, next, k + 7, mk);
      forall c | 0 <= c < |week| && -7 < k + c < DaysInMonth(md.year, md.month) + 7
        ensures week[c] == mk(DayAround(md.year, md.month, k + c))
      {
        AddDaysAround(md.year, md.month, k, c);
      }
      RowsAroundCons(week, BuildWeeks(md, next, k + 7, mk), md, k, mk);
    }
  }

  /** The first grid column's offset from the 1st: back to the locale's first weekday, never forward. */
  function GridOffset(first: Date, firstDayOfWeek: Weekday): (off: int)
    requires 0 <= first.month < 12
    ensures -7 < off <= 0
  {
    var offset := firstDayOfWeek - DayOfWeek(first);
    if offset > 0 then offset - 7 else offset
  }

  /**
    `getMonthCells`: the week rows of month `md`, starting from `startCal`
    (the month counter of `init`, which lies in that month). Sorting the
    selected dates to find their earliest and latest is a side effect of the
    source, so the sorted list is returned too.
  */
  function GetMonthCells(md: MonthDescriptor, startCal: Date, env: BuildEnv,
                         selectedCals: seq<Date>, highlightedCals: seq<Date>): (r: (seq<Week>, seq<Date>))
    requires Valid(startCal) && startCal.year == md.year && startCal.month == md.month
    ensures multiset(r.1) == multiset(selectedCals)
  {
    var first := startCal.(day := 1);
    var offset := GridOffset(first, env.firstDayOfWeek);
    AddDaysBackAround(md.year, md.month, 0, offset);
    var cal := AddDays(first, offset);
    var (sorted, minSel) := MinDate(selectedCals);
    var (sorted', maxSel) := MaxDate(sorted);
    var weeks := BuildWeeks(md, cal, offset,
      d => BuildCell(md, d, env, sorted', highlightedCals, minSel, maxSel));
    (weeks, sorted')
  }

  // ---------------------------------------------------------------------------
  // Enumerating the months: the loop of init

  /** The month loop guard of `init` as written: `(MONTH <= maxMonth || YEAR < maxYear) && YEAR < maxYear + 1`. */
  predicate MonthLoopGuard(counter: Date, maxMonth: int, maxYear: int) {
    (counter.month <= maxMonth || counter.year < maxYear) && counter.year < maxYear + 1
  }

  /** The guard holds exactly while the counter's month is not later than (maxYear, maxMonth). */
  lemma MonthLoopGuardIsMonthLe(counter: Date, maxMonth: int, maxYear: int)
    ensures MonthLoopGuard(counter, maxMonth, maxYear) <==> MonthLe(counter.year, counter.month, maxYear, maxMonth)
  {
  }

  /** The number of months from the counter's month through (maxYear, maxMonth), or zero. */
  function MonthsThrough(counter: Date, maxMonth: int, maxYear: int): nat {
    var k := MonthIndex(maxYear, maxMonth) - MonthIndex(counter.year, counter.month) + 1;
    if k < 0 then 0 else k
  }

  /**
    The month counter of the loop of `init`: one `MonthDescriptor` per month
    while the guard holds, advancing the counter one month at a time. The
    counter's date is the descriptor's date and its formatting the label.
  */
  function MonthList(counter: Date, maxMonth: int, maxYear: int, format: Date -> string): (ms: seq<MonthDescriptor>)
    requires Valid(counter) && 0 <= maxMonth < 12
    ensures |ms| == MonthsThrough(counter, maxMonth, maxYear)
    decreases MonthIndex(maxYear, maxMonth) - MonthIndex(counter.year, counter.month) + 1
  {
    MonthLoopGuardIsMonthLe(counter, maxMonth, maxYear);
    MonthLeByIndex(counter.year, counter.month, maxYear, maxMonth);
    if !MonthLoopGuard(counter, maxMonth, maxYear) then []
    else
      [NewMonth(counter.month, counter.year, counter, format(counter))]
        + MonthList(AddMonth(counter), maxMonth, maxYear, format)
  }

  /**
    The cells of each listed month, built in order: `getMonthCells` sorts the
    selected dates in place, so each month sees the list the previous one left.
  */
  function MonthGrids(ms: seq<MonthDescriptor>, env: BuildEnv, selectedCals: seq<Date>,
                      highlightedCals: seq<Date>): (r: (Grid, seq<Date>))
    requires DatedInMonth(ms)
    ensures |r.0| == |ms|
    ensures multiset(r.1) == multiset(selectedCals)
  {
    if |ms| == 0 then ([], selectedCals)
    else
      var (weeks, sorted) := GetMonthCells(ms[0], ms[0].date, env, selectedCals, highlightedCals);
      var (gs, cals) := MonthGrids(ms[1..], env, sorted, highlightedCals);
      ([weeks] + gs, cals)
  }

  /**
    The loop of `init`: the listed months and, for each, its `getMonthCells`
    grid. The cells never feed back into the counter, so the two are built apart.
  */
  function BuildMonths(counter: Date, maxMonth: int, maxYear: int, env: BuildEnv, format: Date -> string,
                       selectedCals: seq<Date>, highlightedCals: seq<Date>): (r: (seq<MonthDescriptor>, Grid, seq<Date>))
    requires Valid(counter) && 0 <= maxMonth < 12
    ensures |r.0| == |r.1| == MonthsThrough(counter, maxMonth, maxYear)
    ensures multiset(r.2) == multiset(selectedCals)
  {
    var ms := MonthList(counter, maxMonth, maxYear, format);
    MonthListDates(counter, maxMonth, maxYear, format);
    var (gs, cals) := MonthGrids(ms, env, selectedCals, highlightedCals);
    (ms, gs, cals)
  }

  /** The i-th month is i months after the counter's. */
  predicate ConsecutiveFrom(ms: seq<MonthDescriptor>, counter: Date) {
    forall i | 0 <= i < |ms| ::
      && 0 <= ms[i].month < 12
      && MonthIndex(ms[i].year, ms[i].month) == MonthIndex(counter.year, counter.month) + i
  }

  /** A month's date lies in that month. */
  predicate DatedInMonth(ms: seq<MonthDescriptor>) {
    forall i | 0 <= i < |ms| :: Valid(ms[i].date) && ms[i].date.year == ms[i].year && ms[i].date.month == ms[i].month
  }

  /**
    Each month's date lies in it and carries the counter's day of the month,
    clamped to the lengths of the months passed; each label is its date's formatting.
  */
  predicate CountersFrom(ms: seq<MonthDescriptor>, counter: Date, format: Date -> string) {
    && DatedInMonth(ms)
    && forall i | 0 <= i < |ms| ::
      && ms[i].date.day <= counter.day
      && (counter.day <= 28 ==> ms[i].date.day == counter.day)
      && ms[i].labelText == format(ms[i].date)
  }

  /** Months are listed consecutively from the counter's month: the i-th is i months later. */
  lemma {:induction false} MonthListConsecutive(counter: Date, maxMonth: int, maxYear: int, format: Date -> string)
    requires Valid(counter) && 0 <= maxMonth < 12
    ensures ConsecutiveFrom(MonthList(counter, maxMonth, maxYear, format), counter)
    decreases MonthIndex(maxYear, maxMonth) - MonthIndex(counter.year, counter.month) + 1
  {
    MonthLoopGuardIsMonthLe(counter, maxMonth, maxYear);
    MonthLeByIndex(counter.year, counter.month, maxYear, maxMonth);
    if MonthLoopGuard(counter, maxMonth, maxYear) {
      var next := AddMonth(counter);
      MonthListConsecutive(next, maxMonth, maxYear, format);
      var ms := MonthList(counter, maxMonth, maxYear, format);
      var rest := MonthList(next, maxMonth, maxYear, format);
      assert ms == [NewMonth(counter.month, counter.year, counter, format(counter))] + rest;
      forall i | 0 <= i < |ms|
        ensures 0 <= ms[i].month < 12
        ensures MonthIndex(ms[i].year, ms[i].month) == MonthIndex(counter.year, counter.month) + i
      {
        if i > 0 {
          assert ms[i] == rest[i - 1];
        }
      }
    }
  }

  /**
    Each month's date is the month counter: the minimum date's day of the
    month, clamped to the lengths of the months passed; the label is its formatting.
  */
  lemma {:induction false} MonthListDates(counter: Date, maxMonth: int, maxYear: int, format: Date -> string)
    requires Valid(counter) && 0 <= maxMonth < 12
    ensures CountersFrom(MonthList(counter, maxMonth, maxYear, format), counter, format)
    decreases MonthIndex(maxYear, maxMonth) - MonthIndex(counter.year, counter.month) + 1
  {
    MonthLoopGuardIsMonthLe(counter, maxMonth, maxYear);
    MonthLeByIndex(counter.year, counter.month, maxYear, maxMonth);
    if MonthLoopGuard(counter, maxMonth, maxYear) {
      var next := AddMonth(counter);
      MonthListDates(next, maxMonth, maxYear, format);
      var ms := MonthList(counter, maxMonth, maxYear, format);
      var rest := MonthList(next, maxMonth, maxYear, format);
      assert ms == [NewMonth(counter.month, counter.year, counter, format(counter))] + rest;
      forall i | 0 <= i < |ms|
        ensures Valid(ms[i].date) && ms[i].date.year == ms[i].year && ms[i].date.month == ms[i].month
        ensures ms[i].date.day <= counter.day
        ensures counter.day <= 28 ==> ms[i].date.day == counter.day
        ensures ms[i].labelText == format(ms[i].date)
      {
        if i > 0 {
          assert ms[i] == rest[i - 1];
        }
      }
    }
  }

  /** With nothing selected, month i's grid is `getMonthCells` of month i, and nothing gets selected. */
  lemma {:induction false} MonthGridsCells(ms: seq<MonthDescriptor>, env: BuildEnv, highlightedCals: seq<Date>)
    requires DatedInMonth(ms)
    ensures var r := MonthGrids(ms, env, [], highlightedCals);
      && r.1 == []
      && forall i | 0 <= i < |ms| :: r.0[i] == GetMonthCells(ms[i], ms[i].date, env, [], highlightedCals).0
  {
    if |ms| > 0 {
      MonthGridsCells(ms[1..], env, highlightedCals);
      var r := MonthGrids(ms, env, [], highlightedCals);
      var first := GetMonthCells(ms[0], ms[0].date, env, [], highlightedCals);
      assert |first.1| == |multiset(first.1)| == 0;
      var rest := MonthGrids(ms[1..], env, [], highlightedCals);
      assert r == ([first.0] + rest.0, rest.1);
      forall i | 0 <= i < |ms|
        ensures r.0[i] == GetMonthCells(ms[i], ms[i].date, env, [], highlightedCals).0
      {
        if i > 0 {
          assert r.0[i] == rest.0[i - 1];
          assert ms[1..][i - 1] == ms[i];
        }
      }
    }
  }
}
