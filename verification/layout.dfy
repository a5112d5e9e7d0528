/**
  What `getMonthCells` builds, stated without its loops: a month's grid is the
  run of whole weeks that covers the month, starting on the locale's first day
  of the week, and each cell's flags follow from its date alone.
*/
module Layout {
  import opened Wrappers
  import opened Dates
  import opened MonthCells
  import opened Months
  import opened Grid

  /** The range state a cell of day `d` is built with, from the selected dates' earliest and latest. */
  function RangeFor(d: Date, selectedCals: seq<Date>): RangeState {
    if |selectedCals| > 1 then
      if IsEarliest(d, selectedCals) then FIRST
      else if IsLatest(d, selectedCals) then LAST
      else if (exists a | a in selectedCals :: Before(a, d)) && (exists b | b in selectedCals :: Before(d, b)) then MIDDLE
      else NONE
    else NONE
  }

  /**
    The cell of day `d` in the grid of month `md`: in the current month exactly
    when `d` is in that month; selected when it is also in the selected list;
    selectable when it is also in [minCal, maxCal) and passes the filter; today
    when it is `today`; highlighted when it is in the highlighted list.
  */
  function CellFor(md: MonthDescriptor, d: Date, env: BuildEnv, selectedCals: seq<Date>,
                   highlightedCals: seq<Date>): Cell
  {
    var current := SameMonth(d, md);
    Cell(d, d.day, current, current && d in selectedCals, d == env.today,
         current && Between(d, env.minCal, env.maxCal) && env.isDateSelectable(d),
         d in highlightedCals, RangeFor(d, selectedCals))
  }

  /** The offset from the 1st of `md`'s month to the first cell of its grid. */
  function FirstOffset(md: MonthDescriptor, env: BuildEnv): int
    requires 0 <= md.month < 12
  {
    GridOffset(Date(md.year, md.month, 1), env.firstDayOfWeek)
  }

  /**
    `r` is month `md`'s grid: rows of seven, the first cell `off` days from the
    1st, as few rows as cover every day of the month, each cell `CellFor` its day.
  */
  predicate IsMonthGrid(r: seq<Week>, md: MonthDescriptor, off: int, env: BuildEnv,
                        selectedCals: seq<Date>, highlightedCals: seq<Date>)
  {
    && 0 <= md.month < 12
    && -7 < off <= 0
    && |r| > 0
    && DaysInMonth(md.year, md.month) <= off + 7 * |r|
    && off + 7 * (|r| - 1) < DaysInMonth(md.year, md.month)
    && (forall w | 0 <= w < |r| :: |r[w]| == 7)
    && forall w, c | 0 <= w < |r| && 0 <= c < 7 ::
         r[w][c] == CellFor(md, DayAround(md.year, md.month, off + 7 * w + c), env, selectedCals, highlightedCals)
  }

  /** Of two earliest dates of a list, neither is before the other: they are the same. */
  lemma EarliestUnique(a: Date, b: Date, cals: seq<Date>)
    requires IsEarliest(a, cals) && IsEarliest(b, cals)
    ensures a == b
  {
    BeforeIsStrictTotalOrder(a, b, a);
  }

  /** The range state the loop computes from the sorted list is `RangeFor` of the original list. */
  lemma {:induction false} BuildRangeStateIsRangeFor(d: Date, selectedCals: seq<Date>, sorted: seq<Date>,
                                                     minSel: Option<Date>, maxSel: Option<Date>)
    requires multiset(sorted) == multiset(selectedCals)
    requires minSel.None? <==> |selectedCals| == 0
    requires minSel.Some? ==> IsEarliest(minSel.value, selectedCals)
    requires maxSel.None? <==> |selectedCals| == 0
    requires maxSel.Some? ==> IsLatest(maxSel.value, selectedCals)
    ensures BuildRangeState(d, |sorted|, minSel, maxSel) == RangeFor(d, selectedCals)
  {
    assert |sorted| == |multiset(sorted)| == |selectedCals|;
    if |selectedCals| > 1 {
      var lo, hi := minSel.value, maxSel.value;
      SameDateIsEquality(lo, d);
      SameDateIsEquality(hi, d);
      BeforeIsStrictTotalOrder(d, lo, d);
      BeforeIsStrictTotalOrder(d, hi, d);
      if IsEarliest(d, selectedCals) {
        EarliestUnique(d, lo, selectedCals);
      } else if d != lo && IsLatest(d, selectedCals) {
        BeforeIsStrictTotalOrder(d, hi, d);
      } else if d != lo && d != hi {
        if Between(d, lo, hi) {
          assert Before(lo, d) && Before(d, hi);
        } else {
          if Before(d, lo) {
            forall a | a in selectedCals ensures !Before(a, d) {
              BeforeIsStrictTotalOrder(d, lo, a);
              BeforeIsStrictTotalOrder(a, d, lo);
            }
          } else {
            assert Before(hi, d);
            forall b | b in selectedCals ensures !Before(d, b) {
              BeforeIsStrictTotalOrder(hi, d, b);
              BeforeIsStrictTotalOrder(b, hi, d);
            }
          }
        }
      }
    }
  }

  /** The loop body's cell is `CellFor` its day, for the days a month's grid can show. */
  lemma BuildCellIsCellFor(md: MonthDescriptor, d: Date, env: BuildEnv, selectedCals: seq<Date>,
                           highlightedCals: seq<Date>, sorted: seq<Date>, minSel: Option<Date>, maxSel: Option<Date>)
    requires d.month == md.month <==> SameMonth(d, md)
    requires multiset(sorted) == multiset(selectedCals)
    requires minSel.None? <==> |selectedCals| == 0
    requires minSel.Some? ==> IsEarliest(minSel.value, selectedCals)
    requires maxSel.None? <==> |selectedCals| == 0
    requires maxSel.Some? ==> IsLatest(maxSel.value, selectedCals)
    ensures BuildCell(md, d, env, sorted, highlightedCals, minSel, maxSel) == CellFor(md, d, env, selectedCals, highlightedCals)
  {
    BuildRangeStateIsRangeFor(d, selectedCals, sorted, minSel, maxSel);
    SameDateIsEquality(d, env.today);
    assert d in sorted <==> d in selectedCals by {
      assert d in sorted <==> d in multiset(sorted);
    }
  }

  /** The earliest and latest dates `getMonthCells` finds, by sorting the list twice, are those of the list it is given. */
  lemma SortedSelection(selectedCals: seq<Date>)
    ensures var (sorted, minSel) := MinDate(selectedCals);
      var (sorted', maxSel) := MaxDate(sorted);
      && multiset(sorted') == multiset(selectedCals)
      && (minSel.None? <==> |selectedCals| == 0)
      && (minSel.Some? ==> IsEarliest(minSel.value, selectedCals))
      && (maxSel.None? <==> |selectedCals| == 0)
      && (maxSel.Some? ==> IsLatest(maxSel.value, selectedCals))
  {
    var (sorted, minSel) := MinDate(selectedCals);
    assert |sorted| == |multiset(sorted)| == |selectedCals|;
    assert forall x | x in selectedCals :: x in multiset(sorted);
    assert forall x | x in sorted :: x in multiset(selectedCals);
  }

  /** `BuildCellIsCellFor` for every day a month's grid can show, from offset `off` on. */
  lemma BuildCellsAround(md: MonthDescriptor, off: int, env: BuildEnv, selectedCals: seq<Date>,
                         highlightedCals: seq<Date>, sorted: seq<Date>, minSel: Option<Date>, maxSel: Option<Date>)
    requires 0 <= md.month < 12 && -7 < off
    requires multiset(sorted) == multiset(selectedCals)
    requires minSel.None? <==> |selectedCals| == 0
    requires minSel.Some? ==> IsEarliest(minSel.value, selectedCals)
    requires maxSel.None? <==> |selectedCals| == 0
    requires maxSel.Some? ==> IsLatest(maxSel.value, selectedCals)
    ensures forall k | off <= k < DaysInMonth(md.year, md.month) + 7 ::
      BuildCell(md, DayAround(md.year, md.month, k), env, sorted, highlightedCals, minSel, maxSel)
        == CellFor(md, DayAround(md.year, md.month, k), env, selectedCals, highlightedCals)
  {
    forall k | off <= k < DaysInMonth(md.year, md.month) + 7
      ensures BuildCell(md, DayAround(md.year, md.month, k), env, sorted, highlightedCals, minSel, maxSel)
        == CellFor(md, DayAround(md.year, md.month, k), env, selectedCals, highlightedCals)
    {
      DayAroundMonth(md.year, md.month, k);
      BuildCellIsCellFor(md, DayAround(md.year, md.month, k), env, selectedCals, highlightedCals, sorted, minSel, maxSel);
    }
  }

  /** `AddDays` from the 1st agrees with `DayAround` on the days a month's grid can show. */
  lemma AddDaysFromFirst(y: int, m: int, k: int)
    requires 0 <= m < 12
    requires -7 < k < DaysInMonth(y, m) + 7
    ensures AddDays(Date(y, m, 1), k) == DayAround(y, m, k)
  {
    assert DayAround(y, m, 0) == Date(y, m, 1);
    if k < 0 {
      AddDaysBackAround(y, m, 0, k);
    } else {
      AddDaysAround(y, m, 0, k);
    }
  }

  /**
    `getMonthCells` builds the month's grid: rows of seven starting `off` days
    from the 1st, as few as cover the month, each cell `CellFor` its day, and it
    leaves the selected list a permutation of itself.
  */
  lemma {:induction false} GetMonthCellsIsMonthGrid(md: MonthDescriptor, startCal: Date, env: BuildEnv,
                                                    selectedCals: seq<Date>, highlightedCals: seq<Date>)
    requires Valid(startCal) && startCal.year == md.year && startCal.month == md.month
    ensures IsMonthGrid(GetMonthCells(md, startCal, env, selectedCals, highlightedCals).0, md,
                        FirstOffset(md, env), env, selectedCals, highlightedCals)
  {
    var y, m := md.year, md.month;
    var first := startCal.(day := 1);
    var off := GridOffset(first, env.firstDayOfWeek);
    assert first == Date(y, m, 1) == DayAround(y, m, 0);
    AddDaysBackAround(y, m, 0, off);
    var cal := AddDays(first, off);
    var (sorted, minSel) := MinDate(selectedCals);
    var (sorted', maxSel) := MaxDate(sorted);
    var mk := d => BuildCell(md, d, env, sorted', highlightedCals, minSel, maxSel);
    var r := BuildWeeks(md, cal, off, mk);
    assert r == GetMonthCells(md, startCal, env, selectedCals, highlightedCals).0;
    SortedSelection(selectedCals);
    BuiltGridIsMonthGrid(md, off, r, mk, env, selectedCals, highlightedCals, sorted', minSel, maxSel);
    assert off == FirstOffset(md, env);
  }

  /** The rows the week loop builds from `off` days after the 1st, with `BuildCell` as cell maker, form the month's grid. */
  lemma BuiltGridIsMonthGrid(md: MonthDescriptor, off: int, r: seq<Week>, mk: Date -> Cell, env: BuildEnv,
                             selectedCals: seq<Date>, highlightedCals: seq<Date>,
                             sorted: seq<Date>, minSel: Option<Date>, maxSel: Option<Date>)
    requires 0 <= md.month < 12 && -7 < off <= 0
    requires r == BuildWeeks(md, DayAround(md.year, md.month, off), off, mk)
    requires forall d :: mk(d) == BuildCell(md, d, env, sorted, highlightedCals, minSel, maxSel)
    requires multiset(sorted) == multiset(selectedCals)
    requires minSel.None? <==> |selectedCals| == 0
    requires minSel.Some? ==> IsEarliest(minSel.value, selectedCals)
    requires maxSel.None? <==> |selectedCals| == 0
    requires maxSel.Some? ==> IsLatest(maxSel.value, selectedCals)
    ensures IsMonthGrid(r, md, off, env, selectedCals, highlightedCals)
  {
    var y, m := md.year, md.month;
    WeekLoopGuardAround(md, off);
    BuildWeeksCells(md, DayAround(y, m, off), off, mk);
    BuildCellsAround(md, off, env, selectedCals, highlightedCals, sorted, minSel, maxSel);
    WeeksAreCells(md, off, r, mk, env, selectedCals, highlightedCals);
  }

  /** Rows of `mk` applied to consecutive days are rows of `CellFor` when `mk` agrees with it on those days. */
  lemma WeeksAreCells(md: MonthDescriptor, off: int, r: seq<Week>, mk: Date -> Cell, env: BuildEnv,
                      selectedCals: seq<Date>, highlightedCals: seq<Date>)
    requires 0 <= md.month < 12 && -7 < off <= 0
    requires |r| > 0 && off + 7 * (|r| - 1) < DaysInMonth(md.year, md.month)
    requires forall w | 0 <= w < |r| :: |r[w]| == 7
    requires RowsAround(r, md, off, mk)
    requires forall k | off <= k < DaysInMonth(md.year, md.month) + 7 ::
      mk(DayAround(md.year, md.month, k)) == CellFor(md, DayAround(md.year, md.month, k), env, selectedCals, highlightedCals)
    ensures forall w, c | 0 <= w < |r| && 0 <= c < 7 ::
      r[w][c] == CellFor(md, DayAround(md.year, md.month, off + 7 * w + c), env, selectedCals, highlightedCals)
  {
    forall w, c | 0 <= w < |r| && 0 <= c < 7
      ensures r[w][c] == CellFor(md, DayAround(md.year, md.month, off + 7 * w + c), env, selectedCals, highlightedCals)
    {
      assert r[w][c] == mk(DayAround(md.year, md.month, off + 7 * w + c));
    }
  }

  /**
    The cells of a month's grid hold consecutive days: the cell in row `w`,
    column `c` is `off + 7w + c` days from the 1st, and it is in the current
    month exactly when that offset falls inside the month.
  */
  lemma {:induction false} MonthGridDays(r: seq<Week>, md: MonthDescriptor, env: BuildEnv,
                                         selectedCals: seq<Date>, highlightedCals: seq<Date>)
    requires 0 <= md.month < 12
    requires IsMonthGrid(r, md, FirstOffset(md, env), env, selectedCals, highlightedCals)
    ensures forall w, c | 0 <= w < |r| && 0 <= c < 7 ::
      && r[w][c].date == AddDays(Date(md.year, md.month, 1), FirstOffset(md, env) + 7 * w + c)
      && DayNumber(r[w][c].date) == DayNumber(Date(md.year, md.month, 1)) + FirstOffset(md, env) + 7 * w + c
      && (r[w][c].isCurrentMonth <==> 0 <= FirstOffset(md, env) + 7 * w + c < DaysInMonth(md.year, md.month))
  {
    var y, m, n := md.year, md.month, DaysInMonth(md.year, md.month);
    var off := FirstOffset(md, env);
    forall w, c | 0 <= w < |r| && 0 <= c < 7
      ensures r[w][c].date == AddDays(Date(y, m, 1), off + 7 * w + c)
      ensures DayNumber(r[w][c].date) == DayNumber(Date(y, m, 1)) + off + 7 * w + c
      ensures r[w][c].isCurrentMonth <==> 0 <= off + 7 * w + c < n
    {
      var k := off + 7 * w + c;
      assert r[w][c] == CellFor(md, DayAround(y, m, k), env, selectedCals, highlightedCals);
      AddDaysFromFirst(y, m, k);
      DayAroundMonth(y, m, k);
      DayNumberAround(y, m, k);
    }
  }

  /**
    A month's grid starts on the locale's first day of the week, at most six
    days before the 1st.
  */
  lemma MonthGridFirstCell(r: seq<Week>, md: MonthDescriptor, env: BuildEnv,
                           selectedCals: seq<Date>, highlightedCals: seq<Date>)
    requires 0 <= md.month < 12
    requires IsMonthGrid(r, md, FirstOffset(md, env), env, selectedCals, highlightedCals)
    ensures DayOfWeek(r[0][0].date) == env.firstDayOfWeek
    ensures DayNumber(Date(md.year, md.month, 1)) - 6 <= DayNumber(r[0][0].date) <= DayNumber(Date(md.year, md.month, 1))
  {
    var first := Date(md.year, md.month, 1);
    MonthGridDays(r, md, env, selectedCals, highlightedCals);
    assert r[0][0].date == AddDays(first, FirstOffset(md, env));
    FirstCellWeekday(first, env.firstDayOfWeek);
  }

  /**
    Every day of the month appears in its grid, as a current-month cell, at
    row and column given by its offset from the first cell.
  */
  lemma MonthGridCoversMonth(r: seq<Week>, md: MonthDescriptor, env: BuildEnv,
                             selectedCals: seq<Date>, highlightedCals: seq<Date>)
    requires 0 <= md.month < 12
    requires IsMonthGrid(r, md, FirstOffset(md, env), env, selectedCals, highlightedCals)
    ensures forall day | 1 <= day <= DaysInMonth(md.year, md.month) ::
      && 0 <= (day - 1 - FirstOffset(md, env)) / 7 < |r|
      && var cell := r[(day - 1 - FirstOffset(md, env)) / 7][(day - 1 - FirstOffset(md, env)) % 7];
         cell.date == Date(md.year, md.month, day) && cell.isCurrentMonth
  {
    forall day | 1 <= day <= DaysInMonth(md.year, md.month)
      ensures 0 <= (day - 1 - FirstOffset(md, env)) / 7 < |r|
      ensures var cell := r[(day - 1 - FirstOffset(md, env)) / 7][(day - 1 - FirstOffset(md, env)) % 7];
        cell.date == Date(md.year, md.month, day) && cell.isCurrentMonth
    {
      GridDayCell(r, md, env, selectedCals, highlightedCals, day);
    }
  }

  /** The first and last rows each hold a day of the month, so no row could be dropped. */
  lemma MonthGridRowsNeeded(r: seq<Week>, md: MonthDescriptor, env: BuildEnv,
                            selectedCals: seq<Date>, highlightedCals: seq<Date>)
    requires 0 <= md.month < 12
    requires IsMonthGrid(r, md, FirstOffset(md, env), env, selectedCals, highlightedCals)
    ensures r[0][6].isCurrentMonth && r[|r| - 1][0].isCurrentMonth
  {
    GridCellDay(r, md, env, selectedCals, highlightedCals, 0, 6);
    GridCellDay(r, md, env, selectedCals, highlightedCals, |r| - 1, 0);
  }

  /** Day `day` of the month sits in row and column given by its offset from the first cell. */
  lemma GridDayCell(r: seq<Week>, md: MonthDescriptor, env: BuildEnv,
                    selectedCals: seq<Date>, highlightedCals: seq<Date>, day: int)
    requires 0 <= md.month < 12
    requires IsMonthGrid(r, md, FirstOffset(md, env), env, selectedCals, highlightedCals)
    requires 1 <= day <= DaysInMonth(md.year, md.month)
    ensures 0 <= (day - 1 - FirstOffset(md, env)) / 7 < |r|
    ensures var i := day - 1 - FirstOffset(md, env);
      && r[i / 7][i % 7].date == Date(md.year, md.month, day)
      && r[i / 7][i % 7].isCurrentMonth
  {
    var i := day - 1 - FirstOffset(md, env);
    var w, c := i / 7, i % 7;
    assert i == 7 * w + c;
    GridCellDay(r, md, env, selectedCals, highlightedCals, w, c);
  }

  /** The cell in row `w`, column `c` of a month's grid shows the day `off + 7w + c` days from the 1st. */
  lemma GridCellDay(r: seq<Week>, md: MonthDescriptor, env: BuildEnv,
                    selectedCals: seq<Date>, highlightedCals: seq<Date>, w: int, c: int)
    requires 0 <= md.month < 12
    requires IsMonthGrid(r, md, FirstOffset(md, env), env, selectedCals, highlightedCals)
    requires 0 <= w < |r| && 0 <= c < 7
    ensures var k := FirstOffset(md, env) + 7 * w + c;
      && r[w][c].date == DayAround(md.year, md.month, k)
      && (r[w][c].isCurrentMonth <==> 0 <= k < DaysInMonth(md.year, md.month))
  {
    var k := FirstOffset(md, env) + 7 * w + c;
    assert r[w][c] == CellFor(md, DayAround(md.year, md.month, k), env, selectedCals, highlightedCals);
    DayAroundMonth(md.year, md.month, k);
  }

  /**
    The flags of a month's grid, cell by cell: in the current month exactly in
    `md`'s month; selectable exactly when also in [minCal, maxCal) and accepted
    by the filter; selected only in the current month; highlighted and today
    by day; the range state from the selected dates' earliest and latest.
  */
  lemma MonthGridFlags(r: seq<Week>, md: MonthDescriptor, env: BuildEnv,
                       selectedCals: seq<Date>, highlightedCals: seq<Date>)
    requires 0 <= md.month < 12
    requires IsMonthGrid(r, md, FirstOffset(md, env), env, selectedCals, highlightedCals)
    ensures forall w, c | 0 <= w < |r| && 0 <= c < 7 ::
      && (r[w][c].isCurrentMonth <==> SameMonth(r[w][c].date, md))
      && (r[w][c].isSelectable <==>
            r[w][c].isCurrentMonth && Between(r[w][c].date, env.minCal, env.maxCal) && env.isDateSelectable(r[w][c].date))
      && (r[w][c].isSelected <==> r[w][c].isCurrentMonth && r[w][c].date in selectedCals)
      && (r[w][c].isHighlighted <==> r[w][c].date in highlightedCals)
      && (r[w][c].isToday <==> r[w][c].date == env.today)
      && r[w][c].value == r[w][c].date.day
      && r[w][c].rangeState == RangeFor(r[w][c].date, selectedCals)
  {
    forall w, c | 0 <= w < |r| && 0 <= c < 7
      ensures r[w][c] == CellFor(md, r[w][c].date, env, selectedCals, highlightedCals)
    {
      GridCellDay(r, md, env, selectedCals, highlightedCals, w, c);
    }
  }

  /** No day appears twice in a month's grid. */
  lemma MonthGridDistinct(r: seq<Week>, md: MonthDescriptor, env: BuildEnv,
                          selectedCals: seq<Date>, highlightedCals: seq<Date>)
    requires 0 <= md.month < 12
    requires IsMonthGrid(r, md, FirstOffset(md, env), env, selectedCals, highlightedCals)
    ensures forall w1, c1, w2, c2 | 0 <= w1 < |r| && 0 <= c1 < 7 && 0 <= w2 < |r| && 0 <= c2 < 7 ::
      r[w1][c1].date == r[w2][c2].date ==> w1 == w2 && c1 == c2
  {
    MonthGridDays(r, md, env, selectedCals, highlightedCals);
  }

  /** The first cell, `GridOffset` days from the 1st, falls on the locale's first day of the week. */
  lemma FirstCellWeekday(first: Date, firstDayOfWeek: Weekday)
    requires Valid(first)
    ensures DayOfWeek(AddDays(first, GridOffset(first, firstDayOfWeek))) == firstDayOfWeek
  {
    var off := GridOffset(first, firstDayOfWeek);
    DayOfWeekAddDays(first, off);
    OffsetReachesWeekday(DayOfWeek(first), firstDayOfWeek);
  }

  /** Moving back from weekday `w` by `GridOffset`'s amount lands on weekday `f`. */
  lemma OffsetReachesWeekday(w: Weekday, f: Weekday)
    ensures var off := if f - w > 0 then f - w - 7 else f - w;
      (w - 1 + off) % 7 + 1 == f
  {
    if f - w > 0 {
      ModShift(-1, f - 1);
    }
  }
}
