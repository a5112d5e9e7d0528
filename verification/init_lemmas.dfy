/**
  What `init` builds: one month per calendar month from `minDate`'s through the
  month of the last day before `maxDate`, each with its grid, and nothing
  selected or highlighted.
*/
module InitFacts {
  import opened Wrappers
  import opened Dates
  import opened MonthCells
  import opened Months
  import opened Grid
  import opened Layout
  import opened Picker

  /** The month loop of `init` with the environment the picker's state gives `getMonthCells`. */
  lemma InitBuilds(minDate: Date, maxDate: Date, fdow: Weekday, today: Date,
                   isDateSelectable: Date -> bool, format: Date -> string)
    requires Valid(minDate) && Valid(maxDate) && !Before(maxDate, minDate)
    ensures Init(Some(minDate), Some(maxDate), Some(fdow), today, isDateSelectable, format).Success?
    ensures var st := Init(Some(minDate), Some(maxDate), Some(fdow), today, isDateSelectable, format).value;
      var env := BuildEnv(minDate, maxDate, today, fdow, isDateSelectable);
      var last := Prev(maxDate);
      && st.months == MonthList(minDate, last.month, last.year, format)
      && DatedInMonth(st.months)
      && st.cells == MonthGrids(st.months, env, [], []).0
  {
    var last := Prev(maxDate);
    MonthListDates(minDate, last.month, last.year, format);
  }

  /**
    `init` lists the months consecutively from `minDate`'s, as many as run
    through the month of the day before `maxDate`; each month's date is the
    counter started at `minDate` and its label that date's formatting.
  */
  lemma InitMonths(minDate: Date, maxDate: Date, fdow: Weekday, today: Date,
                   isDateSelectable: Date -> bool, format: Date -> string)
    requires Valid(minDate) && Valid(maxDate) && !Before(maxDate, minDate)
    ensures Init(Some(minDate), Some(maxDate), Some(fdow), today, isDateSelectable, format).Success?
    ensures var st := Init(Some(minDate), Some(maxDate), Some(fdow), today, isDateSelectable, format).value;
      && |st.months| == |st.cells| == MonthsThrough(minDate, Prev(maxDate).month, Prev(maxDate).year)
      && ConsecutiveFrom(st.months, minDate)
      && CountersFrom(st.months, minDate, format)
  {
    var last := Prev(maxDate);
    InitBuilds(minDate, maxDate, fdow, today, isDateSelectable, format);
    MonthListConsecutive(minDate, last.month, last.year, format);
    MonthListDates(minDate, last.month, last.year, format);
  }

  /** A day before `b` is not after the day before `b`. */
  lemma BeforeIsAtMostPrev(d: Date, b: Date)
    requires Valid(d) && Valid(b) && Before(d, b)
    ensures !Before(Prev(b), d)
  {
    PrevNextInverse(b);
    NextIsImmediate(Prev(b), d);
    BeforeIsStrictTotalOrder(d, b, d);
  }

  /**
    Every day in [minDate, maxDate) has its month listed: the month at index
    "months since minDate's month".
  */
  lemma InitCoversDays(minDate: Date, maxDate: Date, fdow: Weekday, today: Date,
                       isDateSelectable: Date -> bool, format: Date -> string, d: Date)
    requires Valid(minDate) && Valid(maxDate) && !Before(maxDate, minDate)
    requires Valid(d) && Between(d, minDate, maxDate)
    ensures Init(Some(minDate), Some(maxDate), Some(fdow), today, isDateSelectable, format).Success?
    ensures var st := Init(Some(minDate), Some(maxDate), Some(fdow), today, isDateSelectable, format).value;
      var i := MonthIndex(d.year, d.month) - MonthIndex(minDate.year, minDate.month);
      && 0 <= i < |st.months|
      && st.months[i].year == d.year && st.months[i].month == d.month
  {
    InitMonths(minDate, maxDate, fdow, today, isDateSelectable, format);
    var last := Prev(maxDate);
    BeforeIsAtMostPrev(d, maxDate);
    MonthLeByIndex(minDate.year, minDate.month, d.year, d.month);
    MonthLeByIndex(d.year, d.month, last.year, last.month);
  }

  /** Every listed month lies between `minDate`'s month and the month of the day before `maxDate`. */
  lemma InitMonthsWithin(minDate: Date, maxDate: Date, fdow: Weekday, today: Date,
                         isDateSelectable: Date -> bool, format: Date -> string)
    requires Valid(minDate) && Valid(maxDate) && !Before(maxDate, minDate)
    ensures Init(Some(minDate), Some(maxDate), Some(fdow), today, isDateSelectable, format).Success?
    ensures var st := Init(Some(minDate), Some(maxDate), Some(fdow), today, isDateSelectable, format).value;
      forall i | 0 <= i < |st.months| ::
        && MonthLe(minDate.year, minDate.month, st.months[i].year, st.months[i].month)
        && MonthLe(st.months[i].year, st.months[i].month, Prev(maxDate).year, Prev(maxDate).month)
  {
    InitMonths(minDate, maxDate, fdow, today, isDateSelectable, format);
    var st := Init(Some(minDate), Some(maxDate), Some(fdow), today, isDateSelectable, format).value;
    var last := Prev(maxDate);
    forall i | 0 <= i < |st.months|
      ensures MonthLe(minDate.year, minDate.month, st.months[i].year, st.months[i].month)
      ensures MonthLe(st.months[i].year, st.months[i].month, last.year, last.month)
    {
      MonthLeByIndex(minDate.year, minDate.month, st.months[i].year, st.months[i].month);
      MonthLeByIndex(st.months[i].year, st.months[i].month, last.year, last.month);
    }
  }

  /**
    Each month's grid is the layout of that month with nothing selected or
    highlighted: `init` clears both lists before building the cells.
  */
  lemma InitCells(minDate: Date, maxDate: Date, fdow: Weekday, today: Date,
                  isDateSelectable: Date -> bool, format: Date -> string)
    requires Valid(minDate) && Valid(maxDate) && !Before(maxDate, minDate)
    ensures Init(Some(minDate), Some(maxDate), Some(fdow), today, isDateSelectable, format).Success?
    ensures var st := Init(Some(minDate), Some(maxDate), Some(fdow), today, isDateSelectable, format).value;
      var env := BuildEnv(minDate, maxDate, today, fdow, isDateSelectable);
      forall i | 0 <= i < |st.months| ::
        && 0 <= st.months[i].month < 12
        && IsMonthGrid(st.cells[i], st.months[i], FirstOffset(st.months[i], env), env, [], [])
  {
    var last := Prev(maxDate);
    InitBuilds(minDate, maxDate, fdow, today, isDateSelectable, format);
    var st := Init(Some(minDate), Some(maxDate), Some(fdow), today, isDateSelectable, format).value;
    var env := BuildEnv(minDate, maxDate, today, fdow, isDateSelectable);
    MonthListDates(minDate, last.month, last.year, format);
    MonthGridsCells(st.months, env, []);
    forall i | 0 <= i < |st.months|
      ensures 0 <= st.months[i].month < 12
      ensures IsMonthGrid(st.cells[i], st.months[i], FirstOffset(st.months[i], env), env, [], [])
    {
      GetMonthCellsIsMonthGrid(st.months[i], st.months[i].date, env, [], []);
    }
  }

  /** Right after `init` no cell is selected or highlighted and every range state is NONE. */
  lemma InitNothingSelected(minDate: Date, maxDate: Date, fdow: Weekday, today: Date,
                            isDateSelectable: Date -> bool, format: Date -> string)
    requires Valid(minDate) && Valid(maxDate) && !Before(maxDate, minDate)
    ensures Init(Some(minDate), Some(maxDate), Some(fdow), today, isDateSelectable, format).Success?
    ensures var st := Init(Some(minDate), Some(maxDate), Some(fdow), today, isDateSelectable, format).value;
      forall p | ValidPos(st.cells, p) ::
        !At(st.cells, p).isSelected && !At(st.cells, p).isHighlighted && At(st.cells, p).rangeState == NONE
  {
    InitCells(minDate, maxDate, fdow, today, isDateSelectable, format);
    InitMonths(minDate, maxDate, fdow, today, isDateSelectable, format);
    var st := Init(Some(minDate), Some(maxDate), Some(fdow), today, isDateSelectable, format).value;
    var env := BuildEnv(minDate, maxDate, today, fdow, isDateSelectable);
    forall p | ValidPos(st.cells, p)
      ensures !At(st.cells, p).isSelected && !At(st.cells, p).isHighlighted && At(st.cells, p).rangeState == NONE
    {
      var i := p.month;
      assert IsMonthGrid(st.cells[i], st.months[i], FirstOffset(st.months[i], env), env, [], []);
    }
  }
}
