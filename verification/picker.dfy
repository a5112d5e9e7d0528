/**
  The selection state of `CalendarPickerView`: the grid of cells, the months,
  the selected and highlighted cells (by position) and dates, the bounds, the
  selection mode and the peak date of RANGE_ON_TWO_SCREENS. Every operation
  returns the new state; listener calls come back as a list of events, and
  exceptions as `Failure`.
*/
module Picker {
  import opened Wrappers
  import opened Dates
  import opened MonthCells
  import opened Months
  import opened Grid
  import Sorting

  datatype SelectionMode = SINGLE | MULTIPLE | RANGE | RANGE_ON_TWO_SCREENS

  /** The anchor of RANGE_ON_TWO_SCREENS: the picked date ends (`Lower`) or starts (`Higher`) the range. */
  datatype PeakDate = LowerPeakDate(peak: Date) | HigherPeakDate(peak: Date)

  /** The calls made on the date listener and the invalid-date listener. */
  datatype Event = DateSelected(date: Date) | DateUnselected(date: Date) | InvalidDateSelected(date: Date)

  /** The `IllegalArgumentException`s the picker throws. */
  datatype Error =
    | NullBounds        // init: minDate or maxDate is null
    | MinAfterMax       // init: minDate is after maxDate
    | NullLocale        // init: the locale is null
    | NullDate          // validateDate: the date is null
    | DateOutOfRange    // validateDate: the date is before minDate or not before maxDate
    | SingleModeMany    // withSelectedDates: several dates in SINGLE mode
    | RangeModeMany     // withSelectedDates: more than two dates in RANGE mode

  datatype Picker = Picker(
    months: seq<MonthDescriptor>,
    cells: Grid,
    selectedCells: seq<Pos>,
    selectedCals: seq<Date>,
    highlightedCells: seq<Pos>,
    highlightedCals: seq<Date>,
    minCal: Date,
    maxCal: Date,                // maxDate, exclusive: the day bound `maxCal` stands for
    today: Date,
    firstDayOfWeek: Weekday,
    mode: SelectionMode,
    peakDate: Option<PeakDate>,
    ignoreValidatingDates: bool)

  /** Every tracked cell is a cell of the grid. */
  predicate WellFormed(st: Picker) {
    && (forall i | 0 <= i < |st.selectedCells| :: ValidPos(st.cells, st.selectedCells[i]))
    && (forall i | 0 <= i < |st.highlightedCells| :: ValidPos(st.cells, st.highlightedCells[i]))
  }

  /** The outcome of a selection: the new state, whether the date ended up selected, and the listener calls. */
  datatype Outcome = Outcome(picker: Picker, accepted: bool, events: seq<Event>)

  /** A sequence of operations that may stop at an exception, keeping what was done before it. */
  datatype Run = Run(picker: Picker, events: seq<Event>, error: Option<Error>)

  // ---------------------------------------------------------------------------
  // Grids that only went through the cell setters

  /** `h` has `g`'s shape and no cell's fixed fields differ. */
  ghost predicate Preserves(g: Grid, h: Grid) {
    && SameShape(g, h)
    && forall p | ValidPos(g, p) :: SameFixedFields(At(g, p), At(h, p))
  }

  lemma PreservesTransitive(g: Grid, h: Grid, k: Grid)
    requires Preserves(g, h) && Preserves(h, k)
    ensures Preserves(g, k)
  {
    SameShapeValidPos(g, h);
  }

  function Deselect(c: Cell): (r: Cell)
    ensures SameFixedFields(c, r) && !r.isSelected
  {
    SetSelected(c, false)
  }

  function SelectCell(c: Cell): (r: Cell)
    ensures SameFixedFields(c, r) && r.isSelected
  {
    SetSelected(c, true)
  }

  function Unhighlight(c: Cell): (r: Cell)
    ensures SameFixedFields(c, r) && !r.isHighlighted
  {
    SetHighlighted(c, false)
  }

  function HighlightCell(c: Cell): (r: Cell)
    ensures SameFixedFields(c, r) && r.isHighlighted
  {
    SetHighlighted(c, true)
  }

  function ClearRange(c: Cell): (r: Cell)
    ensures SameFixedFields(c, r) && r.rangeState == NONE
  {
    SetRangeState(c, NONE)
  }

  function MarkFirst(c: Cell): (r: Cell)
    ensures SameFixedFields(c, r) && r.rangeState == FIRST
  {
    SetRangeState(c, FIRST)
  }

  function MarkLast(c: Cell): (r: Cell)
    ensures SameFixedFields(c, r) && r.rangeState == LAST
  {
    SetRangeState(c, LAST)
  }

  function MarkMiddle(c: Cell): (r: Cell)
    ensures SameFixedFields(c, r) && r.isSelected && r.rangeState == MIDDLE
  {
    SetRangeState(SetSelected(c, true), MIDDLE)
  }

  /** Calling a setter on some cells keeps every cell's fixed fields. */
  lemma UpdatePreserves(g: Grid, ps: seq<Pos>, f: Cell -> Cell)
    requires forall c :: SameFixedFields(c, f(c))
    ensures Preserves(g, UpdateCells(g, ps, f))
  {
  }

  /** Applies `f` to the cells at `ps` and keeps the positions tracked valid. */
  function Update(st: Picker, ps: seq<Pos>, f: Cell -> Cell): (r: Picker)
    requires WellFormed(st)
    requires forall c :: SameFixedFields(c, f(c))
    ensures WellFormed(r) && Preserves(st.cells, r.cells)
    ensures forall p | ValidPos(st.cells, p) :: At(r.cells, p) == if p in ps then f(At(st.cells, p)) else At(st.cells, p)
    ensures r == st.(cells := r.cells)
  {
    var g := UpdateCells(st.cells, ps, f);
    UpdatePreserves(st.cells, ps, f);
    SameShapeValidPos(st.cells, g);
    st.(cells := g)
  }

  // ---------------------------------------------------------------------------
  // List helpers

  /** `indexOf`: the first index of `x` in `s`. */
  function IndexOf<T(==)>(s: seq<T>, x: T): (i: nat)
    requires x in s
    ensures i < |s| && s[i] == x
    ensures forall j | 0 <= j < i :: s[j] != x
  {
    if s[0] == x then 0 else 1 + IndexOf(s[1..], x)
  }

  /** `s` without its element at index `i` (`List.remove`). */
  function RemoveAt<T>(s: seq<T>, i: nat): (r: seq<T>)
    requires i < |s|
    ensures |r| == |s| - 1
    ensures forall j | 0 <= j < i :: r[j] == s[j]
    ensures forall j | i <= j < |r| :: r[j] == s[j + 1]
    ensures multiset(r) + multiset{s[i]} == multiset(s)
  {
    assert s == s[..i] + [s[i]] + s[i + 1..];
    s[..i] + s[i + 1..]
  }

  /** The first index of a cell in `ps` holding day `d`, if any. */
  function FirstCellOn(g: Grid, ps: seq<Pos>, d: Date): (r: Option<nat>)
    requires forall i | 0 <= i < |ps| :: ValidPos(g, ps[i])
    ensures r.None? <==> forall i | 0 <= i < |ps| :: At(g, ps[i]).date != d
    ensures r.Some? ==> r.value < |ps| && At(g, ps[r.value]).date == d
    ensures r.Some? ==> forall j | 0 <= j < r.value :: At(g, ps[j]).date != d
  {
    if |ps| == 0 then None
    else if At(g, ps[0]).date == d then Some(0)
    else
      match FirstCellOn(g, ps[1..], d)
      case None => None
      case Some(i) => Some(i + 1)
  }

  /** The first index of a date in `cals` that is the same day as `d`, if any. */
  function FirstSameDate(cals: seq<Date>, d: Date): (r: Option<nat>)
    ensures r.None? <==> d !in cals
    ensures r.Some? ==> r.value < |cals| && cals[r.value] == d
    ensures r.Some? ==> d !in cals[..r.value]
  {
    if |cals| == 0 then None
    else if SameDate(cals[0], d) then
      SameDateIsEquality(cals[0], d);
      Some(0)
    else
      SameDateIsEquality(cals[0], d);
      match FirstSameDate(cals[1..], d)
      case None =>
        assert cals == [cals[0]] + cals[1..];
        None
      case Some(i) =>
        assert cals[..i + 1] == [cals[0]] + cals[1..][..i];
        Some(i + 1)
  }

  // ---------------------------------------------------------------------------
  // clearOldSelections

  /**
    Whether clearing in RANGE mode reports a cell whose first index in the
    selected list is `i`, as the source writes it: the first index or the
    last one. The fill appends the MIDDLE cells after the range's end, so with
    cells in between this reports the last MIDDLE cell instead of the end
    (see `SelectionFacts.RangeEndNotReported`).
  */
  predicate IsFirstOrLast(i: nat, n: nat) {
    i == 0 || i == n - 1
  }

  /** The unselect events of clearing, from index `j` of the selected cells on. */
  function UnselectEventsAsWritten(g: Grid, sc: seq<Pos>, rangeMode: bool, j: nat): (r: seq<Event>)
    requires forall i | 0 <= i < |sc| :: ValidPos(g, sc[i])
    requires j <= |sc|
    ensures |r| <= |sc| - j
    decreases |sc| - j
  {
    if j == |sc| then []
    else
      var here := if !rangeMode || IsFirstOrLast(IndexOf(sc, sc[j]), |sc|) then [DateUnselected(At(g, sc[j]).date)] else [];
      here + UnselectEventsAsWritten(g, sc, rangeMode, j + 1)
  }

  /** Clearing reports only unselect events, each on the day of a selected cell from index `j` on. */
  lemma {:induction false} UnselectEventsAreSelectedDays(g: Grid, sc: seq<Pos>, rangeMode: bool, j: nat)
    requires forall i | 0 <= i < |sc| :: ValidPos(g, sc[i])
    requires j <= |sc|
    ensures forall e | e in UnselectEventsAsWritten(g, sc, rangeMode, j) ::
      e.DateUnselected? && exists i | j <= i < |sc| :: e.date == At(g, sc[i]).date
    decreases |sc| - j
  {
    if j < |sc| {
      UnselectEventsAreSelectedDays(g, sc, rangeMode, j + 1);
    }
  }

  /**
    `clearOldSelections`: deselects every selected cell, empties both
    selection lists, and reports each cell unselected (in RANGE mode only the
    cells at the first and the last index of the list).
  */
  function ClearOldSelections(st: Picker): (r: (Picker, seq<Event>))
    requires WellFormed(st)
    ensures WellFormed(r.0) && Preserves(st.cells, r.0.cells)
    ensures r.0.selectedCells == [] && r.0.selectedCals == []
    ensures forall p | ValidPos(st.cells, p) ::
      At(r.0.cells, p) == if p in st.selectedCells then Deselect(At(st.cells, p)) else At(st.cells, p)
    ensures r.0 == st.(cells := r.0.cells, selectedCells := [], selectedCals := [])
    ensures r.1 == UnselectEventsAsWritten(st.cells, st.selectedCells, st.mode == RANGE, 0)
  {
    var events := UnselectEventsAsWritten(st.cells, st.selectedCells, st.mode == RANGE, 0);
    var st' := Update(st, st.selectedCells, Deselect);
    (st'.(selectedCells := [], selectedCals := []), events)
  }

  /**
    The RANGE-mode rule clearing evidently intends: report the range's two
    ends, which the fill keeps at indexes 0 and 1.
  */
  predicate IsRangeEnd(i: nat) {
    i == 0 || i == 1
  }

  /** The unselect events of clearing under the intended rule, from index `j` on. */
  function UnselectEvents(g: Grid, sc: seq<Pos>, rangeMode: bool, j: nat): (r: seq<Event>)
    requires forall i | 0 <= i < |sc| :: ValidPos(g, sc[i])
    requires j <= |sc|
    ensures |r| <= |sc| - j
    decreases |sc| - j
  {
    if j == |sc| then []
    else
      var here := if !rangeMode || IsRangeEnd(IndexOf(sc, sc[j])) then [DateUnselected(At(g, sc[j]).date)] else [];
      here + UnselectEvents(g, sc, rangeMode, j + 1)
  }

  /** Outside RANGE mode the two rules report the same events. */
  lemma {:induction false} UnselectEventsAgreeOutsideRange(g: Grid, sc: seq<Pos>, j: nat)
    requires forall i | 0 <= i < |sc| :: ValidPos(g, sc[i])
    requires j <= |sc|
    ensures UnselectEvents(g, sc, false, j) == UnselectEventsAsWritten(g, sc, false, j)
    decreases |sc| - j
  {
    if j < |sc| {
      UnselectEventsAgreeOutsideRange(g, sc, j + 1);
    }
  }

  /**
    `clearOldSelections` with the intended RANGE-mode rule: the same change
    of state, and the same events outside RANGE mode.
  */
  function ClearOldSelectionsIntended(st: Picker): (r: (Picker, seq<Event>))
    requires WellFormed(st)
    ensures r.0 == ClearOldSelections(st).0
    ensures st.mode != RANGE ==> r.1 == ClearOldSelections(st).1
  {
    UnselectEventsAgreeOutsideRange(st.cells, st.selectedCells, 0);
    var st' := Update(st, st.selectedCells, Deselect);
    (st'.(selectedCells := [], selectedCals := []), UnselectEvents(st.cells, st.selectedCells, st.mode == RANGE, 0))
  }

  // ---------------------------------------------------------------------------
  // applyMultiSelect

  /** `k` is the first index of a cell of `ps` on day `d`. */
  predicate FirstOn(g: Grid, ps: seq<Pos>, d: Date, k: nat)
    requires forall i | 0 <= i < |ps| :: ValidPos(g, ps[i])
  {
    k < |ps| && At(g, ps[k]).date == d && forall j | 0 <= j < k :: At(g, ps[j]).date != d
  }

  /** `k` is the first index of day `d` in `cals`. */
  predicate FirstIn(cals: seq<Date>, d: Date, k: nat) {
    k < |cals| && cals[k] == d && d !in cals[..k]
  }

  lemma FirstOnIsFound(g: Grid, ps: seq<Pos>, d: Date)
    requires forall i | 0 <= i < |ps| :: ValidPos(g, ps[i])
    ensures forall k: nat | FirstOn(g, ps, d, k) :: FirstCellOn(g, ps, d) == Some(k)
  {
    forall k: nat | FirstOn(g, ps, d, k)
      ensures FirstCellOn(g, ps, d) == Some(k)
    {
      var r := FirstCellOn(g, ps, d);
      assert r.Some?;
    }
  }

  lemma FirstInIsFound(cals: seq<Date>, d: Date)
    ensures forall k: nat | FirstIn(cals, d, k) :: FirstSameDate(cals, d) == Some(k)
  {
    forall k: nat | FirstIn(cals, d, k)
      ensures FirstSameDate(cals, d) == Some(k)
    {
      var r := FirstSameDate(cals, d);
      assert cals[k] in cals;

    }
  }

  /** The cell half of `applyMultiSelect`: the first selected cell on day `d` is deselected and dropped. */
  function DropFirstCellOn(st: Picker, d: Date): (r: (Picker, bool))
    requires WellFormed(st)
    ensures WellFormed(r.0) && Preserves(st.cells, r.0.cells)
    ensures r.0 == st.(cells := r.0.cells, selectedCells := r.0.selectedCells)
    ensures r.1 <==> exists i | 0 <= i < |st.selectedCells| :: At(st.cells, st.selectedCells[i]).date == d
    ensures r.1 ==> |r.0.selectedCells| == |st.selectedCells| - 1
    ensures !r.1 ==> r.0 == st
  {
    match FirstCellOn(st.cells, st.selectedCells, d)
    case None => (st, false)
    case Some(i) =>
      var st' := Update(st, [st.selectedCells[i]], Deselect);
      (st'.(selectedCells := RemoveAt(st.selectedCells, i)), true)
  }

  /**
    When `k` is the first selected index on day `d`, `DropFirstCellOn` drops
    exactly index `k` and deselects that cell, leaving every other cell alone.
  */
  lemma DropFirstCellOnFirst(st: Picker, d: Date, k: nat)
    requires WellFormed(st) && FirstOn(st.cells, st.selectedCells, d, k)
    ensures DropFirstCellOn(st, d).1
    ensures DropFirstCellOn(st, d).0 == Update(st, [st.selectedCells[k]], Deselect)
                                          .(selectedCells := st.selectedCells[..k] + st.selectedCells[k + 1..])
  {
    FirstOnIsFound(st.cells, st.selectedCells, d);
  }

  /** The date half of `applyMultiSelect`: the first selected date on day `d` is dropped. */
  function DropFirstDate(cals: seq<Date>, d: Date): (r: seq<Date>)
    ensures d !in cals ==> r == cals
    ensures d in cals ==> multiset(r) + multiset{d} == multiset(cals)
    ensures forall k: nat | FirstIn(cals, d, k) :: r == cals[..k] + cals[k + 1..]
  {
    FirstInIsFound(cals, d);
    match FirstSameDate(cals, d)
    case None => cals
    case Some(k) => RemoveAt(cals, k)
  }

  /**
    `applyMultiSelect`: if a selected cell holds day `d`, the first such cell
    is deselected and dropped from the list; the first selected date on day
    `d` is dropped too. Returns whether a cell was dropped (the source then
    returns `null`).
  */
  function ApplyMultiSelect(st: Picker, d: Date): (r: (Picker, bool))
    requires WellFormed(st)
    ensures WellFormed(r.0) && Preserves(st.cells, r.0.cells)
    ensures r.0 == st.(cells := r.0.cells, selectedCells := r.0.selectedCells, selectedCals := r.0.selectedCals)
    ensures (r.0.(selectedCals := st.selectedCals), r.1) == DropFirstCellOn(st, d)
    ensures r.0.selectedCals == DropFirstDate(st.selectedCals, d)
  {
    var (st1, removed) := DropFirstCellOn(st, d);
    (st1.(selectedCals := DropFirstDate(st.selectedCals, d)), removed)
  }

  // ---------------------------------------------------------------------------
  // Range fill

  /** A cell the fill loop marks: strictly between the two ends and selectable. */
  predicate StrictlyInside(c: Cell, start: Date, end: Date) {
    Before(start, c.date) && Before(c.date, end) && c.isSelectable
  }

  /**
    The range fill of `doSelectDate`: the first selected cell becomes FIRST,
    the second LAST, and every selectable cell strictly between their days is
    selected, marked MIDDLE and appended to the selected cells.
  */
  function FillRange(st: Picker): (r: Picker)
    requires WellFormed(st) && |st.selectedCells| > 1
    ensures WellFormed(r) && Preserves(st.cells, r.cells)
    ensures r == st.(cells := r.cells, selectedCells := r.selectedCells)
    ensures |st.selectedCells| <= |r.selectedCells| && r.selectedCells[..|st.selectedCells|] == st.selectedCells
    ensures Ascending(r.selectedCells[|st.selectedCells|..])
    ensures forall q :: q in r.selectedCells[|st.selectedCells|..] <==>
      ValidPos(st.cells, q) && StrictlyInside(At(st.cells, q), RangeStart(st), RangeEnd(st))
    ensures forall q | ValidPos(st.cells, q) ::
      At(r.cells, q) ==
        if StrictlyInside(At(st.cells, q), RangeStart(st), RangeEnd(st)) then MarkMiddle(At(st.cells, q))
        else if q == st.selectedCells[1] then MarkLast(At(st.cells, q))
        else if q == st.selectedCells[0] then MarkFirst(At(st.cells, q))
        else At(st.cells, q)
  {
    var a, b := st.selectedCells[0], st.selectedCells[1];
    var start, end := At(st.cells, a).date, At(st.cells, b).date;
    var st1 := Update(st, [a], MarkFirst);
    var st2 := Update(st1, [b], MarkLast);
    PreservesTransitive(st.cells, st1.cells, st2.cells);
    var inside := Matches(st2.cells, c => StrictlyInside(c, start, end));
    var st3 := Update(st2, inside, MarkMiddle);
    PreservesTransitive(st.cells, st2.cells, st3.cells);
    SameShapeValidPos(st.cells, st1.cells);
    SameShapeValidPos(st.cells, st2.cells);
    FillRangeCells(st.cells, st1.cells, st2.cells, st3.cells, a, b, inside, start, end);
    assert (st.selectedCells + inside)[|st.selectedCells|..] == inside;
    AppendWellFormed(st, st3.cells, inside);
    st.(cells := st3.cells, selectedCells := st.selectedCells + inside)
  }

  /** Appending cells of the grid to the selection, over a grid of the same shape, keeps the state well formed. */
  lemma AppendWellFormed(st: Picker, g: Grid, inside: seq<Pos>)
    requires WellFormed(st) && SameShape(st.cells, g)
    requires forall q | q in inside :: ValidPos(st.cells, q)
    ensures WellFormed(st.(cells := g, selectedCells := st.selectedCells + inside))
  {
    SameShapeValidPos(st.cells, g);
    var sc := st.selectedCells + inside;
    forall i | 0 <= i < |sc|
      ensures ValidPos(g, sc[i])
    {
      if i >= |st.selectedCells| {
        assert sc[i] == inside[i - |st.selectedCells|];
      }
    }
  }

  /** The three passes of the fill, cell by cell. */
  lemma FillRangeCells(g: Grid, g1: Grid, g2: Grid, g3: Grid, a: Pos, b: Pos, inside: seq<Pos>, start: Date, end: Date)
    requires Preserves(g, g1) && Preserves(g, g2) && Preserves(g, g3)
    requires ValidPos(g, a) && ValidPos(g, b) && At(g, a).date == start && At(g, b).date == end
    requires forall q | ValidPos(g, q) :: At(g1, q) == if q in [a] then MarkFirst(At(g, q)) else At(g, q)
    requires forall q | ValidPos(g, q) :: At(g2, q) == if q in [b] then MarkLast(At(g1, q)) else At(g1, q)
    requires forall q :: q in inside <==> ValidPos(g2, q) && StrictlyInside(At(g2, q), start, end)
    requires forall q | ValidPos(g, q) :: At(g3, q) == if q in inside then MarkMiddle(At(g2, q)) else At(g2, q)
    ensures forall q :: q in inside <==> ValidPos(g, q) && StrictlyInside(At(g, q), start, end)
    ensures forall q | ValidPos(g, q) ::
      At(g3, q) ==
        if StrictlyInside(At(g, q), start, end) then MarkMiddle(At(g, q))
        else if q == b then MarkLast(At(g, q))
        else if q == a then MarkFirst(At(g, q))
        else At(g, q)
  {
    SameShapeValidPos(g, g2);
    forall q | ValidPos(g, q)
      ensures StrictlyInside(At(g2, q), start, end) <==> StrictlyInside(At(g, q), start, end)
    {
    }
    BeforeIsStrictTotalOrder(start, start, end);
    BeforeIsStrictTotalOrder(end, end, end);
  }

  /** The day of the range's first cell. */
  function RangeStart(st: Picker): Date
    requires WellFormed(st) && |st.selectedCells| > 1
  {
    At(st.cells, st.selectedCells[0]).date
  }

  /** The day of the range's second cell, its end. */
  function RangeEnd(st: Picker): Date
    requires WellFormed(st) && |st.selectedCells| > 1
  {
    At(st.cells, st.selectedCells[1]).date
  }

  // ---------------------------------------------------------------------------
  // doSelectDate

  /** The mode switch of `doSelectDate`: the state after it, the events, and whether the date is still to be selected. */
  function ModeStep(st: Picker, d: Date): (r: (Picker, seq<Event>, bool))
    requires WellFormed(st)
    ensures WellFormed(r.0) && Preserves(st.cells, r.0.cells)
    ensures r.0 == st.(cells := r.0.cells, selectedCells := r.0.selectedCells, selectedCals := r.0.selectedCals)
  {
    match st.mode
    case SINGLE | RANGE_ON_TWO_SCREENS =>
      var (st', events) := ClearOldSelections(st);
      (st', events, true)
    case RANGE =>
      if |st.selectedCals| > 1 || (|st.selectedCals| == 1 && Before(d, st.selectedCals[0])) then
        var (st', events) := ClearOldSelections(st);
        (st', events, true)
      else (st, [], true)
    case MULTIPLE =>
      var (st', removed) := ApplyMultiSelect(st, d);
      (st', [], !removed)
  }

  /** Adds the picked cell (unless it is already the first selected cell) and its date. */
  function AddPicked(st: Picker, p: Pos): (r: Picker)
    requires WellFormed(st) && ValidPos(st.cells, p)
    ensures WellFormed(r) && Preserves(st.cells, r.cells)
    ensures r.selectedCals == st.selectedCals + [At(st.cells, p).date]
    ensures r.selectedCells == if |st.selectedCells| == 0 || st.selectedCells[0] != p then st.selectedCells + [p]
                               else st.selectedCells
    ensures forall q | ValidPos(st.cells, q) ::
      At(r.cells, q) == if q == p && (|st.selectedCells| == 0 || st.selectedCells[0] != p) then SelectCell(At(st.cells, q))
                        else At(st.cells, q)
    ensures r == st.(cells := r.cells, selectedCells := r.selectedCells, selectedCals := r.selectedCals)
  {
    var d := At(st.cells, p).date;
    if |st.selectedCells| == 0 || st.selectedCells[0] != p then
      var st' := Update(st, [p], SelectCell);
      st'.(selectedCells := st.selectedCells + [p], selectedCals := st.selectedCals + [d])
    else st.(selectedCals := st.selectedCals + [d])
  }

  /**
    The peak step of RANGE_ON_TWO_SCREENS: the first selectable cell on the
    peak day goes in front of the selected cells (`LowerPeakDate`) or after
    the first (`HigherPeakDate`), and the range between the first two is
    filled. `None` when the grid has no such cell: the source returns false.
  */
  function PeakStep(st: Picker, peak: PeakDate): (r: Option<Picker>)
    requires WellFormed(st) && |st.selectedCells| > 0
    ensures r.None? <==> FindSelectableCell(st.cells, peak.peak).None?
    ensures r.Some? ==> WellFormed(r.value) && Preserves(st.cells, r.value.cells)
    ensures r.Some? ==> r.value == st.(cells := r.value.cells, selectedCells := r.value.selectedCells)
  {
    match FindSelectableCell(st.cells, peak.peak)
    case None => None
    case Some(q) =>
      var sc := match peak
        case LowerPeakDate(_) => [q] + st.selectedCells
        case HigherPeakDate(_) => [st.selectedCells[0], q] + st.selectedCells[1..];
      Some(FillRange(st.(selectedCells := sc)))
  }

  /**
    The second half of `doSelectDate`, once the mode switch kept the date:
    adds the picked cell and its date, then fills the range (RANGE with two
    cells, or RANGE_ON_TWO_SCREENS with a peak date). Returns false when the
    peak date has no selectable cell, after the cell was added.
  */
  function AddAndFill(st: Picker, p: Pos): (r: (Picker, bool))
    requires WellFormed(st) && ValidPos(st.cells, p)
    ensures WellFormed(r.0) && Preserves(st.cells, r.0.cells)
    ensures r.0 == st.(cells := r.0.cells, selectedCells := r.0.selectedCells, selectedCals := r.0.selectedCals)
  {
    var st2 := AddPicked(st, p);
    if st.mode == RANGE && |st2.selectedCells| > 1 then
      var st3 := FillRange(st2);
      PreservesTransitive(st.cells, st2.cells, st3.cells);
      (st3, true)
    else if st.mode == RANGE_ON_TWO_SCREENS && st.peakDate.Some? then
      match PeakStep(st2, st.peakDate.value)
      case None => (st2, false)
      case Some(st3) =>
        PreservesTransitive(st.cells, st2.cells, st3.cells);
        (st3, true)
    else (st2, true)
  }

  /**
    `doSelectDate` for the cell at `p`, with that cell's day as the date
    argument (dates here are whole days, so a caller's date with a time of
    day is not modelled): clears the range states of the selected cells,
    applies the mode switch, then adds the cell and fills a range.
  */
  function DoSelectDate(st: Picker, p: Pos): (r: Outcome)
    requires WellFormed(st) && ValidPos(st.cells, p)
    ensures WellFormed(r.picker) && Preserves(st.cells, r.picker.cells)
    ensures r.picker == st.(cells := r.picker.cells, selectedCells := r.picker.selectedCells,
                            selectedCals := r.picker.selectedCals)
  {
    var d := At(st.cells, p).date;
    var st0 := Update(st, st.selectedCells, ClearRange);
    var (st1, events, keep) := ModeStep(st0, d);
    PreservesTransitive(st.cells, st0.cells, st1.cells);
    SameShapeValidPos(st.cells, st1.cells);
    if !keep then Outcome(st1, false, events)
    else
      var (st2, ok) := AddAndFill(st1, p);
      PreservesTransitive(st.cells, st1.cells, st2.cells);
      Outcome(st2, ok, events)
  }

  // ---------------------------------------------------------------------------
  // Entry points

  /**
    `validateDate`: a null date is refused; unless validation is switched
    off, so is a date before `minDate` or not before `maxDate`.
  */
  function ValidateDate(st: Picker, date: Option<Date>): (r: Result<Date, Error>)
    ensures date.None? ==> r == Failure(NullDate)
    ensures date.Some? && st.ignoreValidatingDates ==> r == Success(date.value)
    ensures date.Some? && !st.ignoreValidatingDates ==>
      r == if Between(date.value, st.minCal, st.maxCal) then Success(date.value) else Failure(DateOutOfRange)
  {
    if date.None? then Failure(NullDate)
    else if st.ignoreValidatingDates then Success(date.value)
    else if Before(date.value, st.minCal) || !Before(date.value, st.maxCal) then Failure(DateOutOfRange)
    else Success(date.value)
  }

  /**
    `selectDate`: validates the date, looks up the first selectable cell on
    that day and selects it. Refused (false, nothing changed) when there is
    no such cell or the filter rejects the date.
  */
  function SelectDate(st: Picker, date: Option<Date>, isDateSelectable: Date -> bool): (r: Result<Outcome, Error>)
    requires WellFormed(st)
    ensures r.Failure? <==> ValidateDate(st, date).Failure?
    ensures r.Failure? ==> r.error == ValidateDate(st, date).error
    ensures r.Success? ==> WellFormed(r.value.picker) && Preserves(st.cells, r.value.picker.cells)
    ensures r.Success? ==> r.value.picker == st.(cells := r.value.picker.cells, selectedCells := r.value.picker.selectedCells,
                                                 selectedCals := r.value.picker.selectedCals)
    ensures r.Success? && (FindSelectableCell(st.cells, date.value).None? || !isDateSelectable(date.value)) ==>
      r.value == Outcome(st, false, [])
    ensures r.Success? && FindSelectableCell(st.cells, date.value).Some? && isDateSelectable(date.value) ==>
      r.value == DoSelectDate(st, FindSelectableCell(st.cells, date.value).value)
  {
    var d :- ValidateDate(st, date);
    match FindSelectableCell(st.cells, d)
    case None => Success(Outcome(st, false, []))
    case Some(p) =>
      if !isDateSelectable(d) then Success(Outcome(st, false, []))
      else Success(DoSelectDate(st, p))
  }

  /**
    `CellClickedListener.handleClick` on the cell at `p`: an intercepted click
    changes nothing; a day outside [minDate, maxDate) or rejected by the filter
    is reported invalid; otherwise the cell's day is selected and reported
    selected or unselected.
  */
  function HandleClick(st: Picker, p: Pos, intercept: Date -> bool, isDateSelectable: Date -> bool): (r: (Picker, seq<Event>))
    requires WellFormed(st) && ValidPos(st.cells, p)
    ensures WellFormed(r.0) && Preserves(st.cells, r.0.cells)
    ensures intercept(At(st.cells, p).date) ==> r == (st, [])
    ensures (!intercept(At(st.cells, p).date) &&
             !(Between(At(st.cells, p).date, st.minCal, st.maxCal) && isDateSelectable(At(st.cells, p).date))) ==>
      r == (st, [InvalidDateSelected(At(st.cells, p).date)])
    ensures (!intercept(At(st.cells, p).date) &&
             Between(At(st.cells, p).date, st.minCal, st.maxCal) && isDateSelectable(At(st.cells, p).date)) ==>
      var o := DoSelectDate(st, p);
      r == (o.picker, o.events + [if o.accepted then DateSelected(At(st.cells, p).date) else DateUnselected(At(st.cells, p).date)])
  {
    var d := At(st.cells, p).date;
    if intercept(d) then (st, [])
    else if !Between(d, st.minCal, st.maxCal) || !isDateSelectable(d) then (st, [InvalidDateSelected(d)])
    else
      var o := DoSelectDate(st, p);
      (o.picker, o.events + [if o.accepted then DateSelected(d) else DateUnselected(d)])
  }

  /** `h` differs from `g` at most in highlight flags. */
  ghost predicate SelectionKept(g: Grid, h: Grid) {
    && SameShape(g, h)
    && forall p | ValidPos(g, p) ::
      SameFixedFields(At(g, p), At(h, p)) && At(h, p).isSelected == At(g, p).isSelected
      && At(h, p).rangeState == At(g, p).rangeState
  }

  lemma SelectionKeptTransitive(g: Grid, h: Grid, k: Grid)
    requires SelectionKept(g, h) && SelectionKept(h, k)
    ensures SelectionKept(g, k)
  {
    SameShapeValidPos(g, h);
  }

  /** Validation reads only the bounds and the validation switch. */
  lemma ValidateDateSameBounds(st: Picker, st': Picker, dates: seq<Option<Date>>)
    requires st'.minCal == st.minCal && st'.maxCal == st.maxCal
    requires st'.ignoreValidatingDates == st.ignoreValidatingDates
    ensures forall i | 0 <= i < |dates| :: ValidateDate(st', dates[i]) == ValidateDate(st, dates[i])
  {
  }

  /**
    `r` tracks `st`'s highlighted cells followed by new ones; every new one is
    highlighted, and no other cell changed.
  */
  ghost predicate HighlightsAppended(st: Picker, r: Picker) {
    && SameShape(st.cells, r.cells)
    && |st.highlightedCells| <= |r.highlightedCells|
    && r.highlightedCells[..|st.highlightedCells|] == st.highlightedCells
    && (forall i | |st.highlightedCells| <= i < |r.highlightedCells| ::
          ValidPos(r.cells, r.highlightedCells[i]) && At(r.cells, r.highlightedCells[i]).isHighlighted)
    && forall q | ValidPos(st.cells, q) && q !in r.highlightedCells[|st.highlightedCells|..] ::
         At(r.cells, q) == At(st.cells, q)
  }

  lemma HighlightsAppendedTransitive(a: Picker, b: Picker, c: Picker)
    requires WellFormed(b) && SameShape(a.cells, b.cells)
    requires HighlightsAppended(a, b) && HighlightsAppended(b, c)
    ensures HighlightsAppended(a, c)
  {
    var na, nb := |a.highlightedCells|, |b.highlightedCells|;
    var hc := c.highlightedCells;
    assert hc[..na] == hc[..nb][..na];
    assert hc[na..] == b.highlightedCells[na..] + hc[nb..] by {
      assert hc[na..] == hc[..nb][na..] + hc[nb..];
    }
    SameShapeValidPos(a.cells, b.cells);
    SameShapeValidPos(b.cells, c.cells);
    forall i | na <= i < |hc|
      ensures ValidPos(c.cells, hc[i]) && At(c.cells, hc[i]).isHighlighted
    {
      if i < nb {
        assert hc[i] == b.highlightedCells[i];
        if hc[i] !in hc[nb..] {
          assert At(c.cells, hc[i]) == At(b.cells, hc[i]);
        }
      } else {
        assert hc[i] == hc[nb..][i - nb];
      }
    }
  }

  /** Highlights the cell at `q` and records it and its day `d`. */
  function HighlightAt(st: Picker, q: Pos, d: Date): (r: Picker)
    requires WellFormed(st) && ValidPos(st.cells, q)
    ensures WellFormed(r) && SelectionKept(st.cells, r.cells)
    ensures r == st.(cells := r.cells, highlightedCells := r.highlightedCells, highlightedCals := r.highlightedCals)
    ensures r.highlightedCells == st.highlightedCells + [q]
    ensures r.highlightedCals == st.highlightedCals + [d]
    ensures At(r.cells, q) == HighlightCell(At(st.cells, q))
    ensures forall p | ValidPos(st.cells, p) && p != q :: At(r.cells, p) == At(st.cells, p)
    ensures HighlightsAppended(st, r)
  {
    var st' := Update(st, [q], HighlightCell);
    var hc := st.highlightedCells + [q];
    assert hc[..|st.highlightedCells|] == st.highlightedCells && hc[|st.highlightedCells|..] == [q];
    SameShapeValidPos(st.cells, st'.cells);
    st'.(highlightedCells := hc, highlightedCals := st.highlightedCals + [d])
  }

  /** Highlights the first selectable cell on day `d`, if there is one, and records it and `d`. */
  function HighlightOne(st: Picker, d: Date): (r: Picker)
    requires WellFormed(st)
    ensures WellFormed(r)
    ensures r == st.(cells := r.cells, highlightedCells := r.highlightedCells, highlightedCals := r.highlightedCals)
    ensures FindSelectableCell(st.cells, d).None? ==> r == st
    ensures FindSelectableCell(st.cells, d).Some? ==> r == HighlightAt(st, FindSelectableCell(st.cells, d).value, d)
  {
    match FindSelectableCell(st.cells, d)
    case None => st
    case Some(q) => HighlightAt(st, q, d)
  }

  /**
    `highlightDates`: validates and highlights each date in turn; an invalid
    date throws, keeping the highlights made before it.
  */
  function HighlightDates(st: Picker, dates: seq<Option<Date>>): (r: Run)
    requires WellFormed(st)
    ensures WellFormed(r.picker)
    ensures r.picker == st.(cells := r.picker.cells, highlightedCells := r.picker.highlightedCells,
                            highlightedCals := r.picker.highlightedCals)
    ensures r.events == []
    ensures r.error.None? <==> forall i | 0 <= i < |dates| :: ValidateDate(st, dates[i]).Success?
    decreases |dates|
  {
    if |dates| == 0 then Run(st, [], None)
    else
      match ValidateDate(st, dates[0])
      case Failure(e) => Run(st, [], Some(e))
      case Success(d) =>
        var st' := HighlightOne(st, d);
        var r := HighlightDates(st', dates[1..]);
        ValidateDateSameBounds(st, st', dates[1..]);
        AllValidSplit(st, dates);
        r
  }

  /** Highlighting one day highlights at most one cell, appended to the tracked ones; the selection is kept. */
  lemma HighlightOneAppends(st: Picker, d: Date)
    requires WellFormed(st)
    ensures SelectionKept(st.cells, HighlightOne(st, d).cells)
    ensures HighlightsAppended(st, HighlightOne(st, d))
  {
    if FindSelectableCell(st.cells, d).None? {
      NothingHighlighted(st);
    }
  }

  /** A state keeps its own selection and appends no highlight to itself. */
  lemma NothingHighlighted(st: Picker)
    ensures SelectionKept(st.cells, st.cells) && HighlightsAppended(st, st)
  {
    SameShapeValidPos(st.cells, st.cells);
    assert st.highlightedCells[..|st.highlightedCells|] == st.highlightedCells;
  }

  /**
    `highlightDates` only highlights: the selection is kept, the tracked
    highlights grow by cells that are highlighted, and no other cell changes,
    also when a date throws part way.
  */
  lemma {:induction false} HighlightDatesAppends(st: Picker, dates: seq<Option<Date>>)
    requires WellFormed(st)
    ensures SelectionKept(st.cells, HighlightDates(st, dates).picker.cells)
    ensures HighlightsAppended(st, HighlightDates(st, dates).picker)
    decreases |dates|
  {
    var r := HighlightDates(st, dates);
    if |dates| == 0 || ValidateDate(st, dates[0]).Failure? {
      assert r.picker == st;
      SameShapeValidPos(st.cells, st.cells);
      assert st.highlightedCells[..|st.highlightedCells|] == st.highlightedCells;
    } else {
      var st' := HighlightOne(st, ValidateDate(st, dates[0]).value);
      HighlightOneAppends(st, ValidateDate(st, dates[0]).value);
      HighlightDatesAppends(st', dates[1..]);
      assert r == HighlightDates(st', dates[1..]);
      SelectionKeptTransitive(st.cells, st'.cells, r.picker.cells);
      HighlightsAppendedTransitive(st, st', r.picker);
    }
  }

  /** `clearHighlightedDates`: unhighlights every tracked cell and empties both highlight lists. */
  function ClearHighlightedDates(st: Picker): (r: Picker)
    requires WellFormed(st)
    ensures WellFormed(r) && SelectionKept(st.cells, r.cells)
    ensures r.highlightedCells == [] && r.highlightedCals == []
    ensures forall p | ValidPos(st.cells, p) ::
      At(r.cells, p) == if p in st.highlightedCells then Unhighlight(At(st.cells, p)) else At(st.cells, p)
    ensures r == st.(cells := r.cells, highlightedCells := [], highlightedCals := [])
  {
    var st' := Update(st, st.highlightedCells, Unhighlight);
    st'.(highlightedCells := [], highlightedCals := [])
  }

  /** Selects each date in turn; an invalid date throws, keeping the selections made before it. */
  function SelectAll(st: Picker, dates: seq<Option<Date>>, isDateSelectable: Date -> bool): (r: Run)
    requires WellFormed(st)
    ensures WellFormed(r.picker) && Preserves(st.cells, r.picker.cells)
    ensures r.picker == st.(cells := r.picker.cells, selectedCells := r.picker.selectedCells,
                            selectedCals := r.picker.selectedCals)
    decreases |dates|
  {
    if |dates| == 0 then Run(st, [], None)
    else
      match SelectDate(st, dates[0], isDateSelectable)
      case Failure(e) => Run(st, [], Some(e))
      case Success(o) =>
        var r := SelectAll(o.picker, dates[1..], isDateSelectable);
        PreservesTransitive(st.cells, o.picker.cells, r.picker.cells);
        Run(r.picker, o.events + r.events, r.error)
  }

  /** Selecting the dates in turn stops with an exception exactly when one of them is invalid. */
  lemma {:induction false} SelectAllError(st: Picker, dates: seq<Option<Date>>, isDateSelectable: Date -> bool)
    requires WellFormed(st)
    ensures SelectAll(st, dates, isDateSelectable).error.None? <==>
      forall i | 0 <= i < |dates| :: ValidateDate(st, dates[i]).Success?
    decreases |dates|
  {
    if |dates| > 0 && SelectDate(st, dates[0], isDateSelectable).Success? {
      var o := SelectDate(st, dates[0], isDateSelectable).value;
      SelectAllError(o.picker, dates[1..], isDateSelectable);
      ValidateDateSameBounds(st, o.picker, dates[1..]);
      AllValidSplit(st, dates);
    }
  }

  /** Every date validates exactly when the first does and every later one does. */
  lemma AllValidSplit(st: Picker, dates: seq<Option<Date>>)
    requires |dates| > 0
    ensures (forall i | 0 <= i < |dates| :: ValidateDate(st, dates[i]).Success?) <==>
      ValidateDate(st, dates[0]).Success? && forall i | 0 <= i < |dates[1..]| :: ValidateDate(st, dates[1..][i]).Success?
  {
    assert forall i | 1 <= i < |dates| :: dates[i] == dates[1..][i - 1];
  }

  /**
    `withSelectedDates`: several dates are refused in SINGLE mode and more
    than two in RANGE mode, before anything changes; otherwise each is
    selected in turn.
  */
  function WithSelectedDates(st: Picker, dates: seq<Option<Date>>, isDateSelectable: Date -> bool): (r: Run)
    requires WellFormed(st)
    ensures WellFormed(r.picker) && Preserves(st.cells, r.picker.cells)
    ensures st.mode == SINGLE && |dates| > 1 ==> r == Run(st, [], Some(SingleModeMany))
    ensures st.mode == RANGE && |dates| > 2 ==> r == Run(st, [], Some(RangeModeMany))
    ensures !(st.mode == SINGLE && |dates| > 1) && !(st.mode == RANGE && |dates| > 2) ==>
      (r.error.None? <==> forall i | 0 <= i < |dates| :: ValidateDate(st, dates[i]).Success?)
  {
    if st.mode == SINGLE && |dates| > 1 then Run(st, [], Some(SingleModeMany))
    else if st.mode == RANGE && |dates| > 2 then Run(st, [], Some(RangeModeMany))
    else
      SelectAllError(st, dates, isDateSelectable);
      SelectAll(st, dates, isDateSelectable)
  }

  /** The days of the cells at `ps`, in order. */
  function CellDates(g: Grid, ps: seq<Pos>): (r: seq<Date>)
    requires forall i | 0 <= i < |ps| :: ValidPos(g, ps[i])
    ensures |r| == |ps| && forall i | 0 <= i < |ps| :: r[i] == At(g, ps[i]).date
  {
    seq(|ps|, i requires 0 <= i < |ps| => At(g, ps[i]).date)
  }

  /** `getSelectedDates`: the days of the selected cells, in chronological order. */
  function GetSelectedDates(st: Picker): (r: seq<Date>)
    requires WellFormed(st)
    ensures Sorting.Sorted(r)
    ensures multiset(r) == multiset(CellDates(st.cells, st.selectedCells))
  {
    Sorting.SortDates(CellDates(st.cells, st.selectedCells))
  }

  /** `getSelectedDate`: the first selected date, `None` (null) when there is none. */
  function GetSelectedDate(st: Picker): (r: Option<Date>)
    ensures r.None? <==> st.selectedCals == []
    ensures r.Some? ==> r.value == st.selectedCals[0]
  {
    if |st.selectedCals| > 0 then Some(st.selectedCals[0]) else None
  }

  /** `inMode`: only the mode changes; nothing selected is cleared. */
  function InMode(st: Picker, mode: SelectionMode): (r: Picker)
    ensures r.mode == mode && r == st.(mode := mode)
  {
    st.(mode := mode)
  }

  // ---------------------------------------------------------------------------
  // init

  /**
    `init`: refuses null bounds, a minimum after the maximum and a null
    locale, in that order. Otherwise resets the selection state and builds one
    month (with its cells) for each month from `minDate`'s through the month of
    the day before `maxDate`, which is exclusive. `today` (the clock), the
    filter and the month-name format are parameters.
  */
  function Init(minDate: Option<Date>, maxDate: Option<Date>, firstDayOfWeek: Option<Weekday>, today: Date,
                isDateSelectable: Date -> bool, format: Date -> string): (r: Result<Picker, Error>)
    requires minDate.Some? ==> Valid(minDate.value)
    requires maxDate.Some? ==> Valid(maxDate.value)
    ensures (minDate.None? || maxDate.None?) ==> r == Failure(NullBounds)
    ensures minDate.Some? && maxDate.Some? && Before(maxDate.value, minDate.value) ==> r == Failure(MinAfterMax)
    ensures minDate.Some? && maxDate.Some? && !Before(maxDate.value, minDate.value) && firstDayOfWeek.None? ==>
      r == Failure(NullLocale)
    ensures r.Success? ==>
      && minDate.Some? && maxDate.Some? && firstDayOfWeek.Some?
      && WellFormed(r.value) && |r.value.months| == |r.value.cells|
      && r.value.selectedCells == [] && r.value.selectedCals == []
      && r.value.highlightedCells == [] && r.value.highlightedCals == []
      && r.value.mode == SINGLE && r.value.peakDate == None && !r.value.ignoreValidatingDates
      && r.value.minCal == minDate.value && r.value.maxCal == maxDate.value
      && r.value.firstDayOfWeek == firstDayOfWeek.value && r.value.today == today
  {
    if minDate.None? || maxDate.None? then Failure(NullBounds)
    else if Before(maxDate.value, minDate.value) then Failure(MinAfterMax)
    else if firstDayOfWeek.None? then Failure(NullLocale)
    else
      var minCal, maxCal := minDate.value, maxDate.value;
      var last := Prev(maxCal);
      var env := BuildEnv(minCal, maxCal, today, firstDayOfWeek.value, isDateSelectable);
      var (months, cells, _) := BuildMonths(minCal, last.month, last.year, env, format, [], []);
      Success(Picker(months, cells, [], [], [], [], minCal, maxCal, today, firstDayOfWeek.value,
                     SINGLE, None, false))
  }
}
