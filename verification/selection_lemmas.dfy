/**
  What one click does in each selection mode, stated against the state before
  it: which cells end up selected and in what order, which dates are recorded,
  which range states the cells carry and which unselect events are reported.
*/
module SelectionFacts {
  import opened Wrappers
  import opened Dates
  import opened MonthCells
  import opened Grid
  import opened Picker

  // ---------------------------------------------------------------------------
  // Lists of positions and their events

  predicate Distinct(ps: seq<Pos>) {
    forall i, j | 0 <= i < j < |ps| :: ps[i] != ps[j]
  }

  /** One unselect event per date, in order. */
  function Unselected(ds: seq<Date>): (r: seq<Event>)
    ensures |r| == |ds| && forall i | 0 <= i < |ds| :: r[i] == DateUnselected(ds[i])
  {
    seq(|ds|, i requires 0 <= i < |ds| => DateUnselected(ds[i]))
  }

  lemma IndexOfDistinct(ps: seq<Pos>, j: nat)
    requires Distinct(ps) && j < |ps|
    ensures IndexOf(ps, ps[j]) == j
  {
  }

  lemma AscendingDistinct(ps: seq<Pos>)
    requires Ascending(ps)
    ensures Distinct(ps)
  {
    forall i, j | 0 <= i < j < |ps|
      ensures ps[i] != ps[j]
    {
      assert PosBefore(ps[i], ps[j]);
    }
  }

  /** Outside RANGE mode clearing reports every selected cell's day, in list order. */
  lemma {:induction false} UnselectEventsReportAll(g: Grid, sc: seq<Pos>, j: nat)
    requires forall i | 0 <= i < |sc| :: ValidPos(g, sc[i])
    requires j <= |sc|
    ensures UnselectEventsAsWritten(g, sc, false, j) == Unselected(CellDates(g, sc)[j..])
    decreases |sc| - j
  {
    if j < |sc| {
      UnselectEventsReportAll(g, sc, j + 1);
      assert CellDates(g, sc)[j..] == [CellDates(g, sc)[j]] + CellDates(g, sc)[j + 1..];
    }
  }

  /** Clearing reads only the days of the cells, which the setters never change. */
  lemma {:induction false} UnselectEventsSameDates(g: Grid, h: Grid, sc: seq<Pos>, rangeMode: bool, j: nat)
    requires forall i | 0 <= i < |sc| :: ValidPos(g, sc[i]) && ValidPos(h, sc[i])
    requires forall i | 0 <= i < |sc| :: At(h, sc[i]).date == At(g, sc[i]).date
    requires j <= |sc|
    ensures UnselectEventsAsWritten(h, sc, rangeMode, j) == UnselectEventsAsWritten(g, sc, rangeMode, j)
    decreases |sc| - j
  {
    if j < |sc| {
      UnselectEventsSameDates(g, h, sc, rangeMode, j + 1);
      var here := if !rangeMode || IsFirstOrLast(IndexOf(sc, sc[j]), |sc|) then [DateUnselected(At(g, sc[j]).date)] else [];
      assert UnselectEventsAsWritten(g, sc, rangeMode, j) == here + UnselectEventsAsWritten(g, sc, rangeMode, j + 1);
      assert UnselectEventsAsWritten(h, sc, rangeMode, j) == here + UnselectEventsAsWritten(h, sc, rangeMode, j + 1);
    }
  }

  /** The same, for a grid that only went through the setters. */
  lemma UnselectEventsPreserved(g: Grid, h: Grid, sc: seq<Pos>, rangeMode: bool)
    requires Preserves(g, h)
    requires forall i | 0 <= i < |sc| :: ValidPos(g, sc[i])
    ensures forall i | 0 <= i < |sc| :: ValidPos(h, sc[i])
    ensures UnselectEventsAsWritten(h, sc, rangeMode, 0) == UnselectEventsAsWritten(g, sc, rangeMode, 0)
  {
    SameShapeValidPos(g, h);
    UnselectEventsSameDates(g, h, sc, rangeMode, 0);
  }

  lemma {:induction false} UnselectEventsPastEnds(g: Grid, sc: seq<Pos>, j: nat)
    requires forall i | 0 <= i < |sc| :: ValidPos(g, sc[i])
    requires Distinct(sc) && 2 <= j <= |sc|
    ensures UnselectEvents(g, sc, true, j) == []
    decreases |sc| - j
  {
    if j < |sc| {
      UnselectEventsPastEnds(g, sc, j + 1);
      IndexOfDistinct(sc, j);
    }
  }

  /** In RANGE mode, over distinct cells, the intended rule reports the first two: the range's start and end. */
  lemma UnselectEventsRangeEnds(g: Grid, sc: seq<Pos>)
    requires forall i | 0 <= i < |sc| :: ValidPos(g, sc[i])
    requires Distinct(sc) && |sc| >= 2
    ensures UnselectEvents(g, sc, true, 0) == [DateUnselected(At(g, sc[0]).date), DateUnselected(At(g, sc[1]).date)]
  {
    UnselectEventsPastEnds(g, sc, 2);
    IndexOfDistinct(sc, 0);
    IndexOfDistinct(sc, 1);
  }

  lemma {:induction false} UnselectEventsAsWrittenTail(g: Grid, sc: seq<Pos>, j: nat)
    requires forall i | 0 <= i < |sc| :: ValidPos(g, sc[i])
    requires Distinct(sc) && 1 <= j < |sc|
    ensures UnselectEventsAsWritten(g, sc, true, j) == [DateUnselected(At(g, sc[|sc| - 1]).date)]
    decreases |sc| - j
  {
    IndexOfDistinct(sc, j);
    if j < |sc| - 1 {
      UnselectEventsAsWrittenTail(g, sc, j + 1);
    }
  }

  /** As written, clearing in RANGE mode reports the first cell and the last one of the list. */
  lemma UnselectEventsAsWrittenEnds(g: Grid, sc: seq<Pos>)
    requires forall i | 0 <= i < |sc| :: ValidPos(g, sc[i])
    requires Distinct(sc) && |sc| >= 2
    ensures UnselectEventsAsWritten(g, sc, true, 0) ==
      [DateUnselected(At(g, sc[0]).date), DateUnselected(At(g, sc[|sc| - 1]).date)]
  {
    UnselectEventsAsWrittenTail(g, sc, 1);
    IndexOfDistinct(sc, 0);
  }

  // ---------------------------------------------------------------------------
  // The steps of doSelectDate

  /** `doSelectDate` step by step: reset the range states, run the mode switch, then add unless the switch dropped the day. */
  lemma DoSelectDateSteps(st: Picker, p: Pos)
    requires WellFormed(st) && ValidPos(st.cells, p)
    ensures var m := ModeStep(Update(st, st.selectedCells, ClearRange), At(st.cells, p).date);
      && ValidPos(m.0.cells, p)
      && DoSelectDate(st, p) ==
           if m.2 then Outcome(AddAndFill(m.0, p).0, AddAndFill(m.0, p).1, m.1) else Outcome(m.0, false, m.1)
  {
    var st0 := Update(st, st.selectedCells, ClearRange);
    var m := ModeStep(st0, At(st.cells, p).date);
    PreservesTransitive(st.cells, st0.cells, m.0.cells);
    SameShapeValidPos(st.cells, m.0.cells);
  }

  /** The mode switch clears the old selection: SINGLE, RANGE_ON_TWO_SCREENS, or RANGE unless the click completes a range. */
  predicate Clears(st: Picker, d: Date) {
    || st.mode == SINGLE || st.mode == RANGE_ON_TWO_SCREENS
    || (st.mode == RANGE && (|st.selectedCals| > 1 || (|st.selectedCals| == 1 && Before(d, st.selectedCals[0]))))
  }

  /** `doSelectDate` in a mode whose switch clears: clearing, then adding and filling. */
  lemma ClearingSelect(st: Picker, p: Pos)
    requires WellFormed(st) && ValidPos(st.cells, p) && Clears(st, At(st.cells, p).date)
    ensures var c := ClearOldSelections(Update(st, st.selectedCells, ClearRange));
      && ValidPos(c.0.cells, p)
      && DoSelectDate(st, p) == Outcome(AddAndFill(c.0, p).0, AddAndFill(c.0, p).1, c.1)
  {
    var st0 := Update(st, st.selectedCells, ClearRange);
    DoSelectDateSteps(st, p);
    var c := ClearOldSelections(st0);
    assert ModeStep(st0, At(st.cells, p).date) == (c.0, c.1, true);
  }

  /** Adding without a fill: every mode but a RANGE with a cell already selected, or RANGE_ON_TWO_SCREENS with a peak. */
  lemma AddWithoutFill(st1: Picker, p: Pos)
    requires WellFormed(st1) && ValidPos(st1.cells, p)
    requires st1.mode == RANGE ==> st1.selectedCells == []
    requires st1.mode == RANGE_ON_TWO_SCREENS ==> st1.peakDate.None?
    ensures AddAndFill(st1, p) == (AddPicked(st1, p), true)
  {
  }

  /**
    When the mode switch clears, the events of the click are the unselect
    events of the selection before it: resetting the range states first does
    not change any day.
  */
  lemma ClearingEvents(st: Picker, p: Pos)
    requires WellFormed(st) && ValidPos(st.cells, p) && Clears(st, At(st.cells, p).date)
    ensures DoSelectDate(st, p).events == UnselectEventsAsWritten(st.cells, st.selectedCells, st.mode == RANGE, 0)
  {
    var st0 := Update(st, st.selectedCells, ClearRange);
    ClearingSelect(st, p);
    UnselectEventsPreserved(st.cells, st0.cells, st.selectedCells, st.mode == RANGE);
  }

  /**
    A restart: the cells selected before are deselected with their range
    states reset, the picked cell `p` is the only one selected, its day the
    only selected date.
  */
  ghost predicate Restarted(st: Picker, p: Pos, r: Picker)
    requires WellFormed(st) && ValidPos(st.cells, p)
  {
    && WellFormed(r) && Preserves(st.cells, r.cells)
    && r.selectedCells == [p] && r.selectedCals == [At(st.cells, p).date]
    && r.mode == st.mode && r.peakDate == st.peakDate
    && (forall q | ValidPos(st.cells, q) ::
          At(r.cells, q).isSelected == (q == p || (q !in st.selectedCells && At(st.cells, q).isSelected)))
    && forall q | ValidPos(st.cells, q) ::
         At(r.cells, q).rangeState == if q in st.selectedCells then NONE else At(st.cells, q).rangeState
  }

  /** Clearing the old selection, then adding the picked cell, is a restart. */
  lemma ClearThenAdd(st: Picker, p: Pos) returns (st2: Picker)
    requires WellFormed(st) && ValidPos(st.cells, p)
    ensures st2 == AddPicked(ClearOldSelections(Update(st, st.selectedCells, ClearRange)).0, p)
    ensures Restarted(st, p, st2)
  {
    var st1 := ClearedAll(st);
    AddToCleared(st, st1, p);
    st2 := AddPicked(st1, p);
  }

  /** `st1` is `st` with every selected cell deselected and its range state reset, and nothing selected. */
  ghost predicate Cleared(st: Picker, st1: Picker) {
    && WellFormed(st1) && Preserves(st.cells, st1.cells)
    && st1 == st.(cells := st1.cells, selectedCells := [], selectedCals := [])
    && forall q | ValidPos(st.cells, q) ::
         At(st1.cells, q) == if q in st.selectedCells then Deselect(ClearRange(At(st.cells, q))) else At(st.cells, q)
  }

  /** Resetting the range states, then clearing. */
  lemma ClearedAll(st: Picker) returns (st1: Picker)
    requires WellFormed(st)
    ensures st1 == ClearOldSelections(Update(st, st.selectedCells, ClearRange)).0
    ensures Cleared(st, st1)
  {
    var st0 := Update(st, st.selectedCells, ClearRange);
    SameShapeValidPos(st.cells, st0.cells);
    st1 := ClearOldSelections(st0).0;
    PreservesTransitive(st.cells, st0.cells, st1.cells);
  }

  /** Adding the picked cell to a cleared state is a restart. */
  lemma AddToCleared(st: Picker, st1: Picker, p: Pos)
    requires WellFormed(st) && ValidPos(st.cells, p) && Cleared(st, st1)
    ensures ValidPos(st1.cells, p) && Restarted(st, p, AddPicked(st1, p))
  {
    SameShapeValidPos(st.cells, st1.cells);
    var st2 := AddPicked(st1, p);
    PreservesTransitive(st.cells, st1.cells, st2.cells);
    forall q | ValidPos(st.cells, q)
      ensures At(st2.cells, q).isSelected == (q == p || (q !in st.selectedCells && At(st.cells, q).isSelected))
      ensures At(st2.cells, q).rangeState == if q in st.selectedCells then NONE else At(st.cells, q).rangeState
    {
      assert At(st2.cells, q) == if q == p then SelectCell(At(st1.cells, q)) else At(st1.cells, q);
    }
  }



  /**
    An addition: the picked cell `p` is appended to the selected cells and
    selected, its day appended to the selected dates; no other cell's
    selection changes, and only the cells selected before lose their range states.
  */
  ghost predicate Appended(st: Picker, p: Pos, r: Picker)
    requires WellFormed(st) && ValidPos(st.cells, p)
  {
    && WellFormed(r) && Preserves(st.cells, r.cells)
    && r.selectedCells == st.selectedCells + [p] && r.selectedCals == st.selectedCals + [At(st.cells, p).date]
    && r.mode == st.mode && r.peakDate == st.peakDate
    && (forall q | ValidPos(st.cells, q) :: At(r.cells, q).isSelected == (q == p || At(st.cells, q).isSelected))
    && forall q | ValidPos(st.cells, q) && q !in st.selectedCells :: At(r.cells, q).rangeState == At(st.cells, q).rangeState
  }

  /** Resetting the range states, then adding a cell that is not the first selected one, is an addition. */
  lemma ClearRangeThenAdd(st: Picker, p: Pos) returns (st2: Picker)
    requires WellFormed(st) && ValidPos(st.cells, p)
    requires |st.selectedCells| == 0 || st.selectedCells[0] != p
    ensures st2 == AddPicked(Update(st, st.selectedCells, ClearRange), p)
    ensures Appended(st, p, st2)
  {
    var st0 := Update(st, st.selectedCells, ClearRange);
    SameShapeValidPos(st.cells, st0.cells);
    st2 := AddPicked(st0, p);
    PreservesTransitive(st.cells, st0.cells, st2.cells);
  }

  // ---------------------------------------------------------------------------
  // SINGLE

  /**
    In SINGLE mode a click replaces the selection: the picked cell is the only
    selected cell, its day the only selected date, every cell selected before
    is deselected and reported unselected, in list order.
  */
  lemma SingleModeReplaces(st: Picker, p: Pos)
    requires WellFormed(st) && ValidPos(st.cells, p) && st.mode == SINGLE
    ensures DoSelectDate(st, p).accepted
    ensures Restarted(st, p, DoSelectDate(st, p).picker)
  {
    ClearingSelect(st, p);
    var st1 := ClearOldSelections(Update(st, st.selectedCells, ClearRange)).0;
    AddWithoutFill(st1, p);
    var _ := ClearThenAdd(st, p);
  }

  /** In SINGLE mode a click reports every cell selected before it unselected, in list order. */
  lemma SingleModeEvents(st: Picker, p: Pos)
    requires WellFormed(st) && ValidPos(st.cells, p) && st.mode == SINGLE
    ensures DoSelectDate(st, p).events == Unselected(CellDates(st.cells, st.selectedCells))
  {
    ClearingEvents(st, p);
    UnselectEventsReportAll(st.cells, st.selectedCells, 0);
    assert CellDates(st.cells, st.selectedCells)[0..] == CellDates(st.cells, st.selectedCells);
  }

  // ---------------------------------------------------------------------------
  // MULTIPLE

  /** `applyMultiSelect` on a day that is neither on a selected cell nor among the selected dates changes nothing. */
  lemma MultiSelectAbsent(st: Picker, d: Date)
    requires WellFormed(st)
    requires forall i | 0 <= i < |st.selectedCells| :: At(st.cells, st.selectedCells[i]).date != d
    requires d !in st.selectedCals
    ensures ApplyMultiSelect(st, d) == (st, false)
  {
    assert !DropFirstCellOn(st, d).1;
  }

  /**
    In MULTIPLE mode a day not selected yet is added: the picked cell is
    appended to the selected cells and its day to the selected dates, the cell
    is selected, and no other cell's selection changes.
  */
  lemma MultipleModeAdds(st: Picker, p: Pos)
    requires WellFormed(st) && ValidPos(st.cells, p) && st.mode == MULTIPLE
    requires forall i | 0 <= i < |st.selectedCells| :: At(st.cells, st.selectedCells[i]).date != At(st.cells, p).date
    requires At(st.cells, p).date !in st.selectedCals
    ensures DoSelectDate(st, p).accepted && DoSelectDate(st, p).events == []
    ensures Appended(st, p, DoSelectDate(st, p).picker)
  {
    var d := At(st.cells, p).date;
    var st0 := Update(st, st.selectedCells, ClearRange);
    SameShapeValidPos(st.cells, st0.cells);
    MultiSelectAbsent(st0, d);
    DoSelectDateSteps(st, p);
    AddWithoutFill(st0, p);
    var _ := ClearRangeThenAdd(st, p);
  }

  /** Deselecting selected cell `k` after the range reset: that cell is deselected, no other cell's selection changes. */
  lemma DeselectOne(st: Picker, k: nat)
    requires WellFormed(st) && k < |st.selectedCells|
    ensures var g := Update(Update(st, st.selectedCells, ClearRange), [st.selectedCells[k]], Deselect).cells;
      && ValidPos(g, st.selectedCells[k]) && !At(g, st.selectedCells[k]).isSelected
      && forall q | ValidPos(st.cells, q) && q != st.selectedCells[k] :: ValidPos(g, q) && At(g, q).isSelected == At(st.cells, q).isSelected
  {
    var st0 := Update(st, st.selectedCells, ClearRange);
    SameShapeValidPos(st.cells, st0.cells);
    var st1 := Update(st0, [st.selectedCells[k]], Deselect);
    SameShapeValidPos(st0.cells, st1.cells);
  }

  /**
    In MULTIPLE mode a click on a selected day removes it: the first selected
    cell on that day is deselected and dropped, the first selected date on
    that day is dropped, nothing is added, and no event is reported.
  */
  lemma MultipleModeRemoves(st: Picker, p: Pos, k: nat)
    requires WellFormed(st) && ValidPos(st.cells, p) && st.mode == MULTIPLE
    requires FirstOn(st.cells, st.selectedCells, At(st.cells, p).date, k)
    ensures !DoSelectDate(st, p).accepted && DoSelectDate(st, p).events == []
    ensures DoSelectDate(st, p).picker.selectedCells == st.selectedCells[..k] + st.selectedCells[k + 1..]
    ensures DoSelectDate(st, p).picker.selectedCals == DropFirstDate(st.selectedCals, At(st.cells, p).date)
    ensures !At(DoSelectDate(st, p).picker.cells, st.selectedCells[k]).isSelected
    ensures forall q | ValidPos(st.cells, q) && q != st.selectedCells[k] ::
      At(DoSelectDate(st, p).picker.cells, q).isSelected == At(st.cells, q).isSelected
  {
    var d := At(st.cells, p).date;
    var st0 := Update(st, st.selectedCells, ClearRange);
    SameShapeValidPos(st.cells, st0.cells);
    assert FirstOn(st0.cells, st0.selectedCells, d, k);
    DropFirstCellOnFirst(st0, d, k);
    DoSelectDateSteps(st, p);
    DeselectOne(st, k);
  }

  /** In MULTIPLE mode clicking a day that is not selected twice restores both selection lists. */
  lemma MultipleModeToggle(st: Picker, p: Pos)
    requires WellFormed(st) && ValidPos(st.cells, p) && st.mode == MULTIPLE
    requires forall i | 0 <= i < |st.selectedCells| :: At(st.cells, st.selectedCells[i]).date != At(st.cells, p).date
    requires At(st.cells, p).date !in st.selectedCals
    ensures ValidPos(DoSelectDate(st, p).picker.cells, p)
    ensures !DoSelectDate(DoSelectDate(st, p).picker, p).accepted
    ensures DoSelectDate(DoSelectDate(st, p).picker, p).picker.selectedCells == st.selectedCells
    ensures DoSelectDate(DoSelectDate(st, p).picker, p).picker.selectedCals == st.selectedCals
  {
    MultipleModeAdds(st, p);
    ToggleBack(st, p, DoSelectDate(st, p).picker);
  }

  /** The second click of a toggle, on the state the first one left. */
  lemma ToggleBack(st: Picker, p: Pos, st1: Picker)
    requires WellFormed(st) && ValidPos(st.cells, p) && st1.mode == MULTIPLE
    requires forall i | 0 <= i < |st.selectedCells| :: At(st.cells, st.selectedCells[i]).date != At(st.cells, p).date
    requires At(st.cells, p).date !in st.selectedCals
    requires Appended(st, p, st1)
    ensures ValidPos(st1.cells, p)
    ensures !DoSelectDate(st1, p).accepted
    ensures DoSelectDate(st1, p).picker.selectedCells == st.selectedCells
    ensures DoSelectDate(st1, p).picker.selectedCals == st.selectedCals
  {
    var d := At(st.cells, p).date;
    SameShapeValidPos(st.cells, st1.cells);
    var n := |st.selectedCells|;
    assert st1.selectedCells[n] == p;
    assert FirstOn(st1.cells, st1.selectedCells, d, n);
    MultipleModeRemoves(st1, p, n);
    assert st1.selectedCells[..n] + st1.selectedCells[n + 1..] == st.selectedCells;
    assert FirstIn(st1.selectedCals, d, |st.selectedCals|) by {
      assert st1.selectedCals[..|st.selectedCals|] == st.selectedCals;
    }
    assert st1.selectedCals[..|st.selectedCals|] + st1.selectedCals[|st.selectedCals| + 1..] == st.selectedCals;
  }

  // ---------------------------------------------------------------------------
  // RANGE

  /**
    In RANGE mode, with one day selected, a click on a day not before it
    completes the range: the selected cells become the start, the picked cell,
    and then every selectable cell strictly between the two days in grid order;
    the start is FIRST, the picked cell LAST, the cells between are selected
    and MIDDLE, and nothing is reported.
  */
  lemma RangeModeCompletes(st: Picker, p: Pos)
    requires WellFormed(st) && ValidPos(st.cells, p) && st.mode == RANGE
    requires |st.selectedCells| == 1 && |st.selectedCals| == 1 && st.selectedCells[0] != p
    requires !Before(At(st.cells, p).date, st.selectedCals[0])
    ensures DoSelectDate(st, p).accepted && DoSelectDate(st, p).events == []
    ensures DoSelectDate(st, p).picker.selectedCals == st.selectedCals + [At(st.cells, p).date]
    ensures RangeCompleted(st, p, DoSelectDate(st, p).picker)
  {
    var st2 := RangeCompletesSteps(st, p);
    RangeStartKept(st, p, st2);
    RangeCompletedFromFill(st, st2, FillRange(st2), st.selectedCells[0], p);
  }

  /** Completing a range: resetting the start's range state, adding the picked cell, then the fill. */
  lemma RangeCompletesSteps(st: Picker, p: Pos) returns (st2: Picker)
    requires WellFormed(st) && ValidPos(st.cells, p) && st.mode == RANGE
    requires |st.selectedCells| == 1 && |st.selectedCals| == 1 && st.selectedCells[0] != p
    requires !Before(At(st.cells, p).date, st.selectedCals[0])
    ensures Appended(st, p, st2) && |st2.selectedCells| == 2
    ensures DoSelectDate(st, p) == Outcome(FillRange(st2), true, [])
  {
    var st0 := Update(st, st.selectedCells, ClearRange);
    DoSelectDateSteps(st, p);
    assert ModeStep(st0, At(st.cells, p).date) == (st0, [], true);
    st2 := ClearRangeThenAdd(st, p);
  }

  /** An addition to a one-cell selection, cell by cell. */
  lemma RangeStartKept(st: Picker, p: Pos, st2: Picker)
    requires WellFormed(st) && ValidPos(st.cells, p) && |st.selectedCells| == 1
    requires Appended(st, p, st2)
    ensures WellFormed(st2) && Preserves(st.cells, st2.cells) && st2.selectedCells == [st.selectedCells[0], p]
    ensures forall q | ValidPos(st.cells, q) :: At(st2.cells, q).isSelected == (q == p || At(st.cells, q).isSelected)
    ensures forall q | ValidPos(st.cells, q) && q != st.selectedCells[0] :: At(st2.cells, q).rangeState == At(st.cells, q).rangeState
  {
    assert forall q :: q != st.selectedCells[0] ==> q !in st.selectedCells;
  }

  /**
    The state after a completed range: start `st.selectedCells[0]`, end `p`,
    the cells strictly between in grid order, with their range states.
  */
  ghost predicate RangeCompleted(st: Picker, p: Pos, r: Picker)
    requires WellFormed(st) && |st.selectedCells| > 0 && ValidPos(st.cells, p)
  {
    var a, start, end := st.selectedCells[0], At(st.cells, st.selectedCells[0]).date, At(st.cells, p).date;
    && SameShape(st.cells, r.cells)
    && |r.selectedCells| >= 2 && r.selectedCells[..2] == [a, p]
    && Ascending(r.selectedCells[2..])
    && (forall q :: q in r.selectedCells[2..] <==> ValidPos(st.cells, q) && StrictlyInside(At(st.cells, q), start, end))
    && forall q | ValidPos(st.cells, q) ::
         && ValidPos(r.cells, q)
         && At(r.cells, q).isSelected == (StrictlyInside(At(st.cells, q), start, end) || q == p || At(st.cells, q).isSelected)
         && At(r.cells, q).rangeState ==
              if StrictlyInside(At(st.cells, q), start, end) then MIDDLE
              else if q == p then LAST
              else if q == a then FIRST
              else At(st.cells, q).rangeState
  }

  lemma RangeCompletedFromFill(st: Picker, st2: Picker, st3: Picker, a: Pos, p: Pos)
    requires WellFormed(st) && |st.selectedCells| == 1 && a == st.selectedCells[0] && ValidPos(st.cells, p) && a != p
    requires WellFormed(st2) && Preserves(st.cells, st2.cells) && st2.selectedCells == [a, p]
    requires forall q | ValidPos(st.cells, q) ::
      At(st2.cells, q).isSelected == (q == p || At(st.cells, q).isSelected)
    requires forall q | ValidPos(st.cells, q) && q != a :: At(st2.cells, q).rangeState == At(st.cells, q).rangeState
    requires st3 == FillRange(st2)
    ensures RangeCompleted(st, p, st3)
  {
    SameShapeValidPos(st.cells, st2.cells);
    PreservesTransitive(st.cells, st2.cells, st3.cells);
    SameShapeValidPos(st.cells, st3.cells);
    var start, end := At(st.cells, a).date, At(st.cells, p).date;
    assert RangeStart(st2) == start && RangeEnd(st2) == end;
    forall q | ValidPos(st.cells, q)
      ensures StrictlyInside(At(st2.cells, q), start, end) == StrictlyInside(At(st.cells, q), start, end)
    {
    }
    assert st3.selectedCells[..2] == [a, p];
  }

  /**
    In RANGE mode a second click on the one selected cell does not add the
    cell again, yet records its day a second time, so no range is filled and
    the next click clears.
  */
  lemma RangeModeSameCell(st: Picker, p: Pos)
    requires WellFormed(st) && ValidPos(st.cells, p) && st.mode == RANGE
    requires st.selectedCells == [p] && st.selectedCals == [At(st.cells, p).date]
    ensures DoSelectDate(st, p).accepted && DoSelectDate(st, p).events == []
    ensures DoSelectDate(st, p).picker.selectedCells == [p]
    ensures DoSelectDate(st, p).picker.selectedCals == [At(st.cells, p).date, At(st.cells, p).date]
    ensures ValidPos(DoSelectDate(st, p).picker.cells, p)
    ensures Clears(DoSelectDate(st, p).picker, At(st.cells, p).date)
  {
    var st0 := Update(st, st.selectedCells, ClearRange);
    DoSelectDateSteps(st, p);
    assert ModeStep(st0, At(st.cells, p).date) == (st0, [], true);
    SameShapeValidPos(st.cells, DoSelectDate(st, p).picker.cells);
  }

  /**
    In RANGE mode a click that does not complete a range starts a new one:
    with two days already selected, or one day after the clicked one, the old
    selection is cleared and the picked cell is the only one selected.
  */
  lemma RangeModeRestarts(st: Picker, p: Pos)
    requires WellFormed(st) && ValidPos(st.cells, p) && st.mode == RANGE
    requires |st.selectedCals| > 1 || (|st.selectedCals| == 1 && Before(At(st.cells, p).date, st.selectedCals[0]))
    ensures DoSelectDate(st, p).accepted
    ensures DoSelectDate(st, p).events == UnselectEventsAsWritten(st.cells, st.selectedCells, true, 0)
    ensures Restarted(st, p, DoSelectDate(st, p).picker)
  {
    ClearingSelect(st, p);
    var st1 := ClearOldSelections(Update(st, st.selectedCells, ClearRange)).0;
    AddWithoutFill(st1, p);
    var _ := ClearThenAdd(st, p);
    ClearingEvents(st, p);
  }
  /**
    Restarting a RANGE selection of distinct cells reports, as the source
    writes it, the first and the last cell of the list.
  */
  lemma RangeRestartReportsFirstAndLast(st: Picker, p: Pos)
    requires WellFormed(st) && ValidPos(st.cells, p) && st.mode == RANGE
    requires |st.selectedCals| > 1 && |st.selectedCells| >= 2 && Distinct(st.selectedCells)
    ensures DoSelectDate(st, p).events ==
      [DateUnselected(At(st.cells, st.selectedCells[0]).date),
       DateUnselected(At(st.cells, st.selectedCells[|st.selectedCells| - 1]).date)]
  {
    var sc := st.selectedCells;
    UnselectEventsAsWrittenEnds(st.cells, sc);
    ClearingEvents(st, p);
    assert DoSelectDate(st, p).events == UnselectEventsAsWritten(st.cells, sc, true, 0);
  }

  /**
    The intended clearing of a RANGE selection of distinct cells reports its
    two ends, the start and the end, however many cells lie between them.
  */
  lemma RangeRestartReportsEnds(st: Picker)
    requires WellFormed(st) && st.mode == RANGE
    requires |st.selectedCells| >= 2 && Distinct(st.selectedCells)
    ensures ClearOldSelectionsIntended(st).1 ==
      [DateUnselected(At(st.cells, st.selectedCells[0]).date), DateUnselected(At(st.cells, st.selectedCells[1]).date)]
  {
    UnselectEventsRangeEnds(st.cells, st.selectedCells);
  }

  /**
    The discrepancy in `clearOldSelections`: once a range with at least one
    cell between its ends is complete, the next click reports the start and
    the last MIDDLE cell unselected, never the end, while the intended rule
    reports the start and the end.
  */
  lemma RangeEndNotReported(st: Picker, p: Pos, m: Pos, q: Pos, r: Picker)
    requires WellFormed(st) && ValidPos(st.cells, p) && st.mode == RANGE
    requires |st.selectedCells| == 1 && |st.selectedCals| == 1 && st.selectedCells[0] != p
    requires !Before(At(st.cells, p).date, st.selectedCals[0])
    requires ValidPos(st.cells, m) && StrictlyInside(At(st.cells, m), At(st.cells, st.selectedCells[0]).date, At(st.cells, p).date)
    requires ValidPos(st.cells, q)
    requires r == DoSelectDate(st, p).picker
    ensures WellFormed(r) && ValidPos(r.cells, q) && |r.selectedCells| > 2
    ensures DoSelectDate(r, q).events ==
      [DateUnselected(At(st.cells, st.selectedCells[0]).date), DateUnselected(At(r.cells, r.selectedCells[|r.selectedCells| - 1]).date)]
    ensures DateUnselected(At(st.cells, p).date) !in DoSelectDate(r, q).events
    ensures ClearOldSelectionsIntended(r).1 ==
      [DateUnselected(At(st.cells, st.selectedCells[0]).date), DateUnselected(At(st.cells, p).date)]
  {
    RangeModeCompletes(st, p);
    SameShapeValidPos(st.cells, r.cells);
    ClearingCompletedRange(st.cells, r, st.selectedCells[0], p);
    ClearingCompletedRangeAsWritten(st.cells, r, st.selectedCells[0], p, m);
    ClearingEvents(r, q);
  }

  /** The selected list of a completed range has no repeated cell: the ends are not strictly inside the range. */
  lemma RangeListDistinct(g: Grid, sc: seq<Pos>, a: Pos, p: Pos)
    requires ValidPos(g, a) && ValidPos(g, p) && a != p
    requires |sc| >= 2 && sc[..2] == [a, p] && Ascending(sc[2..])
    requires forall q :: q in sc[2..] ==> ValidPos(g, q) && StrictlyInside(At(g, q), At(g, a).date, At(g, p).date)
    ensures Distinct(sc)
  {
    var start, end := At(g, a).date, At(g, p).date;
    AscendingDistinct(sc[2..]);
    forall i, j | 0 <= i < j < |sc|
      ensures sc[i] != sc[j]
    {
      if i >= 2 {
        assert sc[i] == sc[2..][i - 2] && sc[j] == sc[2..][j - 2];
      } else if j >= 2 {
        assert sc[j] in sc[2..];
        assert sc[i] == sc[..2][i];
        BeforeIsStrictTotalOrder(start, start, end);
        BeforeIsStrictTotalOrder(end, end, end);
      }
    }
  }

  /** Clearing a completed range with the intended rule reports its start and its end. */
  lemma ClearingCompletedRange(g: Grid, r: Picker, a: Pos, p: Pos)
    requires WellFormed(r) && Preserves(g, r.cells)
    requires ValidPos(g, a) && ValidPos(g, p) && a != p
    requires |r.selectedCells| >= 2 && r.selectedCells[..2] == [a, p] && Ascending(r.selectedCells[2..])
    requires forall q :: q in r.selectedCells[2..] ==> ValidPos(g, q) && StrictlyInside(At(g, q), At(g, a).date, At(g, p).date)
    ensures UnselectEvents(r.cells, r.selectedCells, true, 0) ==
      [DateUnselected(At(g, a).date), DateUnselected(At(g, p).date)]
  {
    var sc := r.selectedCells;
    SameShapeValidPos(g, r.cells);
    assert sc[0] == a && sc[1] == p by {
      assert sc[0] == sc[..2][0] && sc[1] == sc[..2][1];
    }
    RangeListDistinct(g, sc, a, p);
    UnselectEventsRangeEnds(r.cells, sc);
  }

  /**
    Clearing a completed range with at least one cell `m` between its ends
    under the rule as written reports the start and the last cell of the list,
    a cell strictly inside the range, and not the end.
  */
  lemma ClearingCompletedRangeAsWritten(g: Grid, r: Picker, a: Pos, p: Pos, m: Pos)
    requires WellFormed(r) && Preserves(g, r.cells)
    requires ValidPos(g, a) && ValidPos(g, p) && a != p
    requires |r.selectedCells| >= 2 && r.selectedCells[..2] == [a, p] && Ascending(r.selectedCells[2..])
    requires forall q :: q in r.selectedCells[2..] <==> ValidPos(g, q) && StrictlyInside(At(g, q), At(g, a).date, At(g, p).date)
    requires ValidPos(g, m) && StrictlyInside(At(g, m), At(g, a).date, At(g, p).date)
    ensures |r.selectedCells| > 2
    ensures UnselectEventsAsWritten(r.cells, r.selectedCells, true, 0) ==
      [DateUnselected(At(g, a).date), DateUnselected(At(r.cells, r.selectedCells[|r.selectedCells| - 1]).date)]
    ensures DateUnselected(At(g, p).date) !in UnselectEventsAsWritten(r.cells, r.selectedCells, true, 0)
  {
    var end := At(g, p).date;
    var sc := r.selectedCells;
    SameShapeValidPos(g, r.cells);
    assert m in sc[2..];
    var last := sc[|sc| - 1];
    assert last in sc[2..];
    assert sc[0] == a by {
      assert sc[0] == sc[..2][0];
    }
    RangeListDistinct(g, sc, a, p);
    UnselectEventsAsWrittenEnds(r.cells, sc);
    BeforeIsStrictTotalOrder(At(g, last).date, end, end);
  }


  // ---------------------------------------------------------------------------
  // RANGE_ON_TWO_SCREENS

  /** The lookup by day reads only days and selectability, which the setters never change. */
  lemma FindSelectableCellPreserved(g: Grid, h: Grid, d: Date)
    requires Preserves(g, h)
    ensures FindSelectableCell(h, d) == FindSelectableCell(g, d)
  {
    SameShapeValidPos(g, h);
  }

  /**
    The state after the peak step: the range's start `a` and end `b`, the
    cells strictly between in grid order with their range states; the picked
    cell `p` is selected, the peak cell only gets its range state, and every
    cell selected before the click is deselected.
  */
  ghost predicate PeakFilled(st: Picker, p: Pos, a: Pos, b: Pos, r: Picker)
    requires WellFormed(st) && ValidPos(st.cells, a) && ValidPos(st.cells, b)
  {
    var start, end := At(st.cells, a).date, At(st.cells, b).date;
    && SameShape(st.cells, r.cells)
    && |r.selectedCells| >= 2 && r.selectedCells[..2] == [a, b]
    && Ascending(r.selectedCells[2..])
    && (forall q :: q in r.selectedCells[2..] <==> ValidPos(st.cells, q) && StrictlyInside(At(st.cells, q), start, end))
    && forall q | ValidPos(st.cells, q) ::
         && ValidPos(r.cells, q)
         && At(r.cells, q).isSelected ==
              (StrictlyInside(At(st.cells, q), start, end) || q == p || (q !in st.selectedCells && At(st.cells, q).isSelected))
         && At(r.cells, q).rangeState ==
              if StrictlyInside(At(st.cells, q), start, end) then MIDDLE
              else if q == b then LAST
              else if q == a then FIRST
              else if q in st.selectedCells then NONE
              else At(st.cells, q).rangeState
  }

  /** The fill after the peak cell was put in place, stated against the state before the click. */
  lemma PeakFilledFromFill(st: Picker, st2: Picker, p: Pos, a: Pos, b: Pos)
    requires WellFormed(st) && ValidPos(st.cells, p) && ValidPos(st.cells, a) && ValidPos(st.cells, b)
    requires Restarted(st, p, st2) && WellFormed(st2.(selectedCells := [a, b]))
    ensures PeakFilled(st, p, a, b, FillRange(st2.(selectedCells := [a, b])))
  {
    var st3 := st2.(selectedCells := [a, b]);
    var st4 := FillRange(st3);
    SameShapeValidPos(st.cells, st3.cells);
    PreservesTransitive(st.cells, st3.cells, st4.cells);
    SameShapeValidPos(st.cells, st4.cells);
    var start, end := At(st.cells, a).date, At(st.cells, b).date;
    assert RangeStart(st3) == start && RangeEnd(st3) == end;
    forall q | ValidPos(st.cells, q)
      ensures StrictlyInside(At(st3.cells, q), start, end) == StrictlyInside(At(st.cells, q), start, end)
    {
    }
    assert st4.selectedCells[..2] == [a, b];
  }

  /** The order the peak step gives the peak cell `q` and the picked cell `p`. */
  function PeakPair(peak: PeakDate, q: Pos, p: Pos): seq<Pos> {
    match peak
    case LowerPeakDate(_) => [q, p]
    case HigherPeakDate(_) => [p, q]
  }

  lemma PeakStepPlaces(st2: Picker, p: Pos, q: Pos, peak: PeakDate)
    requires WellFormed(st2) && st2.selectedCells == [p]
    requires FindSelectableCell(st2.cells, peak.peak) == Some(q)
    ensures WellFormed(st2.(selectedCells := PeakPair(peak, q, p)))
    ensures PeakStep(st2, peak) == Some(FillRange(st2.(selectedCells := PeakPair(peak, q, p))))
  {
    assert [q] + st2.selectedCells == [q, p];
    assert [st2.selectedCells[0], q] + st2.selectedCells[1..] == [p, q];
  }

  /**
    RANGE_ON_TWO_SCREENS with a peak date whose day has a selectable cell `q`:
    the click restarts on the picked cell, then the peak step puts `q` and the
    picked cell in the order the peak gives and fills the range between them.
  */
  lemma TwoScreensPeakSteps(st: Picker, p: Pos, q: Pos) returns (st2: Picker)
    requires WellFormed(st) && ValidPos(st.cells, p) && st.mode == RANGE_ON_TWO_SCREENS && st.peakDate.Some?
    requires FindSelectableCell(st.cells, st.peakDate.value.peak) == Some(q)
    ensures Restarted(st, p, st2)
    ensures WellFormed(st2.(selectedCells := PeakPair(st.peakDate.value, q, p)))
    ensures DoSelectDate(st, p).accepted
    ensures DoSelectDate(st, p).picker == FillRange(st2.(selectedCells := PeakPair(st.peakDate.value, q, p)))
  {
    ClearingSelect(st, p);
    var _ := ClearThenAdd(st, p);
    var st1 := ClearOldSelections(Update(st, st.selectedCells, ClearRange)).0;
    st2 := AddPicked(st1, p);
    FindSelectableCellPreserved(st.cells, st2.cells, st.peakDate.value.peak);
    AddAndFillPeak(st1, p, q);
  }

  /** With a lower peak date on cell `q`, the range runs from `q` to the picked cell. */
  lemma TwoScreensLowerPeak(st: Picker, p: Pos, q: Pos)
    requires WellFormed(st) && ValidPos(st.cells, p) && st.mode == RANGE_ON_TWO_SCREENS
    requires st.peakDate.Some? && st.peakDate.value.LowerPeakDate?
    requires FindSelectableCell(st.cells, st.peakDate.value.peak) == Some(q)
    ensures DoSelectDate(st, p).accepted
    ensures DoSelectDate(st, p).picker.selectedCals == [At(st.cells, p).date]
    ensures PeakFilled(st, p, q, p, DoSelectDate(st, p).picker)
  {
    var st2 := TwoScreensPeakSteps(st, p, q);
    PeakFilledFromFill(st, st2, p, q, p);
  }

  /** With a higher peak date on cell `q`, the range runs from the picked cell to `q`. */
  lemma TwoScreensHigherPeak(st: Picker, p: Pos, q: Pos)
    requires WellFormed(st) && ValidPos(st.cells, p) && st.mode == RANGE_ON_TWO_SCREENS
    requires st.peakDate.Some? && st.peakDate.value.HigherPeakDate?
    requires FindSelectableCell(st.cells, st.peakDate.value.peak) == Some(q)
    ensures DoSelectDate(st, p).accepted
    ensures DoSelectDate(st, p).picker.selectedCals == [At(st.cells, p).date]
    ensures PeakFilled(st, p, p, q, DoSelectDate(st, p).picker)
  {
    var st2 := TwoScreensPeakSteps(st, p, q);
    PeakFilledFromFill(st, st2, p, p, q);
  }

  /** Adding the picked cell to an empty selection and placing the peak cell, before the fill. */
  lemma AddAndFillPeak(st1: Picker, p: Pos, q: Pos)
    requires WellFormed(st1) && ValidPos(st1.cells, p) && st1.mode == RANGE_ON_TWO_SCREENS && st1.peakDate.Some?
    requires st1.selectedCells == []
    requires FindSelectableCell(AddPicked(st1, p).cells, st1.peakDate.value.peak) == Some(q)
    ensures WellFormed(AddPicked(st1, p).(selectedCells := PeakPair(st1.peakDate.value, q, p)))
    ensures AddAndFill(st1, p) == (FillRange(AddPicked(st1, p).(selectedCells := PeakPair(st1.peakDate.value, q, p))), true)
  {
    PeakStepPlaces(AddPicked(st1, p), p, q, st1.peakDate.value);
  }

  /**
    RANGE_ON_TWO_SCREENS with a peak day that has no selectable cell: the
    click reports false, yet the old selection was cleared and the picked cell
    stays selected.
  */
  lemma TwoScreensMissingPeak(st: Picker, p: Pos)
    requires WellFormed(st) && ValidPos(st.cells, p) && st.mode == RANGE_ON_TWO_SCREENS
    requires st.peakDate.Some? && FindSelectableCell(st.cells, st.peakDate.value.peak).None?
    ensures !DoSelectDate(st, p).accepted
    ensures Restarted(st, p, DoSelectDate(st, p).picker)
  {
    ClearingSelect(st, p);
    var _ := ClearThenAdd(st, p);
    var st1 := ClearOldSelections(Update(st, st.selectedCells, ClearRange)).0;
    FindSelectableCellPreserved(st.cells, AddPicked(st1, p).cells, st.peakDate.value.peak);
    assert AddAndFill(st1, p) == (AddPicked(st1, p), false);
  }

  /** RANGE_ON_TWO_SCREENS without a peak date behaves like SINGLE: a restart on the picked cell. */
  lemma TwoScreensNoPeak(st: Picker, p: Pos)
    requires WellFormed(st) && ValidPos(st.cells, p) && st.mode == RANGE_ON_TWO_SCREENS && st.peakDate.None?
    ensures DoSelectDate(st, p).accepted
    ensures Restarted(st, p, DoSelectDate(st, p).picker)
  {
    ClearingSelect(st, p);
    var _ := ClearThenAdd(st, p);
    var st1 := ClearOldSelections(Update(st, st.selectedCells, ClearRange)).0;
    AddWithoutFill(st1, p);
  }
}
