# times-square calendar picker: a Dafny model of the date grid and the selection state machine

This project models the core of `CalendarPickerView`, the month-list date picker of the times-square Android library, together with the two records it works on:
- `MonthCellDescriptor`, one day cell;
- `MonthDescriptor`, one month.

It covers two parts of the picker.
- **Grid building.** `init` lists the months from `minDate`'s month through the month of the last day before the exclusive `maxDate`. For each month, `getMonthCells` lays out week rows of seven cells. The rows start on the locale's first day of the week and derive every flag of a cell from its day.
- **Selection state machine.** `doSelectDate` runs a different step in each of the four selection modes: SINGLE, MULTIPLE, RANGE, and RANGE_ON_TWO_SCREENS with its lower or higher peak date. Around it sit:
  - its helpers `clearOldSelections` and `applyMultiSelect`;
  - the lookup `getMonthCellWithIndexByDate`;
  - the guarded entry points `validateDate`, `selectDate` and the cell click handler;
  - highlighting and its clearing;
  - `withSelectedDates`, `getSelectedDate` and `getSelectedDates`.

How the model represents the source:
- **Dates** are civil days `Date(year, month 0-11, day)` in the proleptic Gregorian calendar, with `java.util.Calendar`'s weekday numbering 1 (Sunday) to 7. Time of day is dropped: the picker's own calendars are cleared to midnight, and a date passed in by a caller is taken to be a whole day (see "## Left out" for what that leaves out).
- **The exclusive bound** `maxDate` is kept as an exclusive day bound. Moving `maxCal` back one minute becomes "the day before `maxDate`" (`Dates.Prev`).
- **The grid** is a `seq` of months of weeks of cells. A cell's object identity, which the picker's lists track with `equals` and `indexOf`, is its position `Pos(month, week, col)`.
- **Operations** return a new `Picker` state.
- **Listener calls** (`onDateSelected`, `onDateUnselected`, `onInvalidDateSelected`) are returned as a list of events.
- **Thrown `IllegalArgumentException`s** become `Failure` values. Where a loop throws part way, the `Run` result keeps the state and events produced before the throw.
- **Parameters** stand in for what the picker reads from its environment:
  - the locale, reduced to its first day of the week;
  - the clock (`today`);
  - the date filter (`DateSelectableFilter`);
  - the click interceptor;
  - the month-name formatter.

Modules:
- `Dates`: days, order, the day-of-week arithmetic.
- `MonthCells`: the cell record and its setters.
- `Months`: the month record.
- `Sorting`: `Collections.sort` on dates.
- `Grid`: the nested grid, its scan order, `getMonthCells` and the month loop of `init`.
- `Layout`: what a month's grid is, stated without loops, and the proof that `getMonthCells` builds it.
- `Picker`: the state and every selection operation.
- `SelectionFacts`: what one click does in each mode.
- `InitFacts`: what `init` builds.

Where the code and its documentation differ, the model follows the code:
- The javadoc of `selectDate` says it returns false when the date is not selectable or out of range. For a date outside [minDate, maxDate) the code throws first, in `validateDate`, unless validation is switched off. `Picker.SelectDate` returns `Failure(DateOutOfRange)` there.
- `init`'s javadoc asks that `minDate` be earlier than `maxDate`, but the code rejects only `minDate.after(maxDate)`. Equal bounds are accepted, and `Picker.Init` accepts them too. The month list then holds `minDate`'s month, or nothing when `minDate` is the 1st of a month.
- `inMode` only sets the mode. It does not clear dates selected before (`Picker.InMode`).

## Model

| member | source | states |
|---|---|---|
| Dates.SameDateIsEquality | library/src/main/java/com/squareup/timessquare/CalendarPickerView.java:934-938 | `sameDate` (same month, year and day of month) holds exactly when the two days are the same day |
| Dates.NextIsImmediate | library/src/main/java/com/squareup/timessquare/CalendarPickerView.java:897 | advancing the calendar by one day gives the immediate successor: no valid day lies strictly between a day and the next |
| Dates.DayOfWeekAddDays | library/src/main/java/com/squareup/timessquare/CalendarPickerView.java:858-863 | moving `k` days moves the weekday by `k` modulo 7 |
| MonthCells.AllRangeStates | library/src/main/java/com/squareup/timessquare/MonthCellDescriptor.java:11-13 | the range states are exactly NONE, FIRST, MIDDLE and LAST, each once, in declaration order |
| MonthCells.NewCell | library/src/main/java/com/squareup/timessquare/MonthCellDescriptor.java:24-34 | each getter returns the constructor argument in its place of the constructor's order (date, current-month, selectable, selected, today, highlighted, value, range state) |
| MonthCells.SetSelected | library/src/main/java/com/squareup/timessquare/MonthCellDescriptor.java:52-54 | `setSelected` sets the selected flag and changes no other field |
| MonthCells.SetHighlighted | library/src/main/java/com/squareup/timessquare/MonthCellDescriptor.java:60-62 | `setHighlighted` sets the highlighted flag and changes no other field |
| MonthCells.SetRangeState | library/src/main/java/com/squareup/timessquare/MonthCellDescriptor.java:72-74 | `setRangeState` sets the range state and changes no other field |
| MonthCells.FixedFieldsNeverChange | library/src/main/java/com/squareup/timessquare/MonthCellDescriptor.java:15-20 | no sequence of setter calls changes the date, value, current-month, today or selectable field |
| Months.NewMonth | library/src/main/java/com/squareup/timessquare/MonthDescriptor.java:12-29 | `getMonth`, `getYear`, `getDate` and `getLabel` return the constructor's arguments |
| Months.SetLabel | library/src/main/java/com/squareup/timessquare/MonthDescriptor.java:31-37 | after `setLabel`, `getLabel` returns the new label and month, year and date are unchanged |
| Sorting.SortDates | library/src/main/java/com/squareup/timessquare/CalendarPickerView.java:922 | sorting a list of dates yields a chronologically ordered permutation of it |
| Grid.ContainsDate | library/src/main/java/com/squareup/timessquare/CalendarPickerView.java:909-916 | `containsDate` is true exactly when the list holds the same day |
| Grid.MinDate | library/src/main/java/com/squareup/timessquare/CalendarPickerView.java:918-924 | `minDate` leaves the list sorted, a permutation of itself, and returns null exactly for an empty list, otherwise a date of the list no other date precedes |
| Grid.MaxDate | library/src/main/java/com/squareup/timessquare/CalendarPickerView.java:926-932 | `maxDate` leaves the list sorted, a permutation of itself, and returns null exactly for an empty list, otherwise a date of the list no other date follows |
| Grid.Matches | library/src/main/java/com/squareup/timessquare/CalendarPickerView.java:634-646 | the nested month, week and cell loops visit exactly the cells satisfying the test, each once, in month-week-column order |
| Grid.FindSelectableCell | library/src/main/java/com/squareup/timessquare/CalendarPickerView.java:786-804 | `getMonthCellWithIndexByDate` returns null exactly when no selectable cell lies on that calendar day, and otherwise the first such cell in scan order (its month index is the position's month) |
| Grid.WeekLoopGuardIsMonthLe | library/src/main/java/com/squareup/timessquare/CalendarPickerView.java:868-869 | the week-row loop condition holds exactly while the counter is in the built month or an earlier one |
| Grid.BuildWeek | library/src/main/java/com/squareup/timessquare/CalendarPickerView.java:873-898 | one row holds seven cells for seven consecutive days, and the counter ends seven days later |
| Grid.BuildWeeks | library/src/main/java/com/squareup/timessquare/CalendarPickerView.java:868-899 | the rows reach past the last day of the month, and the last row starts inside it |
| Grid.BuildWeeksCells | library/src/main/java/com/squareup/timessquare/CalendarPickerView.java:868-899 | every row has seven cells, and the cell in row `w`, column `c` is the one for the day `k + 7w + c` days from the 1st |
| Grid.GridOffset | library/src/main/java/com/squareup/timessquare/CalendarPickerView.java:857-862 | the grid starts between 0 and 6 days before the 1st |
| Grid.GetMonthCells | library/src/main/java/com/squareup/timessquare/CalendarPickerView.java:853-901 | building a month leaves the selected dates a permutation of themselves (sorted in place by `minDate` and `maxDate`) |
| Grid.MonthLoopGuardIsMonthLe | library/src/main/java/com/squareup/timessquare/CalendarPickerView.java:222-224 | the month loop condition holds exactly while the counter's month is not later than the last month |
| Grid.MonthList | library/src/main/java/com/squareup/timessquare/CalendarPickerView.java:219-233 | the month loop lists as many months as lie from the counter's month through the last month |
| Grid.MonthListConsecutive | library/src/main/java/com/squareup/timessquare/CalendarPickerView.java:219-233 | the i-th listed month is i months after the first: consecutive, each once |
| Grid.MonthListDates | library/src/main/java/com/squareup/timessquare/CalendarPickerView.java:225-232 | each month's date is the counter: in that month, with the start day clamped to the months' lengths, and its label is that date formatted |
| Grid.MonthGrids | library/src/main/java/com/squareup/timessquare/CalendarPickerView.java:229 | one grid per listed month, and the selected dates stay a permutation of themselves |
| Grid.MonthGridsCells | library/src/main/java/com/squareup/timessquare/CalendarPickerView.java:229 | with nothing selected, month i's grid is `getMonthCells` of month i and the selected list stays empty |
| Grid.BuildMonths | library/src/main/java/com/squareup/timessquare/CalendarPickerView.java:219-233 | the loop yields as many grids as months, one per month from the counter's through the last |
| Layout.BuildRangeStateIsRangeFor | library/src/main/java/com/squareup/timessquare/CalendarPickerView.java:883-892 | with two or more selected dates the earliest day is FIRST, the latest LAST, a day strictly between two selected dates MIDDLE and any other NONE; with fewer, every cell is NONE |
| Layout.BuildCellIsCellFor | library/src/main/java/com/squareup/timessquare/CalendarPickerView.java:873-896 | the loop body builds, for each day, the cell whose flags the day alone determines |
| Layout.SortedSelection | library/src/main/java/com/squareup/timessquare/CalendarPickerView.java:865-866 | sorting the selected dates twice still finds the earliest and the latest date of the original list |
| Layout.GetMonthCellsIsMonthGrid | library/src/main/java/com/squareup/timessquare/CalendarPickerView.java:853-901 | `getMonthCells` builds the month's grid: rows of seven from the first-weekday offset, as few rows as cover the month, each cell the one for its day |
| Layout.BuiltGridIsMonthGrid | library/src/main/java/com/squareup/timessquare/CalendarPickerView.java:868-899 | the rows the week loop builds from the offset form the month's grid |
| Layout.MonthGridFlags | library/src/main/java/com/squareup/timessquare/CalendarPickerView.java:873-892 | in a built grid: a cell is in the current month exactly in the month's days; selectable exactly when also in [minDate, maxDate) and accepted by the filter; selected only in the current month and on a selected day; highlighted and today by its day; its range state from the selected dates' earliest and latest |
| Layout.MonthGridDays | library/src/main/java/com/squareup/timessquare/CalendarPickerView.java:863-897 | the cell in row `w`, column `c` is `off + 7w + c` days from the 1st, and it is in the current month exactly when that offset is inside the month |
| Layout.MonthGridFirstCell | library/src/main/java/com/squareup/timessquare/CalendarPickerView.java:857-862 | the first cell falls on the locale's first day of the week, 0 to 6 days before the 1st |
| Layout.FirstCellWeekday | library/src/main/java/com/squareup/timessquare/CalendarPickerView.java:857-862 | moving back by the computed offset from the 1st lands on the first day of the week |
| Layout.MonthGridCoversMonth | library/src/main/java/com/squareup/timessquare/CalendarPickerView.java:868-899 | every day of the month appears in its grid as a current-month cell, at the row and column its offset gives |
| Layout.GridCellDay | library/src/main/java/com/squareup/timessquare/CalendarPickerView.java:868-899 | the cell at row `w`, column `c` shows the day `off + 7w + c` days from the 1st, in the current month exactly when that day is in the month |
| Layout.MonthGridRowsNeeded | library/src/main/java/com/squareup/timessquare/CalendarPickerView.java:868-869 | the first row's last cell and the last row's first cell are days of the month, so no row is superfluous |
| Layout.MonthGridDistinct | library/src/main/java/com/squareup/timessquare/CalendarPickerView.java:873-897 | no day appears twice in a month's grid |
| Picker.IndexOf | library/src/main/java/com/squareup/timessquare/CalendarPickerView.java:705 | `indexOf` gives the first index holding the cell |
| Picker.RemoveAt | library/src/main/java/com/squareup/timessquare/CalendarPickerView.java:723 | removing index `i` keeps the elements before it and shifts the later ones down by one |
| Picker.FirstCellOn | library/src/main/java/com/squareup/timessquare/CalendarPickerView.java:719-727 | finds no cell exactly when no selected cell is on the day, otherwise the first selected cell on it |
| Picker.FirstSameDate | library/src/main/java/com/squareup/timessquare/CalendarPickerView.java:728-733 | finds no date exactly when the day is not among the selected dates, otherwise its first index |
| Picker.UnselectEventsAsWritten | library/src/main/java/com/squareup/timessquare/CalendarPickerView.java:704-708 | clearing, with the rule as written, reports at most one event per selected cell |
| Picker.UnselectEventsAreSelectedDays | library/src/main/java/com/squareup/timessquare/CalendarPickerView.java:696-716 | every event clearing reports is an unselect of a selected cell's day |
| Picker.ClearOldSelections | library/src/main/java/com/squareup/timessquare/CalendarPickerView.java:696-716 | `clearOldSelections` deselects exactly the selected cells, empties both selection lists, leaves every other field alone, and reports the unselect events of the rule as written (index 0 or the last index in RANGE mode) |
| Picker.UnselectEvents | library/src/main/java/com/squareup/timessquare/CalendarPickerView.java:704-708 | the intended rule (index 0 or 1 in RANGE mode, the corrected half of the finding) also reports at most one event per selected cell |
| Picker.UnselectEventsAgreeOutsideRange | library/src/main/java/com/squareup/timessquare/CalendarPickerView.java:704-708 | outside RANGE mode the intended rule and the rule as written report the same events |
| Picker.ClearOldSelectionsIntended | library/src/main/java/com/squareup/timessquare/CalendarPickerView.java:696-716 | `clearOldSelections` with the intended rule: the same change of state, and the same events outside RANGE mode |
| Picker.DropFirstCellOn | library/src/main/java/com/squareup/timessquare/CalendarPickerView.java:719-727 | a cell is removed exactly when a selected cell is on the day, shortening the list by one; otherwise nothing changes |
| Picker.DropFirstCellOnFirst | library/src/main/java/com/squareup/timessquare/CalendarPickerView.java:719-727 | the removed cell is the first selected one on the day: it is deselected and dropped from its index, and every other cell is left alone |
| Picker.DropFirstDate | library/src/main/java/com/squareup/timessquare/CalendarPickerView.java:728-733 | the first selected date on the day is dropped, and only it; an absent day changes nothing |
| Picker.ApplyMultiSelect | library/src/main/java/com/squareup/timessquare/CalendarPickerView.java:718-735 | `applyMultiSelect` drops the first cell on the day and, independently, the first date on the day, and returns null exactly when a cell was dropped |
| Picker.FillRange | library/src/main/java/com/squareup/timessquare/CalendarPickerView.java:627-647 | the range fill marks the first cell FIRST and the second LAST, then selects and marks MIDDLE exactly the selectable cells strictly between their days, appending them in scan order; no other cell changes |
| Picker.FillRangeCells | library/src/main/java/com/squareup/timessquare/CalendarPickerView.java:631-646 | the three passes of the fill, cell by cell, against the grid before it |
| Picker.ModeStep | library/src/main/java/com/squareup/timessquare/CalendarPickerView.java:594-617 | the mode switch changes only the cells and the two selection lists |
| Picker.AddPicked | library/src/main/java/com/squareup/timessquare/CalendarPickerView.java:619-625 | the picked cell is appended and selected unless it is already the first selected cell, and its date is appended in either case |
| Picker.PeakStep | library/src/main/java/com/squareup/timessquare/CalendarPickerView.java:650-688 | the peak step fails exactly when the peak day has no selectable cell, and otherwise changes only the cells and the selected cells |
| Picker.AddAndFill | library/src/main/java/com/squareup/timessquare/CalendarPickerView.java:619-689 | adding and filling changes only the cells and the selection lists and keeps every cell's fixed fields |
| Picker.DoSelectDate | library/src/main/java/com/squareup/timessquare/CalendarPickerView.java:583-694 | `doSelectDate` changes only the cells and the two selection lists, and every tracked cell stays a cell of the grid |
| Picker.ValidateDate | library/src/main/java/com/squareup/timessquare/CalendarPickerView.java:568-581 | a null date throws; with validation on, a date outside [minDate, maxDate) throws; otherwise it passes |
| Picker.SelectDate | library/src/main/java/com/squareup/timessquare/CalendarPickerView.java:554-566 | `selectDate` throws exactly when `validateDate` does. With no selectable cell on the day, or a date the filter rejects, it returns false and changes nothing. Otherwise it is `doSelectDate` on that cell |
| Picker.HandleClick | library/src/main/java/com/squareup/timessquare/CalendarPickerView.java:504-525 | an intercepted click does nothing; a day outside the bounds or rejected by the filter is reported invalid and changes nothing; otherwise the day is selected and reported selected or unselected after the clearing events |
| Picker.HighlightAt | library/src/main/java/com/squareup/timessquare/CalendarPickerView.java:746-753 | highlighting a found cell appends it and its date, sets only its highlighted flag, and changes no other cell |
| Picker.HighlightOne | library/src/main/java/com/squareup/timessquare/CalendarPickerView.java:744-754 | a day without a selectable cell changes nothing; otherwise its first selectable cell is highlighted |
| Picker.HighlightDates | library/src/main/java/com/squareup/timessquare/CalendarPickerView.java:741-758 | `highlightDates` throws exactly when one of the dates fails validation, reports nothing, and touches only the cells and the highlight lists |
| Picker.HighlightOneAppends | library/src/main/java/com/squareup/timessquare/CalendarPickerView.java:744-754 | highlighting one day keeps every cell's selection and range state and appends highlighted cells only |
| Picker.HighlightDatesAppends | library/src/main/java/com/squareup/timessquare/CalendarPickerView.java:741-758 | `highlightDates`, even when it throws part way, keeps every selection flag and range state, extends the highlighted cells only by highlighted cells, and changes no other cell |
| Picker.ClearHighlightedDates | library/src/main/java/com/squareup/timessquare/CalendarPickerView.java:760-768 | `clearHighlightedDates` unhighlights exactly the tracked cells, empties both highlight lists, and keeps every selection flag and range state |
| Picker.SelectAll | library/src/main/java/com/squareup/timessquare/CalendarPickerView.java:291-295 | selecting the dates in turn changes only the cells and the selection lists |
| Picker.SelectAllError | library/src/main/java/com/squareup/timessquare/CalendarPickerView.java:291-295 | selecting the dates in turn throws exactly when one of them fails validation |
| Picker.WithSelectedDates | library/src/main/java/com/squareup/timessquare/CalendarPickerView.java:282-299 | several dates in SINGLE mode, or more than two in RANGE mode, throw before anything changes; otherwise it throws exactly when some date fails validation |
| Picker.CellDates | library/src/main/java/com/squareup/timessquare/CalendarPickerView.java:477-480 | the days of the selected cells, one per cell, in list order |
| Picker.GetSelectedDates | library/src/main/java/com/squareup/timessquare/CalendarPickerView.java:476-483 | `getSelectedDates` returns the selected cells' days, all of them, in chronological order |
| Picker.GetSelectedDate | library/src/main/java/com/squareup/timessquare/CalendarPickerView.java:472-474 | `getSelectedDate` is null exactly when no date is selected, otherwise the first selected date |
| Picker.InMode | library/src/main/java/com/squareup/timessquare/CalendarPickerView.java:264-268 | `inMode` sets the mode and nothing else |
| Picker.Init | library/src/main/java/com/squareup/timessquare/CalendarPickerView.java:167-237 | `init` throws for null bounds, then for a minimum after the maximum (equal bounds pass), then for a null locale. On success nothing is selected or highlighted, the mode is SINGLE, there is no peak date, validation is on, and the bounds are stored |
| SelectionFacts.UnselectEventsReportAll | library/src/main/java/com/squareup/timessquare/CalendarPickerView.java:696-716 | outside RANGE mode clearing reports every selected cell's day, in list order |
| SelectionFacts.UnselectEventsSameDates | library/src/main/java/com/squareup/timessquare/CalendarPickerView.java:696-716 | the events of clearing depend only on the selected cells' days |
| SelectionFacts.UnselectEventsRangeEnds | library/src/main/java/com/squareup/timessquare/CalendarPickerView.java:704-708 | in RANGE mode the intended rule (not the source's) reports exactly the first two of distinct cells |
| SelectionFacts.UnselectEventsAsWrittenEnds | library/src/main/java/com/squareup/timessquare/CalendarPickerView.java:704-708 | in RANGE mode, as written, clearing distinct cells reports exactly the first and the last of the list |
| SelectionFacts.DoSelectDateSteps | library/src/main/java/com/squareup/timessquare/CalendarPickerView.java:589-693 | `doSelectDate` resets the selected cells' range states, runs the mode switch, and adds and fills unless the switch dropped the day |
| SelectionFacts.ClearingSelect | library/src/main/java/com/squareup/timessquare/CalendarPickerView.java:594-617 | in SINGLE, RANGE_ON_TWO_SCREENS, and RANGE when the click does not complete a range, the switch clears the old selection before adding |
| SelectionFacts.ClearingEvents | library/src/main/java/com/squareup/timessquare/CalendarPickerView.java:589-617 | when the switch clears, the click reports the unselect events of the selection before it, by the rule as written at 704-708 |
| SelectionFacts.ClearThenAdd | library/src/main/java/com/squareup/timessquare/CalendarPickerView.java:589-625 | clearing and then adding the picked cell leaves that cell the only selected one, its day the only selected date, and the old cells deselected with their range states reset |
| SelectionFacts.SingleModeReplaces | library/src/main/java/com/squareup/timessquare/CalendarPickerView.java:39-42 | in SINGLE mode a click is accepted, the picked cell becomes the only selected cell and its day the only selected date, and every cell selected before is deselected |
| SelectionFacts.SingleModeEvents | library/src/main/java/com/squareup/timessquare/CalendarPickerView.java:612-614 | in SINGLE mode a click reports every previously selected cell's day unselected, in list order |
| SelectionFacts.MultiSelectAbsent | library/src/main/java/com/squareup/timessquare/CalendarPickerView.java:718-735 | `applyMultiSelect` on a day that is not selected changes nothing and keeps the date |
| SelectionFacts.MultipleModeAdds | library/src/main/java/com/squareup/timessquare/CalendarPickerView.java:608-625 | in MULTIPLE mode a day not yet selected is accepted and appended, cell and date, and selected; no other cell's selection changes and nothing is reported |
| SelectionFacts.MultipleModeRemoves | library/src/main/java/com/squareup/timessquare/CalendarPickerView.java:718-735 | in MULTIPLE mode a click on a selected day returns false, deselects and drops the first selected cell on that day and the first selected date on it, adds nothing, and changes no other cell's selection |
| SelectionFacts.MultipleModeToggle | library/src/main/java/com/squareup/timessquare/CalendarPickerView.java:43-46 | in MULTIPLE mode clicking a new day twice selects and then unselects it, restoring both selection lists |
| SelectionFacts.RangeModeCompletes | library/src/main/java/com/squareup/timessquare/CalendarPickerView.java:627-647 | in RANGE mode, with one day selected, a click on a day not before it completes the range: start, end, then the selectable cells strictly between in scan order, marked FIRST, LAST and MIDDLE, the cells between selected, nothing reported |
| SelectionFacts.RangeModeSameCell | library/src/main/java/com/squareup/timessquare/CalendarPickerView.java:619-625 | in RANGE mode a second click on the only selected cell does not add it again but records its day twice, so no range is filled and the next click clears |
| SelectionFacts.RangeModeRestarts | library/src/main/java/com/squareup/timessquare/CalendarPickerView.java:598-606 | in RANGE mode, with a range selected or a click before the single start, the old selection is cleared and reported by the rule as written, and the picked cell is the only one selected |
| SelectionFacts.RangeRestartReportsFirstAndLast | library/src/main/java/com/squareup/timessquare/CalendarPickerView.java:704-708 | restarting a RANGE selection of distinct cells reports the first and the last cell of the list unselected |
| SelectionFacts.RangeRestartReportsEnds | library/src/main/java/com/squareup/timessquare/CalendarPickerView.java:704-708 | the intended rule (the corrected half of the finding, not the source's) reports a RANGE selection's start and end, however many cells lie between |
| SelectionFacts.RangeEndNotReported | library/src/main/java/com/squareup/timessquare/CalendarPickerView.java:704-708 | after a range with a cell between its ends is completed, the next click reports the start and the last MIDDLE cell unselected, never the end; the intended rule reports start and end |
| SelectionFacts.RangeListDistinct | library/src/main/java/com/squareup/timessquare/CalendarPickerView.java:627-647 | the selected list of a completed range holds no cell twice |
| SelectionFacts.ClearingCompletedRange | library/src/main/java/com/squareup/timessquare/CalendarPickerView.java:704-708 | clearing a completed range with the intended rule (not the source's) reports its start and its end |
| SelectionFacts.ClearingCompletedRangeAsWritten | library/src/main/java/com/squareup/timessquare/CalendarPickerView.java:704-708 | clearing a completed range with a cell between its ends, as written, reports the start and a cell strictly inside the range, and not the end |
| SelectionFacts.FindSelectableCellPreserved | library/src/main/java/com/squareup/timessquare/CalendarPickerView.java:786-804 | the lookup by day gives the same cell after any setter calls |
| SelectionFacts.TwoScreensLowerPeak | library/src/main/java/com/squareup/timessquare/CalendarPickerView.java:650-688 | with a lower peak date whose day has a selectable cell, the click clears, selects the picked cell, and fills the range from the peak cell to the picked cell |
| SelectionFacts.TwoScreensHigherPeak | library/src/main/java/com/squareup/timessquare/CalendarPickerView.java:650-688 | with a higher peak date whose day has a selectable cell, the click clears, selects the picked cell, and fills the range from the picked cell to the peak cell |
| SelectionFacts.TwoScreensMissingPeak | library/src/main/java/com/squareup/timessquare/CalendarPickerView.java:653-663 | with a peak day that has no selectable cell the click returns false, yet the old selection is cleared and the picked cell stays selected |
| SelectionFacts.TwoScreensNoPeak | library/src/main/java/com/squareup/timessquare/CalendarPickerView.java:595-597 | RANGE_ON_TWO_SCREENS without a peak date replaces the selection with the picked cell, like SINGLE |
| InitFacts.InitBuilds | library/src/main/java/com/squareup/timessquare/CalendarPickerView.java:214-233 | valid bounds with the minimum not after the maximum always initialise; the months are the loop's list up to the day before `maxDate`, and the cells are their grids |
| InitFacts.InitMonths | library/src/main/java/com/squareup/timessquare/CalendarPickerView.java:214-233 | `init` lists consecutive months from `minDate`'s through the month of the day before `maxDate`, one grid each, with the counter's dates and their labels |
| InitFacts.InitCoversDays | library/src/main/java/com/squareup/timessquare/CalendarPickerView.java:214-233 | every day in [minDate, maxDate) has its month listed, at the index of its distance in months from `minDate`'s month |
| InitFacts.InitMonthsWithin | library/src/main/java/com/squareup/timessquare/CalendarPickerView.java:214-233 | no listed month lies before `minDate`'s month or after the month of the day before `maxDate`, so a `maxDate` on the 1st does not add its month |
| InitFacts.InitCells | library/src/main/java/com/squareup/timessquare/CalendarPickerView.java:195-233 | each month's grid is that month's layout with nothing selected or highlighted |
| InitFacts.InitNothingSelected | library/src/main/java/com/squareup/timessquare/CalendarPickerView.java:195-200 | right after `init` no cell is selected or highlighted and every range state is NONE |

## Findings

| source | as written | input that shows it | evidently intended | confidence | as-written member | corrected member |
|---|---|---|---|---|---|---|
| library/src/main/java/com/squareup/timessquare/CalendarPickerView.java:704-708 | in RANGE mode `clearOldSelections` reports the cells at index 0 and at the last index of the selected list | RANGE mode: click Jan 1, then Jan 4, so the selected cells are [Jan 1, Jan 4, Jan 2, Jan 3]; the next click reports Jan 1 and Jan 3 unselected, and the range's end, Jan 4, never | report the two ends of the range, which the fill keeps at indexes 0 and 1 (the MIDDLE cells are appended after the end) | not executed | SelectionFacts.RangeEndNotReported | SelectionFacts.RangeRestartReportsEnds |

`Picker.UnselectEventsAsWritten` is the rule as written (index 0 or the last index), and `Picker.ClearOldSelections`, `Picker.DoSelectDate` and every entry point built on them use it, so the model reports what the program reports. `Picker.UnselectEvents` is the intended rule (index 0 or 1), and `Picker.ClearOldSelectionsIntended` is `clearOldSelections` with it; `SelectionFacts.RangeRestartReportsEnds` proves that it reports a range's two ends. The two rules agree outside RANGE mode (`Picker.UnselectEventsAgreeOutsideRange`) and whenever no MIDDLE cell was appended: with a single selected day, and with a range that has no selectable day strictly between its ends.

## Left out

- Time of day, time zones, daylight saving, `setMidnight`, and the Julian-Gregorian cutover of `GregorianCalendar` are left out. Dates are whole days in the proleptic Gregorian calendar, and moving `maxCal` back one minute is "the day before `maxDate`".
- A `Date` a caller passes to `selectDate` or `highlightDates` is taken to be midnight of its day. The source passes it on unnormalised, and two consequences of a caller's time of day are not modelled:
  - `validateDate` (line 577) throws for a time after 23:59 on the day before `maxDate`, a day the model accepts;
  - in MULTIPLE mode, `applyMultiSelect` (line 720) matches cells with `Date.equals`, so a time of day on an already selected day does not deselect the cell: only that day's date is dropped (via `sameDate`), the cell is added again unless it is first in the list, and the click returns true. The model deselects it.
- The locale only contributes its first day of the week. A null locale is an absent first weekday.
- Month-name and weekday-name formatting is left out. The month label is an opaque parameter `format`.
- The loop at lines 188-190 of `init` relabels the months of a previous `init`, and the list is cleared right after. It has no effect on the state `init` leaves, so it is left out.
- Listeners are not modelled as objects. The picker is taken to have a date listener and an invalid-date listener, and the events are the calls they would receive. With a null listener the source skips those calls, but the state changes the same way.
- The click interceptor and the date filter become predicates. A null interceptor is `intercept` always false; a null filter is `isDateSelectable` always true.
- The view side is left out: scrolling (`scrollToSelectedDates`, `scrollToSelectedMonth`), `validateAndUpdate` and the adapter, `MonthView`, decorators, typefaces, `displayOnly`, `setShortWeekdays`, and the dialog and fullscreen sizing.
- The single-date forms `withSelectedDate`, `withHighlightedDate`, `highlightDate` and `selectDate(date)` are the list forms on a one-element list, or `selectDate` without a scroll flag, so they have no members of their own.
- `setPeakDate` and `ignoreValidatingDates` only assign a field. Here they are the `peakDate` and `ignoreValidatingDates` fields of the state.
- `withSelectedDates(null)` dereferences the collection before its null check and throws a `NullPointerException`. The model takes a list, so that case is not modelled. Null elements are modelled, and `validateDate` rejects them.
- The `default` branch of the mode switch and the final `else return false` of the peak step cannot be reached. Selection modes and peak dates are closed datatypes here.
- `getMonthCells` is only called from `init`, after the selection and highlight lists were cleared. Its sorting of the selected dates in place therefore never shows in `getSelectedDate`. `Grid.GetMonthCells` still takes arbitrary lists and returns the sorted one.
- `Picker.UnselectEventsAsWritten` and `Picker.UnselectEvents`: their own contracts bound only the number of events. What they report is stated in `Picker.UnselectEventsAreSelectedDays`, `SelectionFacts.UnselectEventsReportAll`, `SelectionFacts.UnselectEventsAsWrittenEnds` and `SelectionFacts.UnselectEventsRangeEnds`.
- `Picker.ModeStep`, `Picker.AddAndFill` and `Picker.DoSelectDate`: their own contracts state only which fields change. Each mode's effect is stated in the `SelectionFacts` lemmas.
