/**
  `MonthCellDescriptor`: one day as shown in a month's grid. The date, the
  day-of-month value and the current-month, today and selectable flags are fixed
  when the cell is built; only the selected and highlighted flags and the range
  state change afterwards, through the three setters.
*/
module MonthCells {
  import opened Dates

  /** A cell's place in a selected range. */
  datatype RangeState = NONE | FIRST | MIDDLE | LAST

  /** `ordinal()`: the position of a value in the declaration. */
  function Ordinal(s: RangeState): nat {
    match s
    case NONE => 0
    case FIRST => 1
    case MIDDLE => 2
    case LAST => 3
  }

  /** `values()`: the enum's four values in declaration order, each once. */
  function AllRangeStates(): (r: seq<RangeState>)
    ensures |r| == 4
    ensures forall s: RangeState :: Ordinal(s) < |r| && r[Ordinal(s)] == s
    ensures forall i, j | 0 <= i < j < |r| :: r[i] != r[j]
  {
    [NONE, FIRST, MIDDLE, LAST]
  }

  /** Fields in the order the class declares them. */
  datatype Cell = Cell(
    date: Date,
    value: int,
    isCurrentMonth: bool,
    isSelected: bool,
    isToday: bool,
    isSelectable: bool,
    isHighlighted: bool,
    rangeState: RangeState)

  /**
    The constructor, with the class's argument order: date, current-month,
    selectable, selected, today, highlighted, value, range state.
  */
  function NewCell(date: Date, currentMonth: bool, selectable: bool, selected: bool,
                   today: bool, highlighted: bool, value: int, rangeState: RangeState): (c: Cell)
    ensures c.date == date && c.value == value && c.rangeState == rangeState
    ensures c.isCurrentMonth == currentMonth && c.isSelectable == selectable
    ensures c.isSelected == selected && c.isToday == today && c.isHighlighted == highlighted
  {
    Cell(date, value, currentMonth, selected, today, selectable, highlighted, rangeState)
  }

  /** The fields that never change after construction. */
  predicate SameFixedFields(a: Cell, b: Cell) {
    && a.date == b.date
    && a.value == b.value
    && a.isCurrentMonth == b.isCurrentMonth
    && a.isToday == b.isToday
    && a.isSelectable == b.isSelectable
  }

  function SetSelected(c: Cell, selected: bool): (r: Cell)
    ensures r.isSelected == selected
    ensures SameFixedFields(c, r)
    ensures r.isHighlighted == c.isHighlighted && r.rangeState == c.rangeState
  {
    c.(isSelected := selected)
  }

  function SetHighlighted(c: Cell, highlighted: bool): (r: Cell)
    ensures r.isHighlighted == highlighted
    ensures SameFixedFields(c, r)
    ensures r.isSelected == c.isSelected && r.rangeState == c.rangeState
  {
    c.(isHighlighted := highlighted)
  }

  function SetRangeState(c: Cell, rangeState: RangeState): (r: Cell)
    ensures r.rangeState == rangeState
    ensures SameFixedFields(c, r)
    ensures r.isSelected == c.isSelected && r.isHighlighted == c.isHighlighted
  {
    c.(rangeState := rangeState)
  }

  /** A call of one of the three setters. */
  datatype Mutation = Select(selected: bool) | Highlight(highlighted: bool) | Range(state: RangeState)

  function Apply(c: Cell, op: Mutation): Cell {
    match op
    case Select(b) => SetSelected(c, b)
    case Highlight(b) => SetHighlighted(c, b)
    case Range(s) => SetRangeState(c, s)
  }

  function ApplyAll(c: Cell, ops: seq<Mutation>): Cell
    decreases |ops|
  {
    if |ops| == 0 then c else ApplyAll(Apply(c, ops[0]), ops[1..])
  }

  /** No sequence of setter calls changes a field the class declares `final`. */
  lemma {:induction false} FixedFieldsNeverChange(c: Cell, ops: seq<Mutation>)
    ensures SameFixedFields(c, ApplyAll(c, ops))
    decreases |ops|
  {
    if |ops| > 0 {
      FixedFieldsNeverChange(Apply(c, ops[0]), ops[1..]);
    }
  }
}
