/** `MonthDescriptor`: one month of the picker, with its (mutable) display label. */
module Months {
  import opened Dates

  datatype MonthDescriptor = MonthDescriptor(month: int, year: int, date: Date, labelText: string)

  /** The constructor: the getters return the arguments it was given. */
  function NewMonth(month: int, year: int, date: Date, labelText: string): (r: MonthDescriptor)
    ensures r.month == month && r.year == year && r.date == date && r.labelText == labelText
  {
    MonthDescriptor(month, year, date, labelText)
  }

  /** `setLabel`: `getLabel` then returns the new label; month, year and date are kept. */
  function SetLabel(md: MonthDescriptor, labelText: string): (r: MonthDescriptor)
    ensures r.labelText == labelText
    ensures r.month == md.month && r.year == md.year && r.date == md.date
  {
    md.(labelText := labelText)
  }

  /** `sameMonth`: a date lies in the described month. */
  predicate SameMonth(d: Date, md: MonthDescriptor) {
    d.month == md.month && d.year == md.year
  }
}
