/**
  `Collections.sort` on lists of dates (`Calendar` and `Date` compare
  chronologically). Dates that compare equal are equal values here, so any
  sort, stable or not, yields the same sequence.
*/
module Sorting {
  import opened Dates

  predicate Sorted(s: seq<Date>) {
    forall i, j | 0 <= i < j < |s| :: !Before(s[j], s[i])
  }

  /** Inserts `x` into the sorted sequence `s`, before the first element later than `x`. */
  function Insert(x: Date, s: seq<Date>): (r: seq<Date>)
    requires Sorted(s)
    ensures Sorted(r)
    ensures multiset(r) == multiset(s) + multiset{x}
  {
    if |s| == 0 then [x]
    else if !Before(s[0], x) then [x] + s
    else
      var rest := Insert(x, s[1..]);
      assert s == [s[0]] + s[1..];
      var r := [s[0]] + rest;
      forall i, j | 0 <= i < j < |r|
        ensures !Before(r[j], r[i])
      {
        assert r[j] == rest[j - 1];
        if i == 0 {
          assert rest[j - 1] in multiset(s[1..]) + multiset{x};
          if rest[j - 1] != x {
            assert rest[j - 1] in s[1..];
          }
        } else {
          assert r[i] == rest[i - 1];
        }
      }
      r
  }

  function SortDates(s: seq<Date>): (r: seq<Date>)
    ensures Sorted(r)
    ensures multiset(r) == multiset(s)
  {
    if |s| == 0 then []
    else
      assert s == [s[0]] + s[1..];
      Insert(s[0], SortDates(s[1..]))
  }

  /** The first element of a sorted sequence is its earliest date, the last its latest. */
  lemma SortedEnds(s: seq<Date>)
    requires Sorted(s) && |s| > 0
    ensures forall x | x in s :: !Before(x, s[0]) && !Before(s[|s| - 1], x)
  {
  }
}
