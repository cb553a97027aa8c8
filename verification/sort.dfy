/**
  Ordering the relevant events by start time. `FindMeetingQuery` hands a comparator
  on start times to the library sort; here an insertion sort on sequences
  plays that part. An event is placed before the first event that does not
  start earlier, so events with equal starts keep their input order.
 */
module Sorting {
  import opened TimeRanges
  import opened Events

  predicate SortedByStart(s: seq<Event>) {
    forall i, j :: 0 <= i < j < |s| ==> s[i].when.start <= s[j].when.start
  }

  /** Inserts one event into a list already ordered by start. */
  function InsertByStart(e: Event, s: seq<Event>): (r: seq<Event>)
    requires SortedByStart(s)
    ensures SortedByStart(r)
    ensures multiset(r) == multiset(s) + multiset{e}
    ensures |r| == |s| + 1
  {
    if |s| == 0 then
      [e]
    else if e.when.start <= s[0].when.start then
      [e] + s
    else
      assert s == [s[0]] + s[1..];
      var rest := InsertByStart(e, s[1..]);
      LowerBoundKept(s[0].when.start, e, s[1..], rest);
      [s[0]] + rest
  }

  /** A lower bound on the starts of `e` and of `s` bounds every start of a
      list holding the same events. */
  lemma LowerBoundKept(lo: int, e: Event, s: seq<Event>, r: seq<Event>)
    requires lo <= e.when.start
    requires forall i :: 0 <= i < |s| ==> lo <= s[i].when.start
    requires multiset(r) == multiset(s) + multiset{e}
    ensures forall i :: 0 <= i < |r| ==> lo <= r[i].when.start
  {
    forall i | 0 <= i < |r|
      ensures lo <= r[i].when.start
    {
      assert r[i] in multiset(r);
      if r[i] != e {
        assert r[i] in multiset(s);
        assert r[i] in s;
      }
    }
  }

  /** The events in non-decreasing order of start time; the same events,
      each as often as in the input. */
  function SortByStart(s: seq<Event>): (r: seq<Event>)
    ensures SortedByStart(r)
    ensures multiset(r) == multiset(s)
    ensures |r| == |s|
  {
    if |s| == 0 then
      []
    else
      assert s == [s[0]] + s[1..];
      InsertByStart(s[0], SortByStart(s[1..]))
  }

  /** The events of `s` that start at minute `t`, in their order in `s`. */
  function StartingAt(s: seq<Event>, t: int): (r: seq<Event>)
    ensures forall i :: 0 <= i < |r| ==> r[i].when.start == t
    ensures |r| <= |s|
  {
    if |s| == 0 then
      []
    else
      var rest := StartingAt(s[1..], t);
      if s[0].when.start == t then [s[0]] + rest else rest
  }

  /** Inserting puts the new event ahead of every event with the same start. */
  lemma {:induction false} InsertStartingAt(e: Event, s: seq<Event>, t: int)
    requires SortedByStart(s)
    ensures StartingAt(InsertByStart(e, s), t)
         == (if e.when.start == t then [e] else []) + StartingAt(s, t)
  {
    var r := InsertByStart(e, s);
    if |s| == 0 {
      assert r == [e] && r[1..] == [];
    } else if e.when.start <= s[0].when.start {
      assert r == [e] + s && r[1..] == s;
    } else {
      InsertStartingAt(e, s[1..], t);
      assert r[0] == s[0] && r[1..] == InsertByStart(e, s[1..]);
    }
  }

  /** The sort is stable: for every start time, the events starting then come
      out in the order they went in. */
  lemma {:induction false} SortByStartStable(s: seq<Event>, t: int)
    ensures StartingAt(SortByStart(s), t) == StartingAt(s, t)
  {
    if |s| > 0 {
      SortByStartStable(s[1..], t);
      InsertStartingAt(s[0], SortByStart(s[1..]), t);
    }
  }

  /** No event of a list whose starts are all above `t` starts at `t`. */
  lemma {:induction false} NoneStartingAt(s: seq<Event>, t: int)
    requires forall i :: 0 <= i < |s| ==> s[i].when.start > t
    ensures StartingAt(s, t) == []
  {
    if |s| > 0 {
      NoneStartingAt(s[1..], t);
    }
  }

  /** A list ordered by start that keeps the events of each start time in
      the order `s` has them is exactly `SortByStart(s)`: any stable sort by
      start gives the same list. */
  lemma {:induction false} StableSortUnique(s: seq<Event>, r: seq<Event>)
    requires SortedByStart(r)
    requires forall t :: StartingAt(r, t) == StartingAt(s, t)
    ensures r == SortByStart(s)
  {
    var q := SortByStart(s);
    forall t
      ensures StartingAt(r, t) == StartingAt(q, t)
    {
      SortByStartStable(s, t);
    }
    SortedSameGroupsEqual(r, q);
  }

  /** Two lists ordered by start with the same events at each start time, in
      the same order, are equal. */
  lemma {:induction false} SortedSameGroupsEqual(x: seq<Event>, y: seq<Event>)
    requires SortedByStart(x) && SortedByStart(y)
    requires forall t :: StartingAt(x, t) == StartingAt(y, t)
    ensures x == y
  {
    if |x| > 0 {
      assert StartingAt(x, x[0].when.start) != [];
    }
    if |y| > 0 {
      assert StartingAt(y, y[0].when.start) != [];
    }
    if |x| > 0 && |y| > 0 {
      var tx := x[0].when.start;
      var ty := y[0].when.start;
      if tx < ty {
        NoneStartingAt(y, tx);
      } else if ty < tx {
        NoneStartingAt(x, ty);
      } else {
        assert StartingAt(x, tx) == [x[0]] + StartingAt(x[1..], tx);
        assert StartingAt(y, tx) == [y[0]] + StartingAt(y[1..], tx);
        assert x[0] == StartingAt(x, tx)[0] == StartingAt(y, tx)[0] == y[0];
        forall t
          ensures StartingAt(x[1..], t) == StartingAt(y[1..], t)
        {
          if t == tx {
            assert StartingAt(x, t)[1..] == StartingAt(x[1..], t);
            assert StartingAt(y, t)[1..] == StartingAt(y[1..], t);
          } else {
            assert StartingAt(x, t) == StartingAt(x[1..], t);
            assert StartingAt(y, t) == StartingAt(y[1..], t);
          }
        }
        SortedSameGroupsEqual(x[1..], y[1..]);
        assert x == [x[0]] + x[1..] && y == [y[0]] + y[1..];
      }
    }
  }
}
