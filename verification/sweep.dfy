/**
  The gap sweep: a cursor walks over the busy ranges in order. Before each
  busy range the gap [cursor, start of the range) is a candidate slot, kept
  when it is at least the requested number of minutes long; the cursor then
  moves to the latest end seen so far. The last entry of the walk is the
  end-of-day marker, whose gap reaches one minute past its start.
 */
module GapSweep {
  import opened TimeRanges

  /** One step of the walk: a busy range, and whether the gap before it
      reaches one minute past its start (true only for the end-of-day
      marker). */
  datatype Mark = Mark(when: TimeRange, inclusiveEnd: bool)

  /** How far the gap before a step reaches: the start of its busy range,
      or one minute past it for the end-of-day marker. */
  function Reach(m: Mark): int {
    if m.inclusiveEnd then m.when.start + 1 else m.when.start
  }

  /** The candidate slot between the cursor and the next busy range. */
  function GapBefore(cursor: int, m: Mark): (r: TimeRange)
    ensures r.start == cursor && r.end == Reach(m)
  {
    FromStartEnd(cursor, m.when.start, m.inclusiveEnd)
  }

  /** The cursor after passing a busy range that ends at `end`: it never
      moves backwards, so a range nested in an earlier one leaves it where
      it is. */
  function Advance(cursor: int, end: int): (c: int)
    ensures c >= cursor && c >= end
    ensures c == cursor || c == end
  {
    if end >= cursor then end else cursor
  }

  /** The slots found by walking `ms` from `cursor`: every gap of at least
      `d` minutes, in the order met. */
  function Sweep(ms: seq<Mark>, cursor: int, d: int): (r: seq<TimeRange>)
    ensures |r| <= |ms|
    ensures forall k :: 0 <= k < |r| ==> Duration(r[k]) >= d && r[k].start >= cursor
    decreases |ms|
  {
    if |ms| == 0 then
      []
    else
      var gap := GapBefore(cursor, ms[0]);
      var rest := Sweep(ms[1..], Advance(cursor, ms[0].when.end), d);
      if Duration(gap) >= d then [gap] + rest else rest
  }

  /** Only the last step of the walk may widen its gap. */
  predicate PlainBeforeLast(ms: seq<Mark>) {
    forall j :: 0 <= j < |ms| - 1 ==> !ms[j].inclusiveEnd
  }

  /** The busy ranges before the last step are ordered by start. */
  predicate SortedBeforeLast(ms: seq<Mark>) {
    forall i, j :: 0 <= i < j < |ms| - 1 ==> ms[i].when.start <= ms[j].when.start
  }

  /** No slot found overlaps a busy range `w` that is either already behind
      the cursor or still ahead of it in the walk (a slot may end exactly
      where `w` starts, or start where it ends). */
  lemma {:induction false} SweepSeparates(ms: seq<Mark>, cursor: int, d: int, w: TimeRange)
    requires |ms| > 0
    requires PlainBeforeLast(ms) && SortedBeforeLast(ms)
    requires w.end <= cursor || exists j :: 0 <= j < |ms| - 1 && ms[j].when == w
    ensures forall k :: 0 <= k < |Sweep(ms, cursor, d)| ==> Separate(Sweep(ms, cursor, d)[k], w)
  {
    var gap := GapBefore(cursor, ms[0]);
    var next := Advance(cursor, ms[0].when.end);
    if |ms| == 1 {
      assert w.end <= cursor;
      assert Separate(gap, w);
      assert Sweep(ms, cursor, d) == (if Duration(gap) >= d then [gap] else []);
    } else {
      var tail := ms[1..];
      assert PlainBeforeLast(tail) && SortedBeforeLast(tail);
      if w.end <= cursor {
        assert Separate(gap, w);
        assert w.end <= next;
      } else {
        var j :| 0 <= j < |ms| - 1 && ms[j].when == w;
        assert gap.end == ms[0].when.start <= w.start;
        assert Separate(gap, w);
        if j == 0 {
          assert w.end <= next;
        } else {
          assert tail[j - 1].when == w;
        }
      }
      SweepSeparates(tail, next, d, w);
    }
  }

  /** When every busy range before the last step ends no earlier than it
      starts, the slots found come out in ascending order and do not overlap:
      each one ends no later than the next one starts. This holds for any
      `d`, even a negative one that lets gaps of negative length through. */
  lemma {:induction false} SweepOrdered(ms: seq<Mark>, cursor: int, d: int)
    requires PlainBeforeLast(ms)
    requires forall j :: 0 <= j < |ms| - 1 ==> ms[j].when.start <= ms[j].when.end
    ensures forall i, k :: 0 <= i < k < |Sweep(ms, cursor, d)| ==>
      Sweep(ms, cursor, d)[i].end <= Sweep(ms, cursor, d)[k].start
  {
    if |ms| > 0 {
      var gap := GapBefore(cursor, ms[0]);
      var next := Advance(cursor, ms[0].when.end);
      var tail := ms[1..];
      var rest := Sweep(tail, next, d);
      SweepOrdered(tail, next, d);
      var r := Sweep(ms, cursor, d);
      if |ms| > 1 {
        assert gap.end <= next;
        if Duration(gap) >= d {
          assert r == [gap] + rest;
          forall i, k | 0 <= i < k < |r|
            ensures r[i].end <= r[k].start
          {
            if i == 0 {
              assert r[k] == rest[k - 1];
            } else {
              assert r[i] == rest[i - 1] && r[k] == rest[k - 1];
            }
          }
        }
      } else {
        assert rest == [];
      }
    }
  }

  /** Every window [a, b) of at least `d` minutes that starts at or after the
      cursor, ends no later than some step's gap reaches, and is clear of every
      busy range passed before that, lies inside one slot found. */
  lemma {:induction false} SweepComplete(ms: seq<Mark>, cursor: int, d: int, a: int, b: int)
    requires |ms| > 0
    requires cursor <= a && b - a >= d
    requires Reach(ms[|ms| - 1]) >= b
    requires forall j :: 0 <= j < |ms| && Reach(ms[j]) < b ==> ms[j].when.end <= a
    ensures exists k ::
              0 <= k < |Sweep(ms, cursor, d)| &&
              Sweep(ms, cursor, d)[k].start <= a && b <= Sweep(ms, cursor, d)[k].end
  {
    var gap := GapBefore(cursor, ms[0]);
    var next := Advance(cursor, ms[0].when.end);
    var r := Sweep(ms, cursor, d);
    if gap.end >= b {
      assert Duration(gap) >= d;
      assert r[0] == gap;
      assert r[0].start <= a && b <= r[0].end;
    } else {
      assert ms[0].when.end <= a;
      assert |ms| > 1;
      var tail := ms[1..];
      SweepComplete(tail, next, d, a, b);
      var rest := Sweep(tail, next, d);
      var k :| 0 <= k < |rest| && rest[k].start <= a && b <= rest[k].end;
      if Duration(gap) >= d {
        assert r[k + 1] == rest[k];
      } else {
        assert r[k] == rest[k];
      }
    }
  }

  /** Where the slots found begin and end: each starts at the cursor or where
      some busy range passed before the last step ends, and each ends where
      some step's gap reaches. */
  lemma {:induction false} SweepBoundaries(ms: seq<Mark>, cursor: int, d: int)
    ensures forall k :: 0 <= k < |Sweep(ms, cursor, d)| ==>
              && (Sweep(ms, cursor, d)[k].start == cursor ||
                  exists j :: 0 <= j < |ms| - 1 && Sweep(ms, cursor, d)[k].start == ms[j].when.end)
              && exists j :: 0 <= j < |ms| && Sweep(ms, cursor, d)[k].end == Reach(ms[j])
  {
    if |ms| > 0 {
      var gap := GapBefore(cursor, ms[0]);
      var next := Advance(cursor, ms[0].when.end);
      var tail := ms[1..];
      var rest := Sweep(tail, next, d);
      var r := Sweep(ms, cursor, d);
      SweepBoundaries(tail, next, d);
      assert r == if Duration(gap) >= d then [gap] + rest else rest;
      var shift := if Duration(gap) >= d then 1 else 0;
      forall k | 0 <= k < |r|
        ensures r[k].start == cursor || exists j :: 0 <= j < |ms| - 1 && r[k].start == ms[j].when.end
        ensures exists j :: 0 <= j < |ms| && r[k].end == Reach(ms[j])
      {
        if k < shift {
          assert r[k] == gap && gap.end == Reach(ms[0]);
        } else {
          var x := rest[k - shift];
          assert r[k] == x;
          if x.start != next {
            var j :| 0 <= j < |tail| - 1 && x.start == tail[j].when.end;
            assert ms[j + 1] == tail[j];
          } else if next != cursor {
            assert |tail| > 0;
            assert x.start == ms[0].when.end;
          }
          var j :| 0 <= j < |tail| && x.end == Reach(tail[j]);
          assert ms[j + 1] == tail[j];
        }
      }
    }
  }

  /** Every slot found ends no later than the furthest reach of any step. */
  lemma {:induction false} SweepEndsBounded(ms: seq<Mark>, cursor: int, d: int, hi: int)
    requires forall j :: 0 <= j < |ms| ==> Reach(ms[j]) <= hi
    ensures forall k :: 0 <= k < |Sweep(ms, cursor, d)| ==> Sweep(ms, cursor, d)[k].end <= hi
  {
    if |ms| > 0 {
      var tail := ms[1..];
      SweepEndsBounded(tail, Advance(cursor, ms[0].when.end), d, hi);
    }
  }
}
