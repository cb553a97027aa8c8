/**
  Minute ranges of a single day, as used by the meeting finder.

  A range is the half-open span [start, end) of minute offsets. Only the
  operations the meeting finder calls are modelled: the two factories, the
  duration, and the notions of containment and separation used to state what
  a free slot is. No invariant start <= end is imposed: the finder builds
  candidate gaps whose end may lie before their start (when events overlap),
  and such gaps simply have a negative duration.
 */
module TimeRanges {

  /** First minute of the day. */
  const START_OF_DAY: int := 0

  /** Last minute of the day (23:59); the day ends just after it. */
  const END_OF_DAY: int := 24 * 60 - 1

  datatype TimeRange = TimeRange(start: int, end: int)

  function Duration(r: TimeRange): int {
    r.end - r.start
  }

  /** True iff minute t lies in the half-open range. */
  predicate Contains(r: TimeRange, t: int) {
    r.start <= t < r.end
  }

  /** True iff one range lies entirely before the other. */
  predicate Separate(x: TimeRange, y: TimeRange) {
    x.end <= y.start || y.end <= x.start
  }

  /** The range [s, s + d). */
  function FromStartDuration(s: int, d: int): (r: TimeRange)
    ensures r.start == s && Duration(r) == d
    ensures forall t :: Contains(r, t) <==> s <= t < s + d
  {
    TimeRange(s, s + d)
  }

  /** The range [s, e), or [s, e] (that is, [s, e + 1)) when `inclusive` holds. */
  function FromStartEnd(s: int, e: int, inclusive: bool): (r: TimeRange)
    ensures r.start == s && r.end == if inclusive then e + 1 else e
    ensures forall t :: Contains(r, t) <==> s <= t && (t < e || (inclusive && t == e))
  {
    TimeRange(s, if inclusive then e + 1 else e)
  }

  /** For ranges that hold at least one minute, being separate is the same
      as sharing no minute. */
  lemma SeparateIffNoCommonMinute(x: TimeRange, y: TimeRange)
    requires x.start < x.end && y.start < y.end
    ensures Separate(x, y) <==> !exists t :: Contains(x, t) && Contains(y, t)
  {
    if !Separate(x, y) {
      var t := if x.start <= y.start then y.start else x.start;
      assert Contains(x, t) && Contains(y, t);
    }
  }

  /** A window inside a range is separate from everything the range is
      separate from. */
  lemma SeparateWithin(w: TimeRange, r: TimeRange, y: TimeRange)
    requires r.start <= w.start && w.end <= r.end
    requires Separate(r, y)
    ensures Separate(w, y)
  {
  }
}
