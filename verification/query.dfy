/**
  The meeting query: keep the events that share an attendee with the request,
  order them by start, close the list with an end-of-day entry, and sweep for
  gaps long enough for the meeting.

  `FindMeetingQuery` recognises its end-of-day entry by the title "EOD". `Query`
  marks it explicitly instead; `QueryByTitle` keeps the title test, and the
  two agree whenever no relevant event is itself titled "EOD".
 */
module MeetingFinder {
  import opened TimeRanges
  import opened Events
  import opened Sorting
  import opened GapSweep

  /** The zero-length range at the last minute of the day that closes the walk. */
  function EndOfDayRange(): (r: TimeRange)
    ensures r.start == r.end == END_OF_DAY
  {
    FromStartDuration(END_OF_DAY, 0)
  }

  /** The walk over a list of events: their ranges in order, then the
      end-of-day marker, which alone widens its gap to the end of the day. */
  function SentinelTerminated(sorted: seq<Event>): (ms: seq<Mark>)
    ensures |ms| == |sorted| + 1
    ensures forall j :: 0 <= j < |sorted| ==> ms[j].when == sorted[j].when
    ensures PlainBeforeLast(ms)
    ensures ms[|sorted|].when == EndOfDayRange() && Reach(ms[|sorted|]) == END_OF_DAY + 1
    ensures SortedByStart(sorted) ==> SortedBeforeLast(ms)
  {
    seq(|sorted|, j requires 0 <= j < |sorted| => Mark(sorted[j].when, false)) + [Mark(EndOfDayRange(), true)]
  }

  /** The free slots around an already filtered and sorted list of events. */
  function MeetingTimes(sorted: seq<Event>, request: MeetingRequest): (r: seq<TimeRange>)
    ensures |r| <= |sorted| + 1
    ensures forall k :: 0 <= k < |r| ==> Duration(r[k]) >= request.duration && r[k].start >= START_OF_DAY
  {
    Sweep(SentinelTerminated(sorted), START_OF_DAY, request.duration)
  }

  /** The same slots, computed the way the Java code computes them: a loop that
      keeps the cursor at the latest end seen so far. */
  method ScanMeetingTimes(sorted: seq<Event>, request: MeetingRequest) returns (open: seq<TimeRange>)
    ensures open == MeetingTimes(sorted, request)
  {
    var eventList := SentinelTerminated(sorted);
    var endOfEarlierEvent := START_OF_DAY;
    open := [];
    var i := 0;
    while i < |eventList|
      invariant 0 <= i <= |eventList|
      invariant open + Sweep(eventList[i..], endOfEarlierEvent, request.duration) == MeetingTimes(sorted, request)
    {
      var cur := eventList[i];
      var timeBetweenEvents := FromStartEnd(endOfEarlierEvent, cur.when.start, cur.inclusiveEnd);
      assert eventList[i..][1..] == eventList[i + 1..];
      if Duration(timeBetweenEvents) >= request.duration {
        open := open + [timeBetweenEvents];
      }
      endOfEarlierEvent := Advance(endOfEarlierEvent, cur.when.end);
      i := i + 1;
    }
  }

  /** The events of the input that constrain the request, ordered by start. */
  function RelevantSorted(events: seq<Event>, request: MeetingRequest): (s: seq<Event>)
    ensures SortedByStart(s)
    ensures multiset(s) == multiset(RemoveEventsWithNoMeetingAttendees(events, request))
  {
    SortByStart(RemoveEventsWithNoMeetingAttendees(events, request))
  }

  /** Every slot of the day long enough for the request in which no attendee
      of the request is busy. At most one more slot than relevant events. */
  function Query(events: seq<Event>, request: MeetingRequest): (r: seq<TimeRange>)
    ensures |r| <= |RemoveEventsWithNoMeetingAttendees(events, request)| + 1
    ensures forall k :: 0 <= k < |r| ==> Duration(r[k]) >= request.duration && r[k].start >= START_OF_DAY
  {
    MeetingTimes(RelevantSorted(events, request), request)
  }

  /** The slots do not depend on which stable sort orders the events: any
      ordering of the relevant events by start that keeps events with equal
      starts in input order yields the same slots as `Query`. With a
      duration of 0 the order of equal-start events can matter, since a
      zero-length event placed first lets a zero-length gap through. */
  lemma QueryAnyStableSort(events: seq<Event>, request: MeetingRequest, sorted: seq<Event>)
    requires SortedByStart(sorted)
    requires forall t :: StartingAt(sorted, t) == StartingAt(RemoveEventsWithNoMeetingAttendees(events, request), t)
    ensures MeetingTimes(sorted, request) == Query(events, request)
  {
    StableSortUnique(RemoveEventsWithNoMeetingAttendees(events, request), sorted);
  }

  /** Why stability matters: with a duration of 0, a zero-length event at
      minute 200 and an event [200, 300) give a zero-length slot at 200 when
      the zero-length event comes first, and none when it comes second. */
  lemma EqualStartOrderMatters()
    ensures var request := MeetingRequest({"A"}, 0);
            var empty := Event("a", TimeRange(200, 200), {"A"});
            var busy := Event("b", TimeRange(200, 300), {"A"});
            && MeetingTimes([empty, busy], request) == [TimeRange(0, 200), TimeRange(200, 200), TimeRange(300, END_OF_DAY + 1)]
            && MeetingTimes([busy, empty], request) == [TimeRange(0, 200), TimeRange(300, END_OF_DAY + 1)]
  {
    var request := MeetingRequest({"A"}, 0);
    var empty := Event("a", TimeRange(200, 200), {"A"});
    var busy := Event("b", TimeRange(200, 300), {"A"});
    var m1 := SentinelTerminated([empty, busy]);
    assert m1[1..][1..] == [m1[2]];
    var m2 := SentinelTerminated([busy, empty]);
    assert m2[1..][1..] == [m2[2]];
  }

  /** A window clashes with no event that constrains the request. */
  predicate Free(events: seq<Event>, request: MeetingRequest, w: TimeRange) {
    forall e :: e in events && Relevant(e, request) ==> Separate(w, e.when)
  }

  /** Every event that constrains the request sits in the sorted list at an
      index before the end-of-day marker. */
  lemma RelevantIndex(events: seq<Event>, request: MeetingRequest, e: Event)
    requires e in events && Relevant(e, request)
    ensures exists j :: 0 <= j < |RelevantSorted(events, request)| && RelevantSorted(events, request)[j] == e
  {
    var s := RelevantSorted(events, request);
    RelevantKept(events, request, e);
    assert e in multiset(s);
    assert e in s;
  }

  /** Every event of the sorted list constrains the request and comes from
      the input. */
  lemma SortedMemberRelevant(events: seq<Event>, request: MeetingRequest, j: int)
    requires 0 <= j < |RelevantSorted(events, request)|
    ensures RelevantSorted(events, request)[j] in events
    ensures Relevant(RelevantSorted(events, request)[j], request)
  {
    var s := RelevantSorted(events, request);
    var e := s[j];
    assert e in multiset(s);
    assert e in RemoveEventsWithNoMeetingAttendees(events, request);
    RelevantKept(events, request, e);
  }

  /** No slot returned clashes with any event that constrains the request. */
  lemma QuerySound(events: seq<Event>, request: MeetingRequest)
    ensures forall k :: 0 <= k < |Query(events, request)| ==> Free(events, request, Query(events, request)[k])
  {
    var s := RelevantSorted(events, request);
    var ms := SentinelTerminated(s);
    forall e | e in events && Relevant(e, request)
      ensures forall k :: 0 <= k < |Query(events, request)| ==> Separate(Query(events, request)[k], e.when)
    {
      RelevantIndex(events, request, e);
      var j :| 0 <= j < |s| && s[j] == e;
      assert ms[j].when == e.when;
      SweepSeparates(ms, START_OF_DAY, request.duration, e.when);
    }
  }

  /** Every window of the day that is long enough for the request and clashes
      with no relevant event lies inside one of the slots returned. */
  lemma QueryComplete(events: seq<Event>, request: MeetingRequest, a: int, b: int)
    requires START_OF_DAY <= a && b <= END_OF_DAY + 1 && b - a >= request.duration
    requires Free(events, request, TimeRange(a, b))
    ensures exists k :: 0 <= k < |Query(events, request)| &&
              Query(events, request)[k].start <= a && b <= Query(events, request)[k].end
  {
    var s := RelevantSorted(events, request);
    var ms := SentinelTerminated(s);
    forall j | 0 <= j < |ms| && Reach(ms[j]) < b
      ensures ms[j].when.end <= a
    {
      assert j < |s|;
      FreeBefore(events, request, a, b, j);
    }
    assert Reach(ms[|ms| - 1]) >= b;
    SweepComplete(ms, START_OF_DAY, request.duration, a, b);
    assert Query(events, request) == Sweep(ms, START_OF_DAY, request.duration);
  }

  /** A relevant event that starts before a free window ends has ended by
      the time the window starts. */
  lemma FreeBefore(events: seq<Event>, request: MeetingRequest, a: int, b: int, j: int)
    requires Free(events, request, TimeRange(a, b))
    requires 0 <= j < |RelevantSorted(events, request)|
    requires RelevantSorted(events, request)[j].when.start < b
    ensures RelevantSorted(events, request)[j].when.end <= a
  {
    SortedMemberRelevant(events, request, j);
  }

  /** A window of the day long enough for the request fits in a returned slot
      exactly when it clashes with no relevant event. */
  lemma QueryFitsIff(events: seq<Event>, request: MeetingRequest, a: int, b: int)
    requires START_OF_DAY <= a && b <= END_OF_DAY + 1 && b - a >= request.duration
    ensures (exists k :: 0 <= k < |Query(events, request)| &&
               Query(events, request)[k].start <= a && b <= Query(events, request)[k].end)
        <==> Free(events, request, TimeRange(a, b))
  {
    var r := Query(events, request);
    if exists k :: 0 <= k < |r| && r[k].start <= a && b <= r[k].end {
      var k :| 0 <= k < |r| && r[k].start <= a && b <= r[k].end;
      QuerySound(events, request);
      assert Free(events, request, r[k]);
      forall e | e in events && Relevant(e, request)
        ensures Separate(TimeRange(a, b), e.when)
      {
        SeparateWithin(TimeRange(a, b), r[k], e.when);
      }
    }
    if Free(events, request, TimeRange(a, b)) {
      QueryComplete(events, request, a, b);
    }
  }

  /** An event whose range lies within the day and does not end before it
      starts. */
  predicate WithinDay(e: Event) {
    START_OF_DAY <= e.when.start <= e.when.end <= END_OF_DAY + 1
  }

  /** For events within the day, the slots lie within the day, come out in
      ascending order and do not overlap. Only `start <= end` depends on the
      duration: a negative one lets gaps that end before they start through. */
  lemma QueryOrdered(events: seq<Event>, request: MeetingRequest)
    requires forall e :: e in events ==> WithinDay(e)
    ensures forall k :: 0 <= k < |Query(events, request)| ==>
              && START_OF_DAY <= Query(events, request)[k].start
              && Query(events, request)[k].end <= END_OF_DAY + 1
              && (request.duration >= 0 ==> Query(events, request)[k].start <= Query(events, request)[k].end)
    ensures forall i, k :: 0 <= i < k < |Query(events, request)| ==>
              Query(events, request)[i].end <= Query(events, request)[k].start
  {
    var s := RelevantSorted(events, request);
    var ms := SentinelTerminated(s);
    forall j | 0 <= j < |ms|
      ensures Reach(ms[j]) <= END_OF_DAY + 1
      ensures j < |ms| - 1 ==> ms[j].when.start <= ms[j].when.end
    {
      if j < |s| {
        SortedMemberRelevant(events, request, j);
        assert WithinDay(s[j]);
      }
    }
    SweepOrdered(ms, START_OF_DAY, request.duration);
    SweepEndsBounded(ms, START_OF_DAY, request.duration, END_OF_DAY + 1);
  }

  /** Every slot is bounded by the day or by relevant events: each starts at
      the start of the day or where a relevant event ends, and ends at the end
      of the day or where a relevant event starts. */
  lemma QueryBoundaries(events: seq<Event>, request: MeetingRequest)
    ensures forall k :: 0 <= k < |Query(events, request)| ==>
              && (Query(events, request)[k].start == START_OF_DAY ||
                  exists e :: e in events && Relevant(e, request) && e.when.end == Query(events, request)[k].start)
              && (Query(events, request)[k].end == END_OF_DAY + 1 ||
                  exists e :: e in events && Relevant(e, request) && e.when.start == Query(events, request)[k].end)
  {
    var s := RelevantSorted(events, request);
    var ms := SentinelTerminated(s);
    var r := Query(events, request);
    SweepBoundaries(ms, START_OF_DAY, request.duration);
    forall k | 0 <= k < |r|
      ensures r[k].start == START_OF_DAY ||
              exists e :: e in events && Relevant(e, request) && e.when.end == r[k].start
      ensures r[k].end == END_OF_DAY + 1 ||
              exists e :: e in events && Relevant(e, request) && e.when.start == r[k].end
    {
      if r[k].start != START_OF_DAY {
        var j :| 0 <= j < |ms| - 1 && r[k].start == ms[j].when.end;
        SortedMemberRelevant(events, request, j);
        assert s[j].when.end == r[k].start;
      }
      var j :| 0 <= j < |ms| && r[k].end == Reach(ms[j]);
      if j < |s| {
        SortedMemberRelevant(events, request, j);
        assert s[j].when.start == r[k].end;
      }
    }
  }

  /** With no relevant event the whole day is the only slot, if the meeting
      fits in a day at all. */
  lemma QueryNoRelevantEvents(events: seq<Event>, request: MeetingRequest)
    requires forall e :: e in events ==> !Relevant(e, request)
    ensures Query(events, request)
         == if END_OF_DAY + 1 - START_OF_DAY >= request.duration
            then [TimeRange(START_OF_DAY, END_OF_DAY + 1)] else []
  {
    var kept := RemoveEventsWithNoMeetingAttendees(events, request);
    if |kept| > 0 {
      RelevantKept(events, request, kept[0]);
      assert false;
    }
    assert kept == [];
    assert RelevantSorted(events, request) == [];
    var ms := SentinelTerminated([]);
    assert ms == [Mark(EndOfDayRange(), true)];
    assert Sweep(ms[1..], Advance(START_OF_DAY, END_OF_DAY), request.duration) == [];
  }

  // ---------------------------------------------------------------------
  // The end-of-day entry recognised by its title, as the Java code does it.
  // ---------------------------------------------------------------------

  /** The synthetic entry the Java code appends: titled "EOD" and attended by
      the request's attendees. */
  function EodEvent(request: MeetingRequest): (e: Event)
    ensures e.title == "EOD" && e.when == EndOfDayRange()
  {
    Event("EOD", EndOfDayRange(), request.attendees)
  }

  /** The walk as the Java code builds it: every entry titled "EOD" widens its gap. */
  function TitleMarks(es: seq<Event>): (ms: seq<Mark>)
    ensures |ms| == |es|
    ensures forall j :: 0 <= j < |es| ==> ms[j].when == es[j].when && (ms[j].inclusiveEnd <==> es[j].title == "EOD")
  {
    seq(|es|, j requires 0 <= j < |es| => Mark(es[j].when, es[j].title == "EOD"))
  }

  /** The query as the Java code writes it: the sentinel is appended as an "EOD" event and the
      inclusive end is chosen by comparing titles. */
  function QueryByTitle(events: seq<Event>, request: MeetingRequest): (r: seq<TimeRange>)
    ensures |r| <= |RemoveEventsWithNoMeetingAttendees(events, request)| + 1
    ensures forall k :: 0 <= k < |r| ==> Duration(r[k]) >= request.duration && r[k].start >= START_OF_DAY
  {
    var sorted := RelevantSorted(events, request);
    Sweep(TitleMarks(sorted + [EodEvent(request)]), START_OF_DAY, request.duration)
  }

  /** The title-based query is still complete: a title test can only widen a
      gap, so every free window of the day that is long enough for the
      request lies inside one of its slots. */
  lemma QueryByTitleComplete(events: seq<Event>, request: MeetingRequest, a: int, b: int)
    requires START_OF_DAY <= a && b <= END_OF_DAY + 1 && b - a >= request.duration
    requires Free(events, request, TimeRange(a, b))
    ensures exists k :: 0 <= k < |QueryByTitle(events, request)| &&
              QueryByTitle(events, request)[k].start <= a && b <= QueryByTitle(events, request)[k].end
  {
    var s := RelevantSorted(events, request);
    var all := s + [EodEvent(request)];
    var ms := TitleMarks(all);
    forall j | 0 <= j < |ms| && Reach(ms[j]) < b
      ensures ms[j].when.end <= a
    {
      assert j < |s|;
      assert all[j] == s[j];
      FreeBefore(events, request, a, b, j);
    }
    assert all[|ms| - 1] == EodEvent(request);
    assert Reach(ms[|ms| - 1]) >= b;
    SweepComplete(ms, START_OF_DAY, request.duration, a, b);
    assert QueryByTitle(events, request) == Sweep(ms, START_OF_DAY, request.duration);
  }

  /** When no relevant event is titled "EOD", the title test picks out the
      sentinel alone and the title-based query returns exactly `Query`. */
  lemma QueryByTitleAgrees(events: seq<Event>, request: MeetingRequest)
    requires forall e :: e in events && Relevant(e, request) ==> e.title != "EOD"
    ensures QueryByTitle(events, request) == Query(events, request)
  {
    var s := RelevantSorted(events, request);
    var byTitle := TitleMarks(s + [EodEvent(request)]);
    var marked := SentinelTerminated(s);
    assert |byTitle| == |marked|;
    forall j | 0 <= j < |byTitle|
      ensures byTitle[j] == marked[j]
    {
      if j < |s| {
        SortedMemberRelevant(events, request, j);
        assert (s + [EodEvent(request)])[j] == s[j];
      } else {
        assert (s + [EodEvent(request)])[j] == EodEvent(request);
      }
    }
    assert byTitle == marked;
  }

  /** A real event titled "EOD" also gets the inclusive end: the slot before
      it then takes in its first minute. */
  lemma EodTitleCounterexample()
    ensures var e := Event("EOD", TimeRange(600, 660), {"ann"});
            var request := MeetingRequest({"ann"}, 30);
            && QueryByTitle([e], request) == [TimeRange(0, 601), TimeRange(660, 1440)]
            && Contains(QueryByTitle([e], request)[0], 600) && Contains(e.when, 600)
            && !Free([e], request, QueryByTitle([e], request)[0])
            && Query([e], request) == [TimeRange(0, 600), TimeRange(660, 1440)]
  {
    var e := Event("EOD", TimeRange(600, 660), {"ann"});
    var request := MeetingRequest({"ann"}, 30);
    assert "ann" in e.attendees * request.attendees;
    assert Relevant(e, request);
    var kept := RemoveEventsWithNoMeetingAttendees([e], request);
    assert kept == [e] + RemoveEventsWithNoMeetingAttendees([], request);
    assert kept == [e];
    assert RelevantSorted([e], request) == [e];
    var byTitle := TitleMarks([e] + [EodEvent(request)]);
    assert byTitle == [Mark(TimeRange(600, 660), true), Mark(TimeRange(END_OF_DAY, END_OF_DAY), true)];
    assert Sweep(byTitle[1..][1..], 1439, 30) == [];
    assert Sweep(byTitle[1..], 660, 30) == [TimeRange(660, 1440)];
    var marked := SentinelTerminated([e]);
    assert marked == [Mark(TimeRange(600, 660), false), Mark(TimeRange(END_OF_DAY, END_OF_DAY), true)];
    assert Sweep(marked[1..][1..], 1439, 30) == [];
    assert Sweep(marked[1..], 660, 30) == [TimeRange(660, 1440)];
  }
}
