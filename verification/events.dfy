/**
  Events, meeting requests, and the relevance filter: an event constrains a
  meeting exactly when it shares at least one attendee with the request.
 */
module Events {
  import opened TimeRanges

  /** A busy period: a label, its time range, and who attends it. */
  datatype Event = Event(title: string, when: TimeRange, attendees: set<string>)

  /** The attendees the meeting is for and how many minutes it needs. */
  datatype MeetingRequest = MeetingRequest(attendees: set<string>, duration: int)

  /** True iff some attendee of the event is also an attendee of the meeting.
      `FindMeetingQuery` intersects a private copy of the event's attendee set and
      tests it for emptiness; here the intersection is a fresh value, so
      neither input changes. */
  function EventParticipantInMeeting(eventAttendees: set<string>, meetingAttendees: set<string>): (r: bool)
    ensures r <==> exists a :: a in eventAttendees && a in meetingAttendees
  {
    var retained := eventAttendees * meetingAttendees;
    assert forall a :: a in eventAttendees && a in meetingAttendees ==> a in retained;
    if retained == {} then
      false
    else
      HasMember(retained);
      true
  }

  lemma HasMember<T>(s: set<T>)
    requires s != {}
    ensures exists x :: x in s
  {
    var x :| x in s;
  }

  /** An event that constrains the request. */
  predicate Relevant(e: Event, request: MeetingRequest) {
    EventParticipantInMeeting(e.attendees, request.attendees)
  }

  /** The events that share an attendee with the request, in their original
      order. Each relevant event is kept as many times as it occurs; every
      other event is dropped. */
  function RemoveEventsWithNoMeetingAttendees(events: seq<Event>, request: MeetingRequest): (r: seq<Event>)
    ensures forall i :: 0 <= i < |r| ==> Relevant(r[i], request)
    ensures |r| <= |events|
  {
    if |events| == 0 then
      []
    else
      var rest := RemoveEventsWithNoMeetingAttendees(events[1..], request);
      if Relevant(events[0], request) then [events[0]] + rest else rest
  }

  /** Filtering removes nothing else: each relevant event is kept exactly as
      often as it occurs, and every other event is dropped. */
  lemma {:induction false} RemoveEventsCounts(events: seq<Event>, request: MeetingRequest)
    ensures var r := RemoveEventsWithNoMeetingAttendees(events, request);
      forall e :: multiset(r)[e] == if Relevant(e, request) then multiset(events)[e] else 0
  {
    if |events| > 0 {
      assert events == [events[0]] + events[1..];
      RemoveEventsCounts(events[1..], request);
    }
  }

  /** Filtering distributes over concatenation: the kept events keep their
      relative order. */
  lemma {:induction false} RemoveEventsKeepsOrder(a: seq<Event>, b: seq<Event>, request: MeetingRequest)
    ensures RemoveEventsWithNoMeetingAttendees(a + b, request)
         == RemoveEventsWithNoMeetingAttendees(a, request) + RemoveEventsWithNoMeetingAttendees(b, request)
  {
    if |a| == 0 {
      assert a + b == b;
    } else {
      var head := if Relevant(a[0], request) then [a[0]] else [];
      assert (a + b)[0] == a[0];
      assert (a + b)[1..] == a[1..] + b;
      assert RemoveEventsWithNoMeetingAttendees(a + b, request)
          == head + RemoveEventsWithNoMeetingAttendees(a[1..] + b, request);
      RemoveEventsKeepsOrder(a[1..], b, request);
      assert RemoveEventsWithNoMeetingAttendees(a, request)
          == head + RemoveEventsWithNoMeetingAttendees(a[1..], request);
    }
  }

  /** An event of the input is in the filtered list iff it is relevant. */
  lemma RelevantKept(events: seq<Event>, request: MeetingRequest, e: Event)
    ensures e in RemoveEventsWithNoMeetingAttendees(events, request) <==> e in events && Relevant(e, request)
  {
    var r := RemoveEventsWithNoMeetingAttendees(events, request);
    RemoveEventsCounts(events, request);
    assert e in r <==> multiset(r)[e] > 0;
    assert e in events <==> multiset(events)[e] > 0;
  }
}
