# Meeting-slot finder

A Dafny model of `FindMeetingQuery.query`, the free-slot finder of the week-5 walkthrough. It takes a
collection of events and a meeting request. Each event is a time range plus a set of attendee names;
the request is a set of attendee names plus a duration in minutes. The query returns every gap in the
day that is long enough for the meeting and in which none of the request's attendees is busy.

The query works in four steps, and the model follows them:

1. **Relevance filter** (`Events`): keep the events that share at least one attendee with the request.
   Their relative order is kept.
2. **Sort** (`Sorting`): order the kept events by start time. This is an insertion sort on sequences;
   `FindMeetingQuery` uses `Collections.sort` with a comparator on start times. Both sorts are
   stable, so they give the same list (`Sorting.StableSortUnique`, `MeetingFinder.QueryAnyStableSort`).
   Stability matters: with a duration of 0, the order of events with equal starts can change the
   result (`MeetingFinder.EqualStartOrderMatters`).
3. **Sentinel** (`MeetingFinder.SentinelTerminated`): close the list with a zero-length entry at the
   last minute of the day. This is the only entry whose gap is widened by one minute, so the last slot
   of the day includes the final minute.
4. **Gap sweep** (`GapSweep.Sweep`, and the loop `MeetingFinder.ScanMeetingTimes`): a cursor starts at
   the start of the day. Before each entry, the gap `[cursor, start)` is kept if it is at least the
   requested duration. The cursor then moves to the latest end seen so far and never moves back.

Time ranges are half-open minute spans `[start, end)` (`TimeRanges`). `START_OF_DAY = 0` and
`END_OF_DAY = 1439` (23:59), so the day is `[0, 1440)`. The `TimeRange`, `Event` and `MeetingRequest`
classes are not part of this model. Only the operations the query uses are modelled:
`fromStartDuration`, `fromStartEnd` with its inclusive flag, `duration`, and the two day constants.

A window is *free* when it is separate from every relevant event, that is, entirely before or
entirely after it (`MeetingFinder.Free`). For ranges that hold at least one minute, this is the same as
sharing no minute (`TimeRanges.SeparateIffNoCommonMinute`). A zero-length event that lies strictly
inside a window counts as a clash. The sweep behaves the same way: it moves the cursor to that event
and splits the gap there.

The headline result is `MeetingFinder.QueryFitsIff`. Take any window of the day that is at least the
requested duration. It fits inside some returned slot exactly when it is free. Soundness and
completeness need no assumption on the events. `MeetingFinder.QueryOrdered` adds that, for events
within the day, the slots lie within the day and come out ascending and non-overlapping; a slot's start
is at most its end only for a non-negative duration. `MeetingFinder.QueryBoundaries` shows where slots begin and end: each starts at the
start of the day or where a relevant event ends, and ends at the end of the day or where a relevant
event starts. This does not make every slot maximal: with a duration of 0, a zero-length slot
between a zero-length event and an event starting at the same minute lies inside a longer free window.

Two points about the code that shape the model:

- The code makes a single pass over `request.getAttendees()`. It has no fallback from mandatory plus
  optional attendees to mandatory attendees only. So `MeetingRequest` here holds one attendee set and
  a duration.
- The code recognises the sentinel by its title, `"EOD".equals(title)`. `Query` uses an explicit flag
  instead, and `QueryByTitle` keeps the title test. `QueryByTitleAgrees` proves that the two agree
  unless a relevant event is titled "EOD" (see Findings).

## Model

| member | source | states |
|---|---|---|
| `TimeRanges.FromStartDuration` | walkthroughs/week-5-tdd/project/src/main/java/com/google/sps/FindMeetingQuery.java:79-81 | the range built from a start and a duration holds exactly the minutes `s <= t < s + d`; its duration is `d` |
| `TimeRanges.FromStartEnd` | walkthroughs/week-5-tdd/project/src/main/java/com/google/sps/FindMeetingQuery.java:93-94 | the gap is `[s, e)`, or `[s, e + 1)` when the end is inclusive: it holds the minutes from `s` before `e`, plus `e` itself exactly when inclusive |
| `GapSweep.GapBefore` | walkthroughs/week-5-tdd/project/src/main/java/com/google/sps/FindMeetingQuery.java:87-94 | the candidate gap starts at the cursor and ends at the next entry's start, one minute later for an inclusive entry |
| `Events.EventParticipantInMeeting` | walkthroughs/week-5-tdd/project/src/main/java/com/google/sps/FindMeetingQuery.java:36-43 | true iff some attendee of the event is also a meeting attendee; computed on a fresh intersection, so neither input changes |
| `Events.RemoveEventsWithNoMeetingAttendees` | walkthroughs/week-5-tdd/project/src/main/java/com/google/sps/FindMeetingQuery.java:53-61 | every kept event shares an attendee with the request, and the result is never longer than the input |
| `Events.RemoveEventsCounts` | walkthroughs/week-5-tdd/project/src/main/java/com/google/sps/FindMeetingQuery.java:53-61 | each relevant event is kept exactly as often as it occurs in the input; every irrelevant event is dropped |
| `Events.RemoveEventsKeepsOrder` | walkthroughs/week-5-tdd/project/src/main/java/com/google/sps/FindMeetingQuery.java:53-61 | filtering distributes over concatenation, so the kept events keep their relative order |
| `Events.RelevantKept` | walkthroughs/week-5-tdd/project/src/main/java/com/google/sps/FindMeetingQuery.java:53-61 | an event is in the filtered list iff it is in the input and shares an attendee with the request |
| `Sorting.InsertByStart` | walkthroughs/week-5-tdd/project/src/main/java/com/google/sps/FindMeetingQuery.java:128-135 | inserting into a list ordered by start keeps it ordered and adds exactly the one event |
| `Sorting.SortByStart` | walkthroughs/week-5-tdd/project/src/main/java/com/google/sps/FindMeetingQuery.java:128-135 | the result is ordered by start and is a permutation of the input |
| `Sorting.SortByStartStable` | walkthroughs/week-5-tdd/project/src/main/java/com/google/sps/FindMeetingQuery.java:128-135 | the sort is stable: for every start time, the events with that start come out in their input order |
| `Sorting.StableSortUnique` | walkthroughs/week-5-tdd/project/src/main/java/com/google/sps/FindMeetingQuery.java:128-135 | any list ordered by start that keeps equal-start events in input order equals `SortByStart`, so any stable sort (such as `Collections.sort`) gives the same list |
| `GapSweep.Advance` | walkthroughs/week-5-tdd/project/src/main/java/com/google/sps/FindMeetingQuery.java:99-104 | the new cursor is the larger of the old cursor and the event's end: it never moves backwards |
| `GapSweep.Sweep` | walkthroughs/week-5-tdd/project/src/main/java/com/google/sps/FindMeetingQuery.java:82-105 | at most one slot per entry; every slot is at least the requested duration and starts at or after the starting cursor |
| `GapSweep.SweepSeparates` | walkthroughs/week-5-tdd/project/src/main/java/com/google/sps/FindMeetingQuery.java:85-105 | when entries are ordered by start and only the last is inclusive, no slot overlaps a range already passed or still ahead in the walk (a slot may end where a range starts) |
| `GapSweep.SweepOrdered` | walkthroughs/week-5-tdd/project/src/main/java/com/google/sps/FindMeetingQuery.java:85-105 | when every range before the last entry ends no earlier than it starts, each slot ends no later than the next one starts, for any duration |
| `GapSweep.SweepComplete` | walkthroughs/week-5-tdd/project/src/main/java/com/google/sps/FindMeetingQuery.java:85-105 | every long-enough window, clear of every range whose gap ends before the window does, lies inside some slot |
| `GapSweep.SweepBoundaries` | walkthroughs/week-5-tdd/project/src/main/java/com/google/sps/FindMeetingQuery.java:85-105 | each slot starts at the first cursor or at the end of a range passed before the last entry, and ends where some entry's gap reaches |
| `GapSweep.SweepEndsBounded` | walkthroughs/week-5-tdd/project/src/main/java/com/google/sps/FindMeetingQuery.java:93-97 | no slot ends beyond the furthest reach of any entry |
| `MeetingFinder.EndOfDayRange` | walkthroughs/week-5-tdd/project/src/main/java/com/google/sps/FindMeetingQuery.java:79-81 | the sentinel's range is the zero-length range at the last minute of the day |
| `MeetingFinder.SentinelTerminated` | walkthroughs/week-5-tdd/project/src/main/java/com/google/sps/FindMeetingQuery.java:79-94 | the walk is the events' ranges followed by the sentinel; only the sentinel (last) is inclusive and its gap reaches `END_OF_DAY + 1`; sorted events give a sorted walk |
| `MeetingFinder.MeetingTimes` | walkthroughs/week-5-tdd/project/src/main/java/com/google/sps/FindMeetingQuery.java:78-108 | at most one more slot than events; every slot is long enough and starts at or after `START_OF_DAY` (the upper bound is `QueryOrdered`) |
| `MeetingFinder.ScanMeetingTimes` | walkthroughs/week-5-tdd/project/src/main/java/com/google/sps/FindMeetingQuery.java:82-105 | the cursor loop returns exactly the slots of the recursive sweep |
| `MeetingFinder.RelevantSorted` | walkthroughs/week-5-tdd/project/src/main/java/com/google/sps/FindMeetingQuery.java:124-135 | the relevant events, ordered by start, each as often as the filter keeps it |
| `MeetingFinder.Query` | walkthroughs/week-5-tdd/project/src/main/java/com/google/sps/FindMeetingQuery.java:123-138 | at most (number of relevant events + 1) slots, each at least the requested duration and starting at or after `START_OF_DAY` (the upper bound is `QueryOrdered`) |
| `MeetingFinder.QuerySound` | walkthroughs/week-5-tdd/project/src/main/java/com/google/sps/FindMeetingQuery.java:85-105 | every returned slot is separate from every event that shares an attendee with the request |
| `MeetingFinder.QueryComplete` | walkthroughs/week-5-tdd/project/src/main/java/com/google/sps/FindMeetingQuery.java:85-105 | every window of the day that is free and at least the requested duration lies inside a returned slot |
| `MeetingFinder.QueryFitsIff` | walkthroughs/week-5-tdd/project/src/main/java/com/google/sps/FindMeetingQuery.java:63-77 | a long-enough window of the day fits in a returned slot iff it clashes with no relevant event ("all meeting times that will work") |
| `MeetingFinder.QueryOrdered` | walkthroughs/week-5-tdd/project/src/main/java/com/google/sps/FindMeetingQuery.java:82-105 | for events within the day, slots start at or after `START_OF_DAY`, end by `END_OF_DAY + 1`, ascend and do not overlap; each starts no later than it ends when the duration is not negative |
| `MeetingFinder.QueryBoundaries` | walkthroughs/week-5-tdd/project/src/main/java/com/google/sps/FindMeetingQuery.java:82-105 | each slot starts at the start of the day or where a relevant event ends, and ends at the end of the day or where one starts |
| `MeetingFinder.QueryAnyStableSort` | walkthroughs/week-5-tdd/project/src/main/java/com/google/sps/FindMeetingQuery.java:124-137 | sorting the relevant events with any stable sort by start yields exactly the slots of `Query` |
| `MeetingFinder.EqualStartOrderMatters` | walkthroughs/week-5-tdd/project/src/main/java/com/google/sps/FindMeetingQuery.java:82-105 | with duration 0, events `[200, 200)` then `[200, 300)` give slots `[0, 200)`, `[200, 200)`, `[300, 1440)`; in the other order `[200, 200)` is missing |
| `MeetingFinder.QueryNoRelevantEvents` | walkthroughs/week-5-tdd/project/src/main/java/com/google/sps/FindMeetingQuery.java:79-97 | with no relevant event, the result is the whole day `[START_OF_DAY, END_OF_DAY + 1)` if it is long enough, otherwise empty |
| `MeetingFinder.EodEvent` | walkthroughs/week-5-tdd/project/src/main/java/com/google/sps/FindMeetingQuery.java:79-81 | the appended entry is titled "EOD" and spans the zero-length end-of-day range |
| `MeetingFinder.TitleMarks` | walkthroughs/week-5-tdd/project/src/main/java/com/google/sps/FindMeetingQuery.java:86-94 | an entry's gap is inclusive exactly when the entry's title is "EOD" |
| `MeetingFinder.QueryByTitle` | walkthroughs/week-5-tdd/project/src/main/java/com/google/sps/FindMeetingQuery.java:123-138 | the code as written returns at most (number of relevant events + 1) slots, each at least the requested duration and starting at or after `START_OF_DAY` |
| `MeetingFinder.QueryByTitleComplete` | walkthroughs/week-5-tdd/project/src/main/java/com/google/sps/FindMeetingQuery.java:85-105 | the code as written is still complete: every free window of the day of at least the requested duration lies inside one of its slots |
| `MeetingFinder.QueryByTitleAgrees` | walkthroughs/week-5-tdd/project/src/main/java/com/google/sps/FindMeetingQuery.java:89-94 | when no relevant event is titled "EOD", the title test finds only the sentinel and the code as written returns exactly `Query` |
| `MeetingFinder.EodTitleCounterexample` | walkthroughs/week-5-tdd/project/src/main/java/com/google/sps/FindMeetingQuery.java:89-94 | a real event titled "EOD" at `[600, 660)` makes the code as written return `[0, 601)`, which shares minute 600 with it; `Query` returns `[0, 600)` |

## Left out

- The portfolio servlets (comments, Datastore, Blobstore, image annotation), the browser script and the JSON data classes. They are I/O around services and have no logic this component uses.
- The fallback from mandatory-plus-optional attendees to mandatory-only. The code does not have it: `query` reads only `request.getAttendees()` and makes a single pass.
- Copying of inputs (lines 56 and 124): the Java code copies the event list and each attendee set so the caller's data is not changed. Dafny values are immutable, so this holds by construction and no member states it.
- The library sort is modelled as an insertion sort by start time. It is proved stable, and a stable sort by start is unique, so this choice does not change the result.
- Integer widths: Java `int` and `long` are modelled as unbounded integers. Every value stays within the minutes of one day, so no overflow occurs for events within the day.
- `MeetingFinder.QueryOrdered`: requires events within the day (start no later than end). With a negative duration the code emits gaps whose end lies before their start, so the bound `start <= end` is stated only for a non-negative duration; the slots still ascend and do not overlap.
- The internals of `TimeRange`, `Event` and `MeetingRequest` are not part of this model. The day constants 0 and 1439 are taken from the usual minutes-of-the-day convention.

## Findings

| source | as written | input that shows it | evidently intended | confidence | as-written member | corrected member |
|---|---|---|---|---|---|---|
| walkthroughs/week-5-tdd/project/src/main/java/com/google/sps/FindMeetingQuery.java:89-94 | the inclusive end is chosen by `"EOD".equals(title)`, so a caller's event titled "EOD" also widens the gap before it by one minute | one event "EOD" at `[600, 660)` attended by "ann"; request for "ann", 30 minutes; the code returns `[0, 601)`, which overlaps the event at minute 600 | only the synthetic end-of-day entry widens its gap | not executed; high | `MeetingFinder.EodTitleCounterexample` | `MeetingFinder.QuerySound` |
