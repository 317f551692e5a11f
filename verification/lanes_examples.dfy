/** Worked days for the lane assignment of models/view.go. */
module LanesExamples {
  import opened Wrappers
  import opened Clock
  import opened TimeRange
  import opened Activities
  import opened TimeRangeExamples
  import opened Lanes

  /** A Monday activity whose range is written the way `TimeOfDay.Time`
      prints times. */
  function Session(id: int, start: TimeOfDay, end: TimeOfDay): Activity {
    Activity(id, "Lane swim", "", Time(start) + " - " + Time(end), "", "Mon")
  }

  lemma SessionTimes(id: int, start: TimeOfDay, end: TimeOfDay)
    requires start.hour < 24 && start.minute < 100
    requires end.hour < 24 && end.minute < 100
    ensures Times(Session(id, start, end)) == Success(Interval(start, end))
  {
    TimeLabelsParseBack(start, end);
  }

  /** One turn of the placement loop on the day so far. */
  lemma PlaceDayStep(acts: seq<Activity>, colours: map<string, string>, evs: seq<ViewEvent>)
    requires acts != []
    requires PlaceDay(acts[..|acts| - 1], colours) == Success(evs)
    ensures PlaceDay(acts, colours) == Extend(evs, acts[|acts| - 1], colours)
  {
  }

  /** Three turns of the placement loop. */
  lemma PlaceThree(a: Activity, b: Activity, c: Activity, colours: map<string, string>,
                   evs: seq<ViewEvent>, r: seq<ViewEvent>)
    requires PlaceDay([a, b], colours) == Success(evs)
    requires Extend(evs, c, colours) == Success(r)
    ensures PlaceDay([a, b, c], colours) == Success(r)
  {
    assert [a, b, c][..2] == [a, b];
  }

  /** The event a turn appends: its interval and the lane `LaneFor`
      gives it. */
  lemma ExtendAppends(evs: seq<ViewEvent>, a: Activity, colours: map<string, string>, iv: Interval)
    requires DayOk(evs) && Times(a) == Success(iv)
    ensures Extend(evs, a, colours).Success?
    ensures var r := Extend(evs, a, colours).value;
      && r[..|evs|] == evs
      && r[|evs|].when == iv
      && (r[|evs|].offset, r[|evs|].prev) == LaneFor(evs, Last(evs), iv)
  {
  }

  /** A single activity takes lane 0 and starts a chain. */
  lemma OneEvent(a: Activity, colours: map<string, string>, ia: Interval)
    requires Times(a) == Success(ia)
    ensures var r := PlaceDay([a], colours);
      && r.Success? && |r.value| == 1
      && r.value[0].when == ia
      && r.value[0].offset == 0 && r.value[0].prev == None
  {
    assert [a][..0] == [];
    PlaceDayStep([a], colours, []);
    ExtendAppends([], a, colours, ia);
  }

  /** After a single event in lane 0, an overlapping interval is put in
      lane 1 linked back to it. */
  lemma SecondLane(evs: seq<ViewEvent>, ib: Interval)
    requires |evs| == 1 && evs[0].prev == None && evs[0].offset == 0
    requires IntervalsOverlap(evs[0].when, ib)
    ensures LaneFor(evs, Some(0), ib) == (1, Some(0))
  {
    var r := LaneFor(evs, Some(0), ib);
    assert Ancestors(evs, 0) == {};
    assert Blocked(evs, 0, ib) == {0};
    assert r.0 != 0;
    assert 1 !in Blocked(evs, 0, ib);
  }

  /** A second activity overlapping the first moves to lane 1 and links
      back to it. */
  lemma TwoOverlapping(a: Activity, b: Activity, colours: map<string, string>, ia: Interval, ib: Interval)
    requires Times(a) == Success(ia) && Times(b) == Success(ib)
    requires IntervalsOverlap(ia, ib)
    ensures var r := PlaceDay([a, b], colours);
      && r.Success? && |r.value| == 2
      && r.value[0].when == ia && r.value[1].when == ib
      && r.value[0].offset == 0 && r.value[0].prev == None
      && r.value[1].offset == 1 && r.value[1].prev == Some(0)
  {
    OneEvent(a, colours, ia);
    var evs := PlaceDay([a], colours).value;
    ExtendAppends(evs, b, colours, ib);
    var r := Extend(evs, b, colours).value;
    assert |evs| == 1 && Last(evs) == Some(0);
    SecondLane(evs, ib);
    assert r[0] == r[..1][0] == evs[0];
    PlaceTwo(a, b, colours, evs, r);
  }

  /** Two turns of the placement loop. */
  lemma PlaceTwo(a: Activity, b: Activity, colours: map<string, string>,
                 evs: seq<ViewEvent>, r: seq<ViewEvent>)
    requires PlaceDay([a], colours) == Success(evs)
    requires Extend(evs, b, colours) == Success(r)
    ensures PlaceDay([a, b], colours) == Success(r)
  {
    assert [a, b][..1] == [a];
  }

  /** Three activities where the second overlaps the first and the third
      does not overlap the second: lanes 0, 1, 0, with only the second
      linked back. */
  lemma OverlapThenClear(a: Activity, b: Activity, c: Activity, colours: map<string, string>,
                         ia: Interval, ib: Interval, ic: Interval)
    requires Times(a) == Success(ia) && Times(b) == Success(ib) && Times(c) == Success(ic)
    requires IntervalsOverlap(ia, ib) && !IntervalsOverlap(ib, ic)
    ensures var r := PlaceDay([a, b, c], colours);
      && r.Success? && |r.value| == 3
      && r.value[0].when == ia && r.value[1].when == ib && r.value[2].when == ic
      && r.value[0].offset == 0 && r.value[0].prev == None
      && r.value[1].offset == 1 && r.value[1].prev == Some(0)
      && r.value[2].offset == 0 && r.value[2].prev == None
  {
    TwoOverlapping(a, b, colours, ia, ib);
    var evs := PlaceDay([a, b], colours).value;
    ExtendAppends(evs, c, colours, ic);
    var r := Extend(evs, c, colours).value;
    assert |evs| == 2 && evs[1].when == ib;
    assert Last(evs) == Some(1);
    assert LaneFor(evs, Some(1), ic) == (0, None);
    assert r[2].offset == 0 && r[2].prev == None && r[2].when == ic;
    assert r[0] == r[..2][0] == evs[0];
    assert r[1] == r[..2][1] == evs[1];
    PlaceThree(a, b, c, colours, evs, r);
  }

  /** A 9:00-10:00, B 9:30-10:30, C 11:00-12:00: B overlaps A and moves to
      lane 1 linked to A; C overlaps nothing and starts over in lane 0; the
      day is two lanes wide and only C, alone, spans both. */
  lemma StaggeredDay(a: Activity, b: Activity, c: Activity, colours: map<string, string>)
    requires Times(a) == Success(Interval(TimeOfDay(9, 0), TimeOfDay(10, 0)))
    requires Times(b) == Success(Interval(TimeOfDay(9, 30), TimeOfDay(10, 30)))
    requires Times(c) == Success(Interval(TimeOfDay(11, 0), TimeOfDay(12, 0)))
    ensures var r := PlaceDay([a, b, c], colours);
      && r.Success? && |r.value| == 3
      && r.value[0].offset == 0 && r.value[1].offset == 1 && r.value[2].offset == 0
      && MaxOffset(r.value) == 1
      && Widen(r.value, 2)[0].span == 1
      && Widen(r.value, 2)[1].span == 1
      && Widen(r.value, 2)[2].span == 2
  {
    var ia, ib, ic := Times(a).value, Times(b).value, Times(c).value;
    assert IntervalsOverlap(ia, ib) && !IntervalsOverlap(ib, ic);
    OverlapThenClear(a, b, c, colours, ia, ib, ic);
    var evs := PlaceDay([a, b, c], colours).value;
    PlaceDayKeepsOrder([a, b, c], colours);
    assert EventAt(evs, [a, b, c], colours, 0);
    assert EventAt(evs, [a, b, c], colours, 1);
    assert EventAt(evs, [a, b, c], colours, 2);
    WidenLanesZeroOneZero(evs);
  }

  /** Three one-lane events in lanes 0, 1, 0, the second linked back and
      the third not: the day is two lanes wide and only the third widens. */
  lemma WidenLanesZeroOneZero(evs: seq<ViewEvent>)
    requires |evs| == 3 && evs[0].span == 1 && evs[1].span == 1 && evs[2].span == 1
    requires evs[0].offset == 0 && evs[1].offset == 1 && evs[2].offset == 0
    requires evs[1].prev == Some(0) && evs[2].prev == None
    ensures MaxOffset(evs) == 1
    ensures Widen(evs, 2)[0].span == 1 && Widen(evs, 2)[1].span == 1 && Widen(evs, 2)[2].span == 2
  {
    assert !Widens(evs, 0) && !Widens(evs, 1) && Widens(evs, 2);
  }

  /** The day above exists: activities whose ranges read the way
      `TimeOfDay.Time` prints them. */
  lemma StaggeredSessions()
    ensures Times(Session(1, TimeOfDay(9, 0), TimeOfDay(10, 0)))
      == Success(Interval(TimeOfDay(9, 0), TimeOfDay(10, 0)))
    ensures Times(Session(2, TimeOfDay(9, 30), TimeOfDay(10, 30)))
      == Success(Interval(TimeOfDay(9, 30), TimeOfDay(10, 30)))
    ensures Times(Session(3, TimeOfDay(11, 0), TimeOfDay(12, 0)))
      == Success(Interval(TimeOfDay(11, 0), TimeOfDay(12, 0)))
  {
    SessionTimes(1, TimeOfDay(9, 0), TimeOfDay(10, 0));
    SessionTimes(2, TimeOfDay(9, 30), TimeOfDay(10, 30));
    SessionTimes(3, TimeOfDay(11, 0), TimeOfDay(12, 0));
  }

  /** A 9:00-12:00, B 9:00-10:00, C 10:00-11:00, sorted by start: C only
      touches B, so it starts a new chain in lane 0 although it overlaps A,
      which holds lane 0 too. The lane scheme only separates events that
      overlap along a chain of links. */
  lemma OverlappingEventsShareALane(a: Activity, b: Activity, c: Activity, colours: map<string, string>)
    requires Times(a) == Success(Interval(TimeOfDay(9, 0), TimeOfDay(12, 0)))
    requires Times(b) == Success(Interval(TimeOfDay(9, 0), TimeOfDay(10, 0)))
    requires Times(c) == Success(Interval(TimeOfDay(10, 0), TimeOfDay(11, 0)))
    ensures var r := PlaceDay([a, b, c], colours);
      && r.Success? && |r.value| == 3
      && IntervalsOverlap(r.value[0].when, r.value[2].when)
      && r.value[0].offset == 0 && r.value[2].offset == 0
  {
    OverlapThenClear(a, b, c, colours, Times(a).value, Times(b).value, Times(c).value);
  }
}
