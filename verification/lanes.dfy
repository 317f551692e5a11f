/** Lane assignment of models/view.go: `NewViewEvent`, the per-day loop of
    `NewCenterView` that places a day's sorted activities one after the
    other, and the widening of isolated events. The source's `prevEvent`
    pointer is an index into the day's event sequence. */
module Lanes {
  import opened Wrappers
  import opened Clock
  import opened TimeRange
  import opened Activities
  import opened Buckets

  datatype ViewEvent = ViewEvent(
    activity: Activity,
    when: Interval,        // the activity's cached start and end
    startTime: string,
    duration: nat,
    offset: nat,
    span: nat,
    bgColor: string,
    prev: Option<nat>)

  /** Every predecessor link points to an earlier event. */
  predicate Linked(evs: seq<ViewEvent>) {
    forall i :: 0 <= i < |evs| && evs[i].prev.Some? ==> evs[i].prev.value < i
  }

  /** The walk of `NewViewEvent` from event `k` back along the links: the
      offsets of `k`'s ancestors that overlap `iv`. */
  function WalkBack(evs: seq<ViewEvent>, k: nat, iv: Interval): set<nat>
    requires Linked(evs) && k < |evs|
    decreases k
  {
    match evs[k].prev
    case None => {}
    case Some(p) =>
      (if IntervalsOverlap(evs[p].when, iv) then {evs[p].offset} else {}) + WalkBack(evs, p, iv)
  }

  /** `overlapMap`'s keys: the predecessor's offset, which is entered without
      a test, and those of its ancestors that overlap. */
  function OverlapOffsets(evs: seq<ViewEvent>, p: nat, iv: Interval): set<nat>
    requires Linked(evs) && p < |evs|
  {
    {evs[p].offset} + WalkBack(evs, p, iv)
  }

  /** The ancestors of `k`: every event reached from it by one or more links. */
  ghost function Ancestors(evs: seq<ViewEvent>, k: nat): (c: set<nat>)
    requires Linked(evs) && k < |evs|
    ensures forall j :: j in c ==> j < k
    decreases k
  {
    match evs[k].prev
    case None => {}
    case Some(p) => {p} + Ancestors(evs, p)
  }

  /** The lanes a new event `iv` placed after `p` may not take: that of `p`
      and that of every ancestor of `p` overlapping `iv`. */
  ghost function Blocked(evs: seq<ViewEvent>, p: nat, iv: Interval): set<nat>
    requires Linked(evs) && p < |evs|
  {
    {evs[p].offset} + set j | j in Ancestors(evs, p) && IntervalsOverlap(evs[j].when, iv) :: evs[j].offset
  }

  /** The lanes blocked for an event `iv` placed right after `before`. */
  ghost function BlockedAfter(before: seq<ViewEvent>, iv: Interval): set<nat>
    requires Linked(before) && |before| > 0
  {
    Blocked(before, |before| - 1, iv)
  }

  /** The walk visits exactly the ancestors. */
  lemma {:induction false} WalkBackVisitsAncestors(evs: seq<ViewEvent>, k: nat, iv: Interval)
    requires Linked(evs) && k < |evs|
    ensures WalkBack(evs, k, iv) ==
      set j | j in Ancestors(evs, k) && IntervalsOverlap(evs[j].when, iv) :: evs[j].offset
    decreases k
  {
    match evs[k].prev
    case None =>
    case Some(p) =>
      WalkBackVisitsAncestors(evs, p, iv);
      assert p !in Ancestors(evs, p);
  }

  /** The walk collects exactly the blocked lanes. */
  lemma OverlapOffsetsAreBlocked(evs: seq<ViewEvent>, p: nat, iv: Interval)
    requires Linked(evs) && p < |evs|
    ensures OverlapOffsets(evs, p, iv) == Blocked(evs, p, iv)
  {
    WalkBackVisitsAncestors(evs, p, iv);
  }

  /** The numbers `0 .. n-1`. */
  function Below(n: nat): (s: set<nat>)
    ensures forall k: nat :: k in s <==> k < n
  {
    if n == 0 then {} else Below(n - 1) + {n - 1}
  }

  lemma {:induction false} BelowSize(n: nat)
    ensures |Below(n)| == n
  {
    if n > 0 {
      BelowSize(n - 1);
      var s := Below(n - 1);
      assert n - 1 !in s;
      assert |s + {n - 1}| == |s| + 1;
    }
  }

  lemma {:induction false} SubsetSize<T>(a: set<T>, b: set<T>)
    requires a <= b
    ensures |a| <= |b|
    decreases |a|
  {
    if a != {} {
      var x :| x in a;
      SubsetSize(a - {x}, b - {x});
    }
  }

  /** A set holding `0 .. n-1` has at least `n` elements. */
  lemma RangeInside(used: set<nat>, n: nat)
    requires forall k :: 0 <= k < n ==> k in used
    ensures n <= |used|
  {
    BelowSize(n);
    SubsetSize(Below(n), used);
  }

  /** The search loop of `NewViewEvent` from `i` upwards. */
  function FirstFreeFrom(used: set<nat>, i: nat): (m: nat)
    requires forall k :: 0 <= k < i ==> k in used
    ensures i <= m && m !in used
    ensures forall k :: 0 <= k < m ==> k in used
    decreases |used| - i
  {
    if i !in used then i
    else
      RangeInside(used, i + 1);
      FirstFreeFrom(used, i + 1)
  }

  /** The least natural number not in `used`. */
  function LeastUnused(used: set<nat>): (m: nat)
    ensures m !in used
    ensures forall k :: 0 <= k < m ==> k in used
  {
    FirstFreeFrom(used, 0)
  }

  /** `colourMap[name]`: the empty string for a missing name. */
  function Lookup(colours: map<string, string>, name: string): string {
    if name in colours then colours[name] else ""
  }

  /** The fields of an event that depend on its activity alone. */
  predicate Described(e: ViewEvent, colours: map<string, string>) {
    && Times(e.activity) == Success(e.when)
    && e.startTime == Time24H(e.when.start)
    && e.duration == Abs(Minutes(e.when.end) - Minutes(e.when.start))
    && e.bgColor == Lookup(colours, e.activity.name)
  }

  /** The index of the last placed event, the next event's `prevEvent`. */
  function Last(evs: seq<ViewEvent>): (p: Option<nat>)
    ensures p.Some? <==> |evs| > 0
    ensures p.Some? ==> p.value == |evs| - 1
  {
    if |evs| == 0 then None else Some(|evs| - 1)
  }

  /** The lane and link `NewViewEvent` gives an event `iv` whose
      `prevEvent` is `prev`: if it overlaps `prev`, the least lane not
      collected by the walk, keeping the link; otherwise lane 0 and no
      link. */
  function LaneFor(evs: seq<ViewEvent>, prev: Option<nat>, iv: Interval): (r: (nat, Option<nat>))
    requires Linked(evs)
    requires prev.Some? ==> prev.value < |evs|
    ensures prev.Some? && IntervalsOverlap(evs[prev.value].when, iv) ==>
      && r.1 == prev
      && r.0 !in Blocked(evs, prev.value, iv)
      && forall k :: 0 <= k < r.0 ==> k in Blocked(evs, prev.value, iv)
    ensures !(prev.Some? && IntervalsOverlap(evs[prev.value].when, iv)) ==> r == (0, None)
  {
    if prev.Some? && IntervalsOverlap(evs[prev.value].when, iv) then
      OverlapOffsetsAreBlocked(evs, prev.value, iv);
      (LeastUnused(OverlapOffsets(evs, prev.value, iv)), prev)
    else (0, None)
  }

  /** `NewViewEvent(a, prevEvent, colourMap)`, with `prev` the index of
      `prevEvent`. */
  function NewViewEvent(a: Activity, evs: seq<ViewEvent>, prev: Option<nat>, colours: map<string, string>)
    : (r: Result<ViewEvent, Error>)
    requires Linked(evs)
    requires prev.Some? ==> prev.value < |evs|
    ensures r.Success? <==> Parses(a)
    ensures r.Failure? ==> r.error == MalformedTimeRange
    ensures r.Success? ==> r.value.activity == a && Described(r.value, colours) && r.value.span == 1
    ensures r.Success? ==> (r.value.offset, r.value.prev) == LaneFor(evs, prev, r.value.when)
  {
    match Times(a)
    case Failure(e) => Failure(e)
    case Success(iv) =>
      var (offset, link) := LaneFor(evs, prev, iv);
      Success(ViewEvent(a, iv, Time24H(iv.start), Difference(iv.end, iv.start), offset, 1,
        Lookup(colours, a.name), link))
  }

  /** Where event `e`, placed right after `before`, stands in the lane
      scheme: if it overlaps the last event it links to it and takes the
      least lane not blocked by that event's chain; otherwise it starts a new
      chain in lane 0. */
  ghost predicate LaneOk(before: seq<ViewEvent>, e: ViewEvent) {
    && Linked(before)
    && if |before| > 0 && IntervalsOverlap(before[|before| - 1].when, e.when) then
      && e.prev == Some(|before| - 1)
      && e.offset !in BlockedAfter(before, e.when)
      && forall k :: 0 <= k < e.offset ==> k in BlockedAfter(before, e.when)
    else
      e.prev.None? && e.offset == 0
  }

  /** Event `i` stands where `LaneOk` says, given the events before it. */
  ghost predicate LaneOkAt(evs: seq<ViewEvent>, i: nat)
    requires i < |evs|
  {
    LaneOk(evs[..i], evs[i])
  }

  /** A day's events as the placement loop leaves them. */
  ghost predicate DayOk(evs: seq<ViewEvent>) {
    && Linked(evs)
    && forall i :: 0 <= i < |evs| ==> LaneOkAt(evs, i)
  }

  /** Event `i` is made of activity `i`, and is still one lane wide. */
  predicate EventAt(evs: seq<ViewEvent>, acts: seq<Activity>, colours: map<string, string>, i: nat)
    requires i < |evs| && i < |acts|
  {
    evs[i].activity == acts[i] && Described(evs[i], colours) && evs[i].span == 1
  }

  /** Every event of `evs` is made of the activity at the same index of
      `acts`. */
  predicate MadeOf(evs: seq<ViewEvent>, acts: seq<Activity>, colours: map<string, string>)
    requires |evs| == |acts|
  {
    forall i :: 0 <= i < |acts| ==> EventAt(evs, acts, colours, i)
  }

  /** Placing an event as `LaneOk` says keeps the day well formed. */
  lemma PlaceKeepsDayOk(evs: seq<ViewEvent>, e: ViewEvent)
    requires DayOk(evs) && LaneOk(evs, e)
    ensures DayOk(evs + [e])
  {
    var evs' := evs + [e];
    assert evs'[..|evs|] == evs;
    forall i | 0 <= i < |evs'| ensures LaneOkAt(evs', i) {
      if i < |evs| {
        assert evs'[..i] == evs[..i];
        assert LaneOkAt(evs, i);
      }
    }
  }

  lemma AllParseSnoc(acts: seq<Activity>)
    requires acts != []
    ensures AllParse(acts) <==> AllParse(acts[..|acts| - 1]) && Parses(acts[|acts| - 1])
  {
    if AllParse(acts[..|acts| - 1]) && Parses(acts[|acts| - 1]) {
      forall i | 0 <= i < |acts| ensures Parses(acts[i]) {
        if i < |acts| - 1 { assert acts[i] == acts[..|acts| - 1][i]; }
      }
    }
  }

  /** The lane and link `LaneFor` gives after the last placed event are
      where `LaneOk` says. */
  lemma LaneForIsLaneOk(evs: seq<ViewEvent>, e: ViewEvent)
    requires Linked(evs)
    requires (e.offset, e.prev) == LaneFor(evs, Last(evs), e.when)
    ensures LaneOk(evs, e)
  {
    if |evs| > 0 && IntervalsOverlap(evs[|evs| - 1].when, e.when) {
      assert BlockedAfter(evs, e.when) == Blocked(evs, |evs| - 1, e.when);
    }
  }

  lemma MadeOfSnoc(acts: seq<Activity>, evs: seq<ViewEvent>, e: ViewEvent, colours: map<string, string>)
    requires acts != [] && |evs| + 1 == |acts|
    requires MadeOf(evs, acts[..|acts| - 1], colours)
    requires e.activity == acts[|acts| - 1] && Described(e, colours) && e.span == 1
    ensures MadeOf(evs + [e], acts, colours)
  {
    forall i | 0 <= i < |acts| ensures EventAt(evs + [e], acts, colours, i) {
      if i < |acts| - 1 {
        assert EventAt(evs, acts[..|acts| - 1], colours, i);
        assert acts[i] == acts[..|acts| - 1][i];
      }
    }
  }

  /** One turn of the placement loop: the next activity becomes an event
      with the last placed event, if any, as `prevEvent`. */
  function Extend(evs: seq<ViewEvent>, a: Activity, colours: map<string, string>)
    : (r: Result<seq<ViewEvent>, Error>)
    requires DayOk(evs)
    ensures r.Success? <==> Parses(a)
    ensures r.Failure? ==> r.error == MalformedTimeRange
    ensures r.Success? ==> |r.value| == |evs| + 1 && r.value[..|evs|] == evs && DayOk(r.value)
  {
    match NewViewEvent(a, evs, Last(evs), colours)
    case Failure(e) => Failure(e)
    case Success(e) =>
      LaneForIsLaneOk(evs, e);
      PlaceKeepsDayOk(evs, e);
      assert (evs + [e])[..|evs|] == evs;
      Success(evs + [e])
  }

  /** The placement loop of one day: each activity, in order, is made into
      an event with the last placed event as `prevEvent`; the first range
      that does not parse stops the loop. */
  function PlaceDay(acts: seq<Activity>, colours: map<string, string>): (r: Result<seq<ViewEvent>, Error>)
    ensures r.Success? <==> AllParse(acts)
    ensures r.Failure? ==> r.error == MalformedTimeRange
    ensures r.Success? ==> |r.value| == |acts| && DayOk(r.value)
    decreases |acts|
  {
    if acts == [] then Success([])
    else
      AllParseSnoc(acts);
      match PlaceDay(acts[..|acts| - 1], colours)
      case Failure(e) => Failure(e)
      case Success(evs) => Extend(evs, acts[|acts| - 1], colours)
  }

  /** The placed events are made of the day's activities, in order. */
  lemma {:induction false} PlaceDayKeepsOrder(acts: seq<Activity>, colours: map<string, string>)
    requires PlaceDay(acts, colours).Success?
    ensures MadeOf(PlaceDay(acts, colours).value, acts, colours)
    decreases |acts|
  {
    if acts != [] {
      var front := acts[..|acts| - 1];
      PlaceDayKeepsOrder(front, colours);
      var evs := PlaceDay(front, colours).value;
      var e := NewViewEvent(acts[|acts| - 1], evs, Last(evs), colours).value;
      assert Extend(evs, acts[|acts| - 1], colours).value == evs + [e];
      MadeOfSnoc(acts, evs, e, colours);
    }
  }

  /** `maxOffset`: the largest lane of the day, 0 for an empty day. */
  function MaxOffset(evs: seq<ViewEvent>): (m: nat)
    ensures forall i :: 0 <= i < |evs| ==> evs[i].offset <= m
    ensures |evs| == 0 ==> m == 0
    ensures |evs| > 0 ==> exists i :: 0 <= i < |evs| && evs[i].offset == m
  {
    if evs == [] then 0
    else
      var m := MaxOffset(evs[..|evs| - 1]);
      assert forall i :: 0 <= i < |evs| - 1 ==> evs[i] == evs[..|evs| - 1][i];
      if evs[|evs| - 1].offset > m then evs[|evs| - 1].offset else m
  }

  /** The lanes the events of a day take. */
  function Offsets(evs: seq<ViewEvent>): set<nat> {
    set i | 0 <= i < |evs| :: evs[i].offset
  }

  /** A blocked lane is the lane of `p` or of one of its ancestors. */
  lemma BlockedComesFromEarlier(evs: seq<ViewEvent>, p: nat, iv: Interval, k: nat)
    requires Linked(evs) && p < |evs|
    requires k in Blocked(evs, p, iv)
    ensures exists j :: 0 <= j <= p && evs[j].offset == k
  {
    if k != evs[p].offset {
      var j :| j in Ancestors(evs, p) && IntervalsOverlap(evs[j].when, iv) && evs[j].offset == k;
    }
  }

  /** Below the lane of every event, each lane is taken by an earlier
      event. */
  lemma LanesBelowAreTaken(evs: seq<ViewEvent>, i: nat, k: nat)
    requires DayOk(evs) && i < |evs|
    requires k < evs[i].offset
    ensures exists j :: 0 <= j < i && evs[j].offset == k
  {
    var before := evs[..i];
    assert LaneOkAt(evs, i);
    BlockedComesFromEarlier(before, i - 1, evs[i].when, k);
    var j :| 0 <= j <= i - 1 && before[j].offset == k;
    assert evs[j] == before[j];
  }

  /** Every lane up to the largest is taken. */
  lemma LaneTaken(evs: seq<ViewEvent>, k: nat)
    requires DayOk(evs) && |evs| > 0 && k <= MaxOffset(evs)
    ensures k in Offsets(evs)
  {
    var i :| 0 <= i < |evs| && evs[i].offset == MaxOffset(evs);
    var j := i;
    if k < evs[i].offset {
      LanesBelowAreTaken(evs, i, k);
      j :| 0 <= j < i && evs[j].offset == k;
    }
    assert evs[j].offset in Offsets(evs);
  }

  /** The lanes of a non-empty day are exactly `0 .. maxOffset`, so the
      day's width `maxOffset + 1` counts the lanes in use. */
  lemma LanesAreContiguous(evs: seq<ViewEvent>)
    requires DayOk(evs) && |evs| > 0
    ensures Offsets(evs) == Below(MaxOffset(evs) + 1)
  {
    var m := MaxOffset(evs);
    forall k: nat | k <= m ensures k in Offsets(evs) {
      LaneTaken(evs, k);
    }
    OffsetsAtMost(evs, m);
  }

  lemma OffsetsAtMost(evs: seq<ViewEvent>, m: nat)
    requires forall i :: 0 <= i < |evs| ==> evs[i].offset <= m
    ensures Offsets(evs) <= Below(m + 1)
  {
    forall k | k in Offsets(evs) ensures k in Below(m + 1) {
      var i :| 0 <= i < |evs| && evs[i].offset == k;
    }
  }

  /** An event that overlaps the one placed just before it takes a
      different lane. */
  lemma NeighboursApart(evs: seq<ViewEvent>, i: nat)
    requires DayOk(evs) && 0 < i < |evs|
    requires IntervalsOverlap(evs[i - 1].when, evs[i].when)
    ensures evs[i].offset != evs[i - 1].offset
    ensures evs[i].prev == Some(i - 1)
  {
    var before := evs[..i];
    assert LaneOkAt(evs, i);
    assert before[i - 1] == evs[i - 1];
  }

  /** The test under which the widening loop gives event `j` the whole day:
      it starts its own chain in lane 0 and, unless it is last, the next
      event is in lane 0 too. */
  predicate Widens(evs: seq<ViewEvent>, j: nat)
    requires j < |evs|
  {
    if j + 1 < |evs| then evs[j].offset == 0 && evs[j].prev.None? && evs[j + 1].offset == 0
    else evs[j].offset == 0 && evs[j].prev.None?
  }

  /** The widening loop: events that pass `Widens` get span `width`. */
  function Widen(evs: seq<ViewEvent>, width: nat): (r: seq<ViewEvent>)
    ensures |r| == |evs|
    ensures forall j :: 0 <= j < |evs| ==>
      r[j] == if Widens(evs, j) then evs[j].(span := width) else evs[j]
  {
    seq(|evs|, j requires 0 <= j < |evs| => if Widens(evs, j) then evs[j].(span := width) else evs[j])
  }

  /** Event `j` overlaps neither neighbour. */
  predicate Alone(evs: seq<ViewEvent>, j: nat)
    requires j < |evs|
  {
    && (j == 0 || !IntervalsOverlap(evs[j - 1].when, evs[j].when))
    && (j + 1 == |evs| || !IntervalsOverlap(evs[j].when, evs[j + 1].when))
  }

  /** Widening picks out exactly the events that overlap neither
      neighbour. */
  lemma WidensExactlyTheAlone(evs: seq<ViewEvent>, j: nat)
    requires DayOk(evs) && j < |evs|
    ensures Widens(evs, j) <==> Alone(evs, j)
  {
    assert LaneOkAt(evs, j);
    if j > 0 {
      assert evs[..j][j - 1] == evs[j - 1];
    }
    if j + 1 < |evs| {
      var before := evs[..j + 1];
      assert LaneOkAt(evs, j + 1);
      assert before[j] == evs[j];
      if IntervalsOverlap(evs[j].when, evs[j + 1].when) {
        assert evs[j].offset in BlockedAfter(before, evs[j + 1].when);
      }
    }
  }
}
