/** The view of models/view.go: day headers, the quarter-hour time rows,
    and one center view per center week, each a row of weekday columns. */
module Views {
  import opened Wrappers
  import opened Decimal
  import opened Clock
  import opened TimeRange
  import opened Activities
  import opened Buckets
  import opened Lanes
  import opened Colours
  import opened Arith
  import opened Grid
  import opened Plans

  datatype WeekDay = WeekDay(name: string, shortName: string)

  /** A row label: the 12-hour name, the 24-hour code and the grid row. */
  datatype TimeSlot = TimeSlot(name: string, code: string, gridRow: nat)

  /** One weekday column group: its width in lanes, the grid columns it
      occupies and its events. */
  datatype WeekdayView = WeekdayView(span: nat, gridColumns: seq<nat>, events: seq<ViewEvent>)

  datatype CenterView = CenterView(
    centerId: string,
    centerName: string,
    gridColumns: string,
    weekdays: seq<WeekdayView>)

  datatype View = View(centers: seq<CenterView>, days: seq<WeekDay>, times: seq<TimeSlot>)

  const DayNames: seq<string> :=
    ["Sunday", "Monday", "Tuesday", "Wednesday", "Thursday", "Friday", "Saturday"]

  /** `weekdays`: the day headers, Sunday first. */
  function Weekdays(): (ds: seq<WeekDay>)
    ensures |ds| == 7
    ensures && ds[0].name == "Sunday" && ds[1].name == "Monday" && ds[2].name == "Tuesday"
            && ds[3].name == "Wednesday" && ds[4].name == "Thursday" && ds[5].name == "Friday"
            && ds[6].name == "Saturday"
  {
    seq(7, d requires 0 <= d < 7 => WeekDay(DayNames[d], WeekdayCodes[d]))
  }

  /** The `d`-th header abbreviates the day whose activities fill the `d`-th
      column group: an activity lands in bucket `d` exactly when its day code
      is the header's short name. */
  lemma HeadersMatchBuckets(a: Activity, d: nat)
    requires d < 7
    ensures Weekday(a) == Success(d) <==> a.dayOfWeek == Weekdays()[d].shortName
    ensures Weekdays()[d].name[..3] == Weekdays()[d].shortName
  {
    assert Weekdays()[d].shortName == WeekdayCodes[d];
  }

  /** The time of the `k`-th row: the first four rows are the quarter hours
      of 9 o'clock and every row is an hour after the row four above it. */
  function SlotTime(k: nat): TimeOfDay {
    if k < 4 then TimeOfDay(9, 15 * k)
    else var t := SlotTime(k - 4); TimeOfDay(t.hour + 1, t.minute)
  }

  /** Row `k` is `k / 4` hours and `k % 4` quarters after 9:00. */
  lemma {:induction false} SlotTimeQuarters(k: nat)
    ensures SlotTime(k) == TimeOfDay(9 + k / 4, 15 * (k % 4))
  {
    if k >= 4 {
      SlotTimeQuarters(k - 4);
      assert (k - 4) / 4 == k / 4 - 1 && (k - 4) % 4 == k % 4;
    }
  }

  /** The row label of time `t` in grid row `row`. */
  function Label(t: TimeOfDay, row: nat): TimeSlot {
    TimeSlot(Time(t), Time24H(t), row)
  }

  function Slot(k: nat): TimeSlot {
    Label(SlotTime(k), k + 2)
  }

  /** `ts` holds the first `|ts|` row labels. */
  predicate SlotsSoFar(ts: seq<TimeSlot>) {
    forall k :: 0 <= k < |ts| ==> ts[k] == Slot(k)
  }

  lemma SlotsSoFarSnoc(ts: seq<TimeSlot>, s: TimeSlot)
    requires SlotsSoFar(ts) && s == Slot(|ts|)
    ensures SlotsSoFar(ts + [s])
  {
    PrefixSnoc(ts, s, Slot);
  }

  /** Appending the next value of `f` to a prefix of `f`'s values. */
  lemma PrefixSnoc<T>(ts: seq<T>, s: T, f: nat -> T)
    requires forall k :: 0 <= k < |ts| ==> ts[k] == f(k)
    requires s == f(|ts|)
    ensures forall k :: 0 <= k < |ts| + 1 ==> (ts + [s])[k] == f(k)
  {
    var ws := ts + [s];
    forall k | 0 <= k < |ws| ensures ws[k] == f(k) {
      if k < |ts| {
        assert ws[k] == ts[k];
      }
    }
  }

  /** `times`: the row labels from 9:00 to 20:45, from grid row 2 on. */
  method Times() returns (ts: seq<TimeSlot>)
    ensures |ts| == 48
    ensures forall k :: 0 <= k < |ts| ==> ts[k] == Slot(k)
  {
    ts := [];
    var gridRow := 2;
    var h := 9;
    while h < 21
      invariant 9 <= h <= 21
      invariant |ts| == 4 * (h - 9)
      invariant gridRow == |ts| + 2
      invariant SlotsSoFar(ts)
    {
      var m := 0;
      ghost var q := 0;
      while m < 60
        invariant 0 <= q <= 4 && m == 15 * q
        invariant |ts| == 4 * (h - 9) + q
        invariant gridRow == |ts| + 2
        invariant SlotsSoFar(ts)
      {
        var t := TimeOfDay(h, m);
        SlotOfHourAndQuarter(h, q);
        SlotsSoFarSnoc(ts, Label(t, gridRow));
        ts := ts + [Label(t, gridRow)];
        gridRow := gridRow + 1;
        m := m + 15;
        q := q + 1;
      }
      h := h + 1;
    }
  }

  /** Quarter `q` of hour `h` is row `4 * (h - 9) + q`. */
  lemma SlotOfHourAndQuarter(h: nat, q: nat)
    requires 9 <= h && q < 4
    ensures SlotTime(4 * (h - 9) + q) == TimeOfDay(h, 15 * q)
  {
    var k := 4 * (h - 9) + q;
    SlotTimeQuarters(k);
    assert k / 4 == h - 9 && k % 4 == q;
  }

  /** The rows run from 9:00 to 20:45 a quarter hour apart, each code reads
      back as its time, and the rows follow the header row. */
  lemma SlotsAreQuarterHours(k: nat)
    requires k < 48
    ensures Canonical(SlotTime(k))
    ensures Minutes(SlotTime(k)) == 9 * 60 + 15 * k
    ensures k + 1 < 48 ==> LessThan(SlotTime(k), SlotTime(k + 1))
    ensures |Slot(k).code| == 4 && AllDigits(Slot(k).code)
    ensures DecodeTime24H(Slot(k).code) == SlotTime(k)
    ensures Slot(k).gridRow == k + 2
  {
    SlotTimeQuarters(k);
    SlotTimeQuarters(k + 1);
    Time24HRoundTrip(SlotTime(k));
  }

  /** The events sorted into the day the source reads for the `i`-th header:
      a day with no bucket reads as empty. */
  function BucketFor(buckets: seq<seq<Activity>>, i: nat): seq<Activity> {
    if i < |buckets| then buckets[i] else []
  }

  /** The grid columns `gc .. gc + span - 1`. */
  function Columns(gc: nat, span: nat): (cs: seq<nat>)
    ensures |cs| == span
    ensures forall i :: 0 <= i < span ==> cs[i] == gc + i
  {
    seq(span, i requires 0 <= i < span => gc + i)
  }

  /** The column group of a placed day: as wide as its largest lane, the
      isolated events widened across it, its columns taken from `gc` on. */
  function Arrange(evs: seq<ViewEvent>, gc: nat): (v: WeekdayView)
    ensures v.span >= 1 && |v.events| == |evs| && |v.gridColumns| == v.span
    ensures forall i :: 0 <= i < v.span ==> v.gridColumns[i] == gc + i
    ensures forall i :: 0 <= i < |evs| ==> evs[i].offset < v.span
    ensures evs == [] ==> v.span == 1
    ensures evs != [] ==> exists i :: 0 <= i < |evs| && evs[i].offset == v.span - 1
  {
    var span := MaxOffset(evs) + 1;
    WeekdayView(span, Columns(gc, span), Widen(evs, span))
  }

  /** One turn of the day loop of `NewCenterView`: place the day's events,
      then arrange them from grid column `gc` on. */
  function DayView(acts: seq<Activity>, colours: map<string, string>, gc: nat): (r: Result<WeekdayView, Error>)
    ensures r.Success? <==> AllParse(acts)
    ensures r.Failure? ==> r.error == MalformedTimeRange
  {
    match PlaceDay(acts, colours)
    case Failure(e) => Failure(e)
    case Success(evs) => Success(Arrange(evs, gc))
  }

  /** Arranging keeps every event's activity, times, colour and lane and
      changes only the width. */
  lemma ArrangeKeepsEvents(evs: seq<ViewEvent>, gc: nat, i: nat)
    requires i < |evs|
    ensures var e := Arrange(evs, gc).events[i];
      e == evs[i].(span := e.span)
  {
  }

  /** Each event of a day is made of the day's activity at its index, keeps
      what that activity says, and sits in a lane of the day. */
  lemma DayViewEvents(acts: seq<Activity>, colours: map<string, string>, gc: nat, v: WeekdayView, i: nat)
    requires DayView(acts, colours, gc) == Success(v)
    requires i < |acts|
    ensures i < |v.events|
    ensures v.events[i].activity == acts[i]
    ensures Described(v.events[i], colours)
    ensures v.events[i].offset < v.span
  {
    var evs := PlaceDay(acts, colours).value;
    assert v == Arrange(evs, gc);
    PlaceDayKeepsOrder(acts, colours);
    assert EventAt(evs, acts, colours, i);
    ArrangeKeepsDescription(evs, gc, colours, i);
  }

  lemma ArrangeKeepsDescription(evs: seq<ViewEvent>, gc: nat, colours: map<string, string>, i: nat)
    requires i < |evs| && Described(evs[i], colours)
    ensures Arrange(evs, gc).events[i].activity == evs[i].activity
    ensures Arrange(evs, gc).events[i].offset == evs[i].offset
    ensures Described(Arrange(evs, gc).events[i], colours)
  {
    ArrangeKeepsEvents(evs, gc, i);
  }

  /** The lanes of a non-empty day are exactly `0 .. span-1`. */
  lemma ArrangeLanesContiguous(evs: seq<ViewEvent>, gc: nat)
    requires DayOk(evs) && |evs| > 0
    ensures var v := Arrange(evs, gc);
      Offsets(v.events) == Below(v.span)
  {
    var v := Arrange(evs, gc);
    forall j | 0 <= j < |evs| ensures v.events[j].offset == evs[j].offset {
      ArrangeKeepsEvents(evs, gc, j);
    }
    LanesAreContiguous(evs);
    assert Offsets(v.events) == Offsets(evs);
  }

  /** An event spans the whole day when it overlaps neither neighbour (or
      the day is one lane wide) and is one lane wide otherwise. */
  lemma ArrangeWidening(evs: seq<ViewEvent>, gc: nat, i: nat)
    requires DayOk(evs) && i < |evs|
    requires forall j :: 0 <= j < |evs| ==> evs[j].span == 1
    ensures var v := Arrange(evs, gc);
      && (v.events[i].span == v.span <==> Alone(v.events, i) || v.span == 1)
      && (v.events[i].span == 1 || v.events[i].span == v.span)
  {
    var v := Arrange(evs, gc);
    forall j | 0 <= j < |evs| ensures v.events[j].when == evs[j].when {
      ArrangeKeepsEvents(evs, gc, j);
    }
    WidensExactlyTheAlone(evs, i);
    assert Alone(v.events, i) <==> Alone(evs, i);
  }

  /** An event overlapping the one before it is in a different lane. */
  lemma ArrangeNeighboursApart(evs: seq<ViewEvent>, gc: nat, i: nat)
    requires DayOk(evs) && 0 < i < |evs|
    requires IntervalsOverlap(Arrange(evs, gc).events[i - 1].when, Arrange(evs, gc).events[i].when)
    ensures Arrange(evs, gc).events[i].offset != Arrange(evs, gc).events[i - 1].offset
  {
    ArrangeKeepsEvents(evs, gc, i);
    ArrangeKeepsEvents(evs, gc, i - 1);
    NeighboursApart(evs, i);
  }

  function SpansOf(vs: seq<WeekdayView>): (spans: seq<nat>)
    ensures |spans| == |vs|
  {
    seq(|vs|, d requires 0 <= d < |vs| => vs[d].span)
  }

  /** The first grid column of day `d`: column 1 holds the row labels and
      every earlier day takes as many columns as it has lanes. */
  function ColumnStart(vs: seq<WeekdayView>, d: nat): nat
    requires d <= |vs|
  {
    2 + Sum(SpansOf(vs[..d]))
  }

  /** Day `d` of `vs` is the day view of its bucket, placed right after
      the columns of the days before it. */
  predicate DayAt(buckets: seq<seq<Activity>>, colours: map<string, string>, vs: seq<WeekdayView>, d: nat)
    requires d < |vs|
  {
    DayView(BucketFor(buckets, d), colours, ColumnStart(vs, d)) == Success(vs[d])
  }

  lemma DayAtSnoc(buckets: seq<seq<Activity>>, colours: map<string, string>, vs: seq<WeekdayView>,
                  v: WeekdayView, d: nat)
    requires d < |vs| && DayAt(buckets, colours, vs, d)
    ensures DayAt(buckets, colours, vs + [v], d)
  {
    var ws := vs + [v];
    assert ws[..d] == vs[..d];
    assert ColumnStart(ws, d) == ColumnStart(vs, d);
    assert ws[d] == vs[d];
  }

  /** The buckets read for the first `n` headers all hold well-formed
      time ranges. */
  predicate DaysParse(buckets: seq<seq<Activity>>, n: nat) {
    forall i :: 0 <= i < n ==> AllParse(BucketFor(buckets, i))
  }

  lemma DaysParseStep(buckets: seq<seq<Activity>>, n: nat)
    requires n > 0
    ensures DaysParse(buckets, n) <==> DaysParse(buckets, n - 1) && AllParse(BucketFor(buckets, n - 1))
  {
  }

  /** Every day of `vs` is laid out from its bucket in place. */
  predicate DaysLaidOut(buckets: seq<seq<Activity>>, colours: map<string, string>, vs: seq<WeekdayView>) {
    forall d :: 0 <= d < |vs| ==> DayAt(buckets, colours, vs, d)
  }

  /** `n` days laid out in place, `gc` the column after the last. */
  predicate DaysBuilt(buckets: seq<seq<Activity>>, n: nat, colours: map<string, string>,
                      vs: seq<WeekdayView>, gc: nat) {
    |vs| == n && gc == ColumnStart(vs, n) && DaysLaidOut(buckets, colours, vs)
  }

  /** The day loop of `NewCenterView` over the first `n` headers: the day
      views and the next free grid column `gc`. */
  function BuildDays(buckets: seq<seq<Activity>>, n: nat, colours: map<string, string>)
    : (r: Result<(seq<WeekdayView>, nat), Error>)
    ensures r.Success? <==> DaysParse(buckets, n)
    ensures r.Failure? ==> r.error == MalformedTimeRange
    ensures r.Success? ==> DaysBuilt(buckets, n, colours, r.value.0, r.value.1)
    decreases n
  {
    if n == 0 then Success(([], 2))
    else
      var prev := BuildDays(buckets, n - 1, colours);
      if prev.Failure? then
        DaysParseStep(buckets, n);
        Failure(prev.error)
      else
        var vs, gc := prev.value.0, prev.value.1;
        var day := DayView(BucketFor(buckets, n - 1), colours, gc);
        DaysParseStep(buckets, n);
        if day.Failure? then Failure(day.error)
        else
          BuildDaysStep(buckets, n, colours, vs, gc, day.value);
          Success((vs + [day.value], gc + day.value.span))
  }

  lemma BuildDaysStep(buckets: seq<seq<Activity>>, n: nat, colours: map<string, string>,
                      vs: seq<WeekdayView>, gc: nat, v: WeekdayView)
    requires n > 0 && DaysBuilt(buckets, n - 1, colours, vs, gc)
    requires DayView(BucketFor(buckets, n - 1), colours, gc) == Success(v)
    ensures DaysBuilt(buckets, n, colours, vs + [v], gc + v.span)
  {
    ColumnStartSnoc(vs, v);
    forall d | 0 <= d < |vs| + 1 ensures DayAt(buckets, colours, vs + [v], d) {
      if d < |vs| {
        DayAtSnoc(buckets, colours, vs, v, d);
      } else {
        assert (vs + [v])[d] == v;
      }
    }
  }

  /** Appending a day leaves the start of every earlier day where it was and
      starts the next day after the new one's columns. */
  lemma ColumnStartSnoc(vs: seq<WeekdayView>, v: WeekdayView)
    ensures ColumnStart(vs + [v], |vs|) == ColumnStart(vs, |vs|)
    ensures ColumnStart(vs + [v], |vs| + 1) == ColumnStart(vs, |vs|) + v.span
  {
    var ws := vs + [v];
    assert ws[..|vs|] == vs && ws[..|vs| + 1] == ws && vs[..|vs|] == vs;
    assert SpansOf(ws) == SpansOf(vs) + [v.span];
    SumSnoc(SpansOf(vs), v.span);
  }

  /** `NewCenterView`: colour the names, bucket and sort the week, lay out
      one column group per header, and build the grid template from the
      groups' widths. */
  function NewCenterView(cw: CenterWeek, days: seq<WeekDay>): (r: Result<CenterView, Error>)
    ensures r.Success? <==>
      EventsByWeekday(cw.events).Success? && DaysParse(EventsByWeekday(cw.events).value, |days|)
    ensures !KnownWeekdays(cw.events) ==>
      r == Failure(UnknownWeekday(FirstUnknownWeekday(cw.events).value))
    ensures r.Failure? && r.error.UnknownWeekday? ==>
      exists i :: 0 <= i < |cw.events| && Weekday(cw.events[i]) == Failure(r.error)
        && KnownWeekdays(cw.events[..i])
    ensures r.Failure? && KnownWeekdays(cw.events) ==> r.error == MalformedTimeRange
    ensures r.Success? ==>
      && r.value.centerId == cw.centerId
      && r.value.centerName == cw.centerName
      && |r.value.weekdays| == |days|
      && AllPositive(SpansOf(r.value.weekdays))
      && r.value.gridColumns == GridColumns(SpansOf(r.value.weekdays))
    ensures r.Success? ==> DaysLaidOut(EventsByWeekday(cw.events).value, ColourMap(cw.events), r.value.weekdays)
  {
    var colours := ColourMap(cw.events);
    match EventsByWeekday(cw.events)
    case Failure(e) =>
      if e.UnknownWeekday? then Failure(e)
      else
        assert forall i :: 0 <= i < |cw.events| ==> Weekday(cw.events[i]).Success?;
        Failure(e)
    case Success(buckets) =>
      match BuildDays(buckets, |days|, colours)
      case Failure(e) => Failure(e)
      case Success((vs, _)) =>
        var spans := SpansOf(vs);
        assert AllPositive(spans) by {
          forall d | 0 <= d < |spans| ensures spans[d] > 0 {
            assert DayAt(buckets, colours, vs, d);
          }
        }
        Success(CenterView(cw.centerId, cw.centerName, GridColumns(spans), vs))
  }

  /** Splitting the spans of a prefix of the days is splitting the spans. */
  lemma SpansOfPrefix(vs: seq<WeekdayView>, d: nat)
    requires d <= |vs|
    ensures SpansOf(vs[..d]) == SpansOf(vs)[..d]
  {
  }

  /** Day `d` of a center occupies the grid columns from its column start
      on, one per lane, and the center's template is the token list of its
      day widths joined by blanks. */
  lemma CenterColumnsPlaced(cw: CenterWeek, days: seq<WeekDay>, cv: CenterView, d: nat)
    requires NewCenterView(cw, days) == Success(cv)
    requires d < |cv.weekdays|
    ensures cv.weekdays[d].gridColumns == Columns(ColumnStart(cv.weekdays, d), cv.weekdays[d].span)
    ensures AllPositive(SpansOf(cv.weekdays)) && cv.gridColumns == Join(GridTokens(SpansOf(cv.weekdays)))
  {
    var buckets := EventsByWeekday(cw.events).value;
    var colours := ColourMap(cw.events);
    assert DayAt(buckets, colours, cv.weekdays, d);
    GridColumnsJoinsTokens(SpansOf(cv.weekdays));
  }

  /** The columns line up with the template: lane `k` of day `d` is grid
      column `TokenIndex + 1` (columns count from 1 and the label column
      comes first), and the template gives that column `(L/span)fr`, `L`
      the lcm of the spans, which `EveryDayEquallyWide` shows makes every
      day equally wide. */
  lemma ColumnsMatchTemplate(vs: seq<WeekdayView>, d: nat, k: nat)
    requires AllPositive(SpansOf(vs))
    requires d < |vs| && k < vs[d].span
    ensures ColumnStart(vs, d) + k == TokenIndex(SpansOf(vs), d, k) + 1
    ensures TokenIndex(SpansOf(vs), d, k) < |GridTokens(SpansOf(vs))|
    ensures GridTokens(SpansOf(vs))[TokenIndex(SpansOf(vs), d, k)] == Fr(Lcm(SpansOf(vs)) / vs[d].span)
  {
    var spans := SpansOf(vs);
    SpansOfPrefix(vs, d);
    GridTokensLayout(spans, d, k);
  }

  /** Every event shown in a center's day column is one of the center's
      activities of that weekday, keeps what that activity says, and wears
      the colour of its name; a column past Saturday is empty. */
  lemma CenterDayEvents(cw: CenterWeek, days: seq<WeekDay>, d: nat, i: nat)
    requires NewCenterView(cw, days).Success?
    requires d < |days| && i < |NewCenterView(cw, days).value.weekdays[d].events|
    ensures var e := NewCenterView(cw, days).value.weekdays[d].events[i];
      && d < 7
      && e.activity in cw.events
      && Weekday(e.activity) == Success(d)
      && Described(e, ColourMap(cw.events))
      && e.bgColor == ColourMap(cw.events)[e.activity.name]
  {
    var cv := NewCenterView(cw, days).value;
    var buckets := EventsByWeekday(cw.events).value;
    var colours := ColourMap(cw.events);
    var vs := cv.weekdays;
    assert DayAt(buckets, colours, vs, d);
    var acts := BucketFor(buckets, d);
    var gc := ColumnStart(vs, d);
    assert DayView(acts, colours, gc) == Success(vs[d]);
    DayViewEvents(acts, colours, gc, vs[d], i);
    var a := acts[i];
    assert d < 7;
    assert a in multiset(Bucket(cw.events, d)) by {
      assert a in multiset(buckets[d]);
    }
    BucketContents(cw.events, d, a);
    assert a.name in colours by {
      var j :| 0 <= j < |cw.events| && cw.events[j] == a;
      assert cw.events[j].name in NameSet(cw.events);
    }
  }

  /** `cs` are the center views of the first `|cs|` center weeks. */
  predicate CentersBuilt(plans: seq<CenterWeek>, days: seq<WeekDay>, cs: seq<CenterView>) {
    && |cs| <= |plans|
    && forall j :: 0 <= j < |cs| ==> NewCenterView(plans[j], days) == Success(cs[j])
  }

  lemma CentersBuiltSnoc(plans: seq<CenterWeek>, days: seq<WeekDay>, cs: seq<CenterView>, cv: CenterView)
    requires CentersBuilt(plans, days, cs) && |cs| < |plans|
    requires NewCenterView(plans[|cs|], days) == Success(cv)
    ensures CentersBuilt(plans, days, cs + [cv])
  {
    var ws := cs + [cv];
    forall j | 0 <= j < |ws| ensures NewCenterView(plans[j], days) == Success(ws[j]) {
      if j < |cs| {
        assert ws[j] == cs[j];
      }
    }
  }

  /** The center loop of `NewView`: one center view per center week, in
      order, until the first that fails, whose error is the result. */
  method BuildCenters(plans: seq<CenterWeek>, days: seq<WeekDay>) returns (r: Result<seq<CenterView>, Error>)
    ensures r.Success? ==> |r.value| == |plans| && CentersBuilt(plans, days, r.value)
    ensures r.Failure? ==> exists cs :: (CentersBuilt(plans, days, cs) && |cs| < |plans|
      && NewCenterView(plans[|cs|], days) == Failure(r.error))
  {
    var centers: seq<CenterView> := [];
    for i := 0 to |plans|
      invariant |centers| == i
      invariant CentersBuilt(plans, days, centers)
    {
      var cv := NewCenterView(plans[i], days);
      if cv.Failure? {
        return Failure(cv.error);
      }
      CentersBuiltSnoc(plans, days, centers, cv.value);
      centers := centers + [cv.value];
    }
    return Success(centers);
  }

  /** `NewView`: the day headers, the row labels and one center view per
      center week, in order; the first center that fails aborts the view
      with its error. */
  method NewView(plan: CenterPlan) returns (r: Result<View, Error>)
    ensures r.Success? ==>
      && r.value.days == Weekdays()
      && |r.value.times| == 48
      && (forall k :: 0 <= k < 48 ==> r.value.times[k] == Slot(k))
      && |r.value.centers| == |plan.plans|
      && CentersBuilt(plan.plans, Weekdays(), r.value.centers)
    ensures r.Failure? ==> exists cs :: (CentersBuilt(plan.plans, Weekdays(), cs) && |cs| < |plan.plans|
      && NewCenterView(plan.plans[|cs|], Weekdays()) == Failure(r.error))
  {
    var days := Weekdays();
    var times := Times();
    var centers := BuildCenters(plan.plans, days);
    if centers.Failure? {
      return Failure(centers.error);
    }
    return Success(View(centers.value, days, times));
  }
}
