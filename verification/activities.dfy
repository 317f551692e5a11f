/** `Activity` of models/activity.go: its weekday code, its cached
    start/end times and the overlap test between two activities. */
module Activities {
  import opened Wrappers
  import opened Clock
  import opened TimeRange

  /** The exported fields of an activity record. */
  datatype Activity = Activity(
    id: int,
    name: string,
    number: string,
    timeRange: string,
    detailUrl: string,
    dayOfWeek: string)

  /** The two ways the layout can fail. The source reports an unknown day
      code as an error value; for a time range outside the pattern it leaves
      the cached times nil and then dereferences them, which the model turns
      into this error. */
  datatype Error = UnknownWeekday(code: string) | MalformedTimeRange

  /** The day codes in weekday order, Sunday = 0. */
  const WeekdayCodes: seq<string> := ["Sun", "Mon", "Tue", "Wed", "Thu", "Fri", "Sat"]

  /** Maps the day code to its weekday number. */
  function Weekday(a: Activity): (r: Result<nat, Error>)
    ensures r.Success? <==> a.dayOfWeek in WeekdayCodes
    ensures r.Success? ==> r.value < 7 && WeekdayCodes[r.value] == a.dayOfWeek
    ensures r.Failure? ==> r.error == UnknownWeekday(a.dayOfWeek)
  {
    var d := a.dayOfWeek;
    if d == "Sun" then Success(0)
    else if d == "Mon" then Success(1)
    else if d == "Tue" then Success(2)
    else if d == "Wed" then Success(3)
    else if d == "Thu" then Success(4)
    else if d == "Fri" then Success(5)
    else if d == "Sat" then Success(6)
    else Failure(UnknownWeekday(d))
  }

  predicate Parses(a: Activity) {
    ParseTimeRange(a.timeRange).Some?
  }

  /** The start and end times, or the failure of a malformed range. */
  function Times(a: Activity): (r: Result<Interval, Error>)
    ensures r.Success? <==> Parses(a)
    ensures r.Success? ==> Some(r.value) == ParseTimeRange(a.timeRange)
  {
    match ParseTimeRange(a.timeRange)
    case None => Failure(MalformedTimeRange)
    case Some(iv) => Success(iv)
  }

  /** An activity together with its private start/end cache, which the
      first successful access fills and later accesses reuse. */
  datatype Memo = Memo(activity: Activity, cache: Option<Interval>)

  /** A cache is coherent when it is empty or holds the parse of the range. */
  predicate Coherent(m: Memo) {
    m.cache.None? || m.cache == ParseTimeRange(m.activity.timeRange)
  }

  /** Fills the cache if it is empty; a failed parse leaves it empty. */
  function Fill(m: Memo): Memo {
    if m.cache.Some? then m else Memo(m.activity, ParseTimeRange(m.activity.timeRange))
  }

  /** `StartTime`: the cached start, parsing first if nothing is cached. */
  function StartTime(m: Memo): (Result<TimeOfDay, Error>, Memo) {
    var m' := Fill(m);
    match m'.cache
    case None => (Failure(MalformedTimeRange), m')
    case Some(iv) => (Success(iv.start), m')
  }

  /** `EndTime`: the cached end, parsing first if nothing is cached. */
  function EndTime(m: Memo): (Result<TimeOfDay, Error>, Memo) {
    var m' := Fill(m);
    match m'.cache
    case None => (Failure(MalformedTimeRange), m')
    case Some(iv) => (Success(iv.end), m')
  }

  /** The cache is invisible: on a coherent memo each accessor returns what
      a fresh parse would, leaves the memo coherent, and a repeated call (of
      either accessor) returns the same value and leaves the memo as it is. */
  lemma MemoIsTransparent(m: Memo)
    requires Coherent(m)
    ensures var (s, m1) := StartTime(m);
      && s == (match Times(m.activity) case Success(iv) => Success(iv.start) case Failure(e) => Failure(e))
      && Coherent(m1) && m1.activity == m.activity
      && StartTime(m1) == (s, m1)
    ensures var (e, m1) := EndTime(m);
      && e == (match Times(m.activity) case Success(iv) => Success(iv.end) case Failure(e) => Failure(e))
      && Coherent(m1) && m1.activity == m.activity
      && EndTime(m1) == (e, m1)
    ensures StartTime(m).1 == EndTime(m).1
  {
  }

  /** Strict half-open intersection: each starts before the other ends. */
  predicate IntervalsOverlap(x: Interval, y: Interval) {
    LessThan(x.start, y.end) && LessThan(y.start, x.end)
  }

  /** `Activity.Overlaps`: fails if either range is malformed. */
  function Overlaps(a: Activity, b: Activity): (r: Result<bool, Error>)
    ensures r.Success? <==> Parses(a) && Parses(b)
    ensures r.Success? ==> (r.value <==> IntervalsOverlap(Times(a).value, Times(b).value))
  {
    match Times(a)
    case Failure(e) => Failure(e)
    case Success(x) =>
      match Times(b)
      case Failure(e) => Failure(e)
      case Success(y) => Success(IntervalsOverlap(x, y))
  }

  predicate CanonicalInterval(x: Interval) {
    Canonical(x.start) && Canonical(x.end)
  }

  predicate NonEmpty(x: Interval) {
    LessThan(x.start, x.end)
  }

  /** A minute of the day lies in the half-open interval. */
  predicate Covers(x: Interval, k: int) {
    Minutes(x.start) <= k < Minutes(x.end)
  }

  /** Overlap is symmetric, touching endpoints do not overlap, and a
      non-empty interval overlaps itself. For non-empty intervals of
      canonical times, overlap means exactly that some minute of the day
      lies in both. */
  lemma OverlapMeansSharedMinute(x: Interval, y: Interval)
    ensures IntervalsOverlap(x, y) <==> IntervalsOverlap(y, x)
    ensures x.end == y.start ==> !IntervalsOverlap(x, y)
    ensures NonEmpty(x) ==> IntervalsOverlap(x, x)
    ensures CanonicalInterval(x) && CanonicalInterval(y) && NonEmpty(x) && NonEmpty(y) ==>
      (IntervalsOverlap(x, y) <==> exists k :: Covers(x, k) && Covers(y, k))
  {
    if CanonicalInterval(x) && CanonicalInterval(y) && NonEmpty(x) && NonEmpty(y) {
      LessThanMatchesMinutes(x.start, y.end);
      LessThanMatchesMinutes(y.start, x.end);
      LessThanMatchesMinutes(x.start, x.end);
      LessThanMatchesMinutes(y.start, y.end);
      if IntervalsOverlap(x, y) {
        var k := if Minutes(x.start) < Minutes(y.start) then Minutes(y.start) else Minutes(x.start);
        assert Covers(x, k) && Covers(y, k);
      }
    }
  }

  /** `Activity.Overlaps` in terms of the activities: it does not depend on
      the order of its arguments, an activity overlaps itself exactly when
      its range is non-empty, and for non-empty ranges of canonical times
      two activities overlap exactly when some minute of the day lies in
      both. */
  lemma OverlapsIsSharedMinute(a: Activity, b: Activity)
    ensures Overlaps(a, b) == Overlaps(b, a)
    ensures Parses(a) ==> Overlaps(a, a) == Success(NonEmpty(Times(a).value))
    ensures Parses(a) && Parses(b) ==>
      var (x, y) := (Times(a).value, Times(b).value);
      CanonicalInterval(x) && CanonicalInterval(y) && NonEmpty(x) && NonEmpty(y) ==>
        (Overlaps(a, b).value <==> exists k :: Covers(x, k) && Covers(y, k))
  {
    if Parses(a) && Parses(b) {
      OverlapMeansSharedMinute(Times(a).value, Times(b).value);
    }
  }
}
