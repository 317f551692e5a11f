/** `eventsByWeekday` of models/week.go: seven weekday buckets, each sorted
    by start time with `ByStartTime`. */
module Buckets {
  import opened Wrappers
  import opened Clock
  import opened TimeRange
  import opened Activities
  import opened Sorting

  /** The `ByStartTime` sort key: start time in minutes since midnight. */
  function StartMinutes(a: Activity): nat
    requires Parses(a)
  {
    Minutes(Times(a).value.start)
  }

  /** The sort key as a total function: the start minutes of a range that
      parses, 0 otherwise (the sort never reads it for such a range, see
      `Sortable`). */
  function StartKey(a: Activity): nat {
    match ParseTimeRange(a.timeRange)
    case Some(iv) => Minutes(iv.start)
    case None => 0
  }

  predicate AllParse(s: seq<Activity>) {
    forall i {:trigger Parses(s[i])} :: 0 <= i < |s| ==> Parses(s[i])
  }

  /** A bucket the sort can handle: reading a start time that does not parse
      dereferences nil, and a sort of two or more elements reads every
      element's start time. */
  predicate Sortable(s: seq<Activity>) {
    |s| <= 1 || AllParse(s)
  }

  /** Non-decreasing start minutes (`ByStartTime.Less` never holds backwards). */
  predicate SortedByStart(s: seq<Activity>) {
    forall i, j :: 0 <= i < j < |s| ==>
      Parses(s[i]) && Parses(s[j]) && StartMinutes(s[i]) <= StartMinutes(s[j])
  }

  /** `sort.Sort(ByStartTime(bucket))`. */
  function SortByStart(s: seq<Activity>): (r: seq<Activity>)
    requires Sortable(s)
    ensures multiset(r) == multiset(s)
    ensures SortedByStart(r)
  {
    var r := SortBy(s, StartKey);
    if |s| <= 1 then
      assert r == s by {
        if |s| == 1 { assert r[0] in multiset(s); }
      }
      r
    else
      forall i | 0 <= i < |r| ensures Parses(r[i]) {
        assert r[i] in multiset(s);
      }
      r
  }

  /** Activities with equal start minutes stay in input order: the model's
      sort is stable, which `sort.Sort` need not be. */
  lemma SortByStartKeepsTies(s: seq<Activity>, k: nat)
    requires Sortable(s)
    ensures KeyFilter(SortByStart(s), StartKey, k) == KeyFilter(s, StartKey, k)
  {
    SortByIsStable(s, StartKey, k);
  }

  /** The input activities whose day code names weekday `d`, in input order. */
  function Bucket(acts: seq<Activity>, d: nat): seq<Activity> {
    if acts == [] then []
    else (if Weekday(acts[0]) == Success(d) then [acts[0]] else []) + Bucket(acts[1..], d)
  }

  predicate KnownWeekdays(acts: seq<Activity>) {
    forall i :: 0 <= i < |acts| ==> Weekday(acts[i]).Success?
  }

  /** The first unknown day code in input order, if any. */
  function FirstUnknownWeekday(acts: seq<Activity>): (r: Option<string>)
    ensures r.None? <==> KnownWeekdays(acts)
    ensures r.Some? ==>
      exists i :: 0 <= i < |acts| && acts[i].dayOfWeek == r.value && Weekday(acts[i]).Failure?
        && KnownWeekdays(acts[..i])
  {
    if acts == [] then None
    else if Weekday(acts[0]).Failure? then Some(acts[0].dayOfWeek)
    else
      var r := FirstUnknownWeekday(acts[1..]);
      if r.Some? then
        var i :| 0 <= i < |acts[1..]| && acts[1..][i].dayOfWeek == r.value
          && Weekday(acts[1..][i]).Failure? && KnownWeekdays(acts[1..][..i]);
        var prefix := acts[..i + 1];
        assert KnownWeekdays(prefix) by {
          forall j | 0 <= j < i + 1 ensures Weekday(prefix[j]).Success? {
            if j > 0 { assert prefix[j] == acts[1..][..i][j - 1]; }
          }
        }
        assert acts[i + 1] == acts[1..][i];
        r
      else
        assert KnownWeekdays(acts) by {
          forall i | 0 <= i < |acts| ensures Weekday(acts[i]).Success? {
            if i > 0 { assert acts[i] == acts[1..][i - 1]; }
          }
        }
        r
  }

  /** `eventsByWeekday`: an unknown day code anywhere aborts with that code
      (the first one in input order); otherwise the seven buckets are built
      and each is sorted, which fails if a bucket of two or more holds a
      malformed time range. */
  function EventsByWeekday(acts: seq<Activity>): (r: Result<seq<seq<Activity>>, Error>)
    ensures r.Success? ==> KnownWeekdays(acts)
    ensures r.Success? ==> forall d :: 0 <= d < 7 ==> Sortable(Bucket(acts, d))
    ensures KnownWeekdays(acts) && (forall d :: 0 <= d < 7 ==> Sortable(Bucket(acts, d))) ==> r.Success?
    ensures !KnownWeekdays(acts) ==> r == Failure(UnknownWeekday(FirstUnknownWeekday(acts).value))
    ensures r.Failure? && r.error.UnknownWeekday? ==>
      exists i :: 0 <= i < |acts| && Weekday(acts[i]) == Failure(r.error) && KnownWeekdays(acts[..i])
    ensures r.Failure? && !(exists i :: 0 <= i < |acts| && Weekday(acts[i]).Failure?) ==>
      r.error == MalformedTimeRange
    ensures r.Success? ==> |r.value| == 7
    ensures r.Success? ==> forall d :: 0 <= d < 7 ==>
      multiset(r.value[d]) == multiset(Bucket(acts, d)) && SortedByStart(r.value[d])
  {
    match FirstUnknownWeekday(acts)
    case Some(code) => Failure(UnknownWeekday(code))
    case None =>
      if exists d: nat :: d < 7 && !Sortable(Bucket(acts, d)) then
        var d: nat :| d < 7 && !Sortable(Bucket(acts, d));
        assert !(forall d' :: 0 <= d' < 7 ==> Sortable(Bucket(acts, d')));
        Failure(MalformedTimeRange)
      else Success(seq(7, d requires 0 <= d < 7 => SortByStart(Bucket(acts, d))))
  }

  /** A bucket holds exactly the input activities of its weekday, with the
      same multiplicity. */
  lemma {:induction false} BucketContents(acts: seq<Activity>, d: nat, x: Activity)
    ensures multiset(Bucket(acts, d))[x] ==
      if Weekday(x) == Success(d) then multiset(acts)[x] else 0
  {
    if acts != [] {
      BucketContents(acts[1..], d, x);
      assert acts == [acts[0]] + acts[1..];
    }
  }

  /** Every bucket is a permutation of the input activities with that
      weekday, sorted by start time; an empty input yields seven empty
      buckets. */
  lemma BucketsPartitionInput(acts: seq<Activity>, x: Activity)
    requires EventsByWeekday(acts).Success?
    ensures var days := EventsByWeekday(acts).value;
      forall d :: 0 <= d < 7 ==>
        multiset(days[d])[x] == if Weekday(x) == Success(d) then multiset(acts)[x] else 0
    ensures acts == [] ==> EventsByWeekday(acts).value == [[], [], [], [], [], [], []]
  {
    forall d | 0 <= d < 7 {
      BucketContents(acts, d, x);
    }
  }
}
