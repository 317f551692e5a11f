/** The `TimeOfDay` value of models/week.go: ordering, minute difference and
    its two text renderings. Hours and minutes are whatever the time-range
    parser produced; it applies no range check, so both may reach 99. */
module Clock {
  import opened Decimal

  datatype TimeOfDay = TimeOfDay(hour: nat, minute: nat)

  /** Minutes since midnight, the key `ByStartTime` sorts by. */
  function Minutes(t: TimeOfDay): nat {
    t.hour * 60 + t.minute
  }

  /** A time whose minute field is a real minute (0..59). */
  predicate Canonical(t: TimeOfDay) {
    t.minute < 60
  }

  /** Lexicographic order on (hour, minute). */
  predicate LessThan(t: TimeOfDay, u: TimeOfDay) {
    t.hour < u.hour || (t.hour == u.hour && t.minute < u.minute)
  }

  function Abs(x: int): nat {
    if x < 0 then -x else x
  }

  /** Absolute difference in minutes. */
  function Difference(t: TimeOfDay, u: TimeOfDay): (d: nat)
    ensures d == Abs(Minutes(t) - Minutes(u))
  {
    Abs((t.hour - u.hour) * 60 + (t.minute - u.minute))
  }

  /** `%02d%02d` of hour and minute. */
  function Time24H(t: TimeOfDay): (s: string)
    ensures AllDigits(s)
    ensures t.hour < 100 && t.minute < 100 ==> |s| == 4
  {
    Pad2(t.hour) + Pad2(t.minute)
  }

  /** The 12-hour label `%02d:%02d AM|PM`: hours above 12 lose 12 and read PM,
      every other hour (12 included) is printed as is with AM. */
  function Time(t: TimeOfDay): (s: string)
    ensures t.hour < 112 && t.minute < 100 ==>
      && |s| == 8 && s[2] == ':' && s[5] == ' '
      && AllDigits(s[..2]) && AllDigits(s[3..5])
      && (s[6..] == "AM" || s[6..] == "PM")
      && (s[6..] == "PM" <==> t.hour > 12)
      && t.hour == Value(s[..2]) + (if s[6..] == "PM" then 12 else 0)
      && t.minute == Value(s[3..5])
  {
    var (h, ampm) := if t.hour > 12 then (t.hour - 12, "PM") else (t.hour, "AM");
    var s := Pad2(h) + ":" + Pad2(t.minute) + " " + ampm;
    if t.hour < 112 && t.minute < 100 then
      assert s[..2] == Pad2(h) && s[3..5] == Pad2(t.minute) && s[6..] == ampm;
      s
    else s
  }

  /** Reads a four-digit 24-hour code back into hour and minute. */
  function DecodeTime24H(s: string): (t: TimeOfDay)
    requires |s| == 4 && AllDigits(s)
    ensures t.hour < 100 && t.minute < 100
  {
    TwoDigitsBelowHundred(s[..2]);
    TwoDigitsBelowHundred(s[2..]);
    TimeOfDay(Value(s[..2]), Value(s[2..]))
  }

  /** For hour and minute below 100 the 24-hour code is four digits that
      decode back to the same time. */
  lemma Time24HRoundTrip(t: TimeOfDay)
    requires t.hour < 100 && t.minute < 100
    ensures |Time24H(t)| == 4
    ensures DecodeTime24H(Time24H(t)) == t
  {
    var s := Time24H(t);
    assert s[..2] == Pad2(t.hour);
    assert s[2..] == Pad2(t.minute);
  }

  /** `LessThan` is a strict total order: irreflexive, transitive, and any
      two distinct times are comparable one way. */
  lemma LessThanIsStrictTotalOrder(t: TimeOfDay, u: TimeOfDay, v: TimeOfDay)
    ensures !LessThan(t, t)
    ensures LessThan(t, u) && LessThan(u, v) ==> LessThan(t, v)
    ensures LessThan(t, u) ==> !LessThan(u, t)
    ensures t != u ==> LessThan(t, u) || LessThan(u, t)
  {
  }

  /** On canonical times the lexicographic order is the order of minutes
      since midnight, so sorting by minutes and comparing with `LessThan`
      agree. */
  lemma LessThanMatchesMinutes(t: TimeOfDay, u: TimeOfDay)
    requires Canonical(t) && Canonical(u)
    ensures LessThan(t, u) <==> Minutes(t) < Minutes(u)
  {
    if t.hour < u.hour {
      assert t.hour * 60 + 60 <= u.hour * 60;
    } else if u.hour < t.hour {
      assert u.hour * 60 + 60 <= t.hour * 60;
    }
  }

  /** Minutes above 59 are accepted by the parser, and then the two orders
      disagree: 9:75 is lexicographically before 10:00 but five minutes later. */
  lemma LessThanDisagreesPastMinute59()
    ensures var t, u := TimeOfDay(9, 75), TimeOfDay(10, 0);
      LessThan(t, u) && Minutes(u) < Minutes(t)
  {
  }

  /** The difference is symmetric and vanishes exactly when both times
      denote the same minute of the day; on canonical times, exactly when
      they are equal. */
  lemma DifferenceProperties(t: TimeOfDay, u: TimeOfDay)
    ensures Difference(t, u) == Difference(u, t)
    ensures Difference(t, u) == 0 <==> Minutes(t) == Minutes(u)
    ensures Canonical(t) && Canonical(u) ==> (Difference(t, u) == 0 <==> t == u)
  {
    if Canonical(t) && Canonical(u) && Minutes(t) == Minutes(u) {
      LessThanMatchesMinutes(t, u);
      LessThanMatchesMinutes(u, t);
    }
  }
}
