/** The time-range grammar accepted by `parseTimeRange` in models/activity.go:
    the anchored pattern
      SIDE " - " SIDE,   SIDE = D{1,2} ":" D{1,2} " " ("AM" | "PM")  |  "Noon"
    and the reading of each side as a `TimeOfDay`. A string outside the
    pattern yields no times at all. */
module TimeRange {
  import opened Wrappers
  import opened Decimal
  import opened Clock

  datatype Meridiem = AM | PM

  /** One side of a range as written: the literal `Noon`, or the hour and
      minute digit groups with the meridiem token. */
  datatype Side = Noon | Clock(hourDigits: string, minuteDigits: string, meridiem: Meridiem)

  datatype RangeText = RangeText(start: Side, end: Side)

  /** The parsed (start, end) pair. */
  datatype Interval = Interval(start: TimeOfDay, end: TimeOfDay)

  /** A `\d{1,2}` group. */
  predicate DigitGroup(s: string) {
    1 <= |s| <= 2 && AllDigits(s)
  }

  predicate WellFormedSide(side: Side) {
    side.Clock? ==> DigitGroup(side.hourDigits) && DigitGroup(side.minuteDigits)
  }

  predicate WellFormed(r: RangeText) {
    WellFormedSide(r.start) && WellFormedSide(r.end)
  }

  function RenderMeridiem(m: Meridiem): string {
    match m
    case AM => "AM"
    case PM => "PM"
  }

  function RenderSide(side: Side): string {
    match side
    case Noon => "Noon"
    case Clock(h, m, mer) => h + ":" + m + " " + RenderMeridiem(mer)
  }

  /** The strings the pattern matches are exactly the renderings of
      well-formed range texts. */
  function Render(r: RangeText): string {
    RenderSide(r.start) + " - " + RenderSide(r.end)
  }

  /** A digit group of one or two digits that is followed by `stop`; returns
      the group and what follows the stop character. */
  function DigitsThen(s: string, stop: char): (r: Option<(string, string)>)
    requires !IsDigit(stop)
    ensures r.Some? ==> DigitGroup(r.value.0) && s == r.value.0 + [stop] + r.value.1
  {
    if |s| >= 2 && IsDigit(s[0]) && s[1] == stop then
      assert s == s[..1] + [stop] + s[2..];
      Some((s[..1], s[2..]))
    else if |s| >= 3 && IsDigit(s[0]) && IsDigit(s[1]) && s[2] == stop then
      assert s == s[..2] + [stop] + s[3..];
      Some((s[..2], s[3..]))
    else None
  }

  function MeridiemPrefix(s: string): (r: Option<(Meridiem, string)>)
    ensures r.Some? ==> s == RenderMeridiem(r.value.0) + r.value.1
  {
    if |s| >= 2 && s[..2] == "AM" then
      assert s == s[..2] + s[2..];
      Some((AM, s[2..]))
    else if |s| >= 2 && s[..2] == "PM" then
      assert s == s[..2] + s[2..];
      Some((PM, s[2..]))
    else None
  }

  /** Reads one side from the front of `s`, returning it and the rest. */
  function SidePrefix(s: string): Option<(Side, string)> {
    if |s| >= 4 && s[..4] == "Noon" then Some((Noon, s[4..]))
    else ClockPrefix(s)
  }

  /** Reads a `D{1,2}:D{1,2} AM|PM` side from the front of `s`. */
  function ClockPrefix(s: string): Option<(Side, string)> {
    match DigitsThen(s, ':')
    case None => None
    case Some((h, s1)) =>
      match DigitsThen(s1, ' ')
      case None => None
      case Some((m, s2)) =>
        match MeridiemPrefix(s2)
        case None => None
        case Some((mer, s3)) => Some((Clock(h, m, mer), s3))
  }

  /** Matches the whole string against the anchored two-sided pattern. */
  function ParseText(s: string): Option<RangeText> {
    match SidePrefix(s)
    case None => None
    case Some((start, s1)) =>
      if |s1| >= 3 && s1[..3] == " - " then
        match SidePrefix(s1[3..])
        case None => None
        case Some((end, s2)) => if s2 == [] then Some(RangeText(start, end)) else None
      else None
  }

  /** `Noon` reads as 12:00; otherwise the digit groups are taken verbatim
      and PM adds 12 only to hours below 12 (so 12 stays 12 under AM and
      PM alike, and hours above 12 are never corrected). */
  function SideTime(side: Side): (t: TimeOfDay)
    requires WellFormedSide(side)
    ensures side.Noon? ==> t == TimeOfDay(12, 0)
    ensures side.Clock? ==>
      var h := Value(side.hourDigits);
      && t.minute == Value(side.minuteDigits)
      && t.hour == (if side.meridiem == PM && h < 12 then h + 12 else h)
  {
    match side
    case Noon => TimeOfDay(12, 0)
    case Clock(hd, md, mer) =>
      var h := Value(hd);
      TimeOfDay(if mer == PM && h < 12 then h + 12 else h, Value(md))
  }

  /** `parseTimeRange`: the (start, end) pair of a matching string, nothing
      for any other string. */
  function ParseTimeRange(s: string): (r: Option<Interval>)
    ensures r.Some? <==> ParseText(s).Some?
  {
    match ParseText(s)
    case None => None
    case Some(text) =>
      ParseTextSound(s);
      Some(Interval(SideTime(text.start), SideTime(text.end)))
  }

  lemma SidePrefixSound(s: string)
    ensures SidePrefix(s).Some? ==>
      WellFormedSide(SidePrefix(s).value.0) && s == RenderSide(SidePrefix(s).value.0) + SidePrefix(s).value.1
  {
    if |s| >= 4 && s[..4] == "Noon" {
      assert s == s[..4] + s[4..];
    } else {
      ClockPrefixSound(s);
    }
  }

  lemma ClockPrefixSound(s: string)
    ensures ClockPrefix(s).Some? ==>
      WellFormedSide(ClockPrefix(s).value.0) && s == RenderSide(ClockPrefix(s).value.0) + ClockPrefix(s).value.1
  {
    if ClockPrefix(s).Some? {
      var (h, s1) := DigitsThen(s, ':').value;
      var (m, s2) := DigitsThen(s1, ' ').value;
      var (mer, s3) := MeridiemPrefix(s2).value;
      Reassociate(h, [':'], m, [' '], RenderMeridiem(mer), s3);
    }
  }

  lemma Reassociate<T>(a: seq<T>, b: seq<T>, c: seq<T>, d: seq<T>, e: seq<T>, f: seq<T>)
    ensures a + b + (c + d + (e + f)) == a + b + c + d + e + f
  {
  }

  /** Every string the parser accepts is the rendering of what it read. */
  lemma {:induction false} ParseTextSound(s: string)
    ensures ParseText(s).Some? ==> WellFormed(ParseText(s).value) && Render(ParseText(s).value) == s
  {
    SidePrefixSound(s);
    if ParseText(s).Some? {
      var (start, s1) := SidePrefix(s).value;
      var rest := s1[3..];
      var (end, s2) := SidePrefix(rest).value;
      assert ParseText(s).value == RangeText(start, end);
      SidePrefixSound(rest);
      assert s1 == s1[..3] + rest;
      assert rest == RenderSide(end) + s2 && s2 == [];
      Reassociate3(RenderSide(start), s1[..3], RenderSide(end));
    }
  }

  lemma Reassociate3<T>(a: seq<T>, b: seq<T>, c: seq<T>)
    ensures a + (b + (c + [])) == a + b + c
  {
  }

  lemma DigitsThenComplete(g: string, stop: char, rest: string)
    requires DigitGroup(g) && !IsDigit(stop)
    ensures DigitsThen(g + [stop] + rest, stop) == Some((g, rest))
  {
    var s := g + [stop] + rest;
    if |g| == 1 {
      assert s[..1] == g && s[2..] == rest;
    } else {
      assert s[1] == g[1];
      assert s[..2] == g && s[3..] == rest;
    }
  }

  lemma MeridiemPrefixComplete(mer: Meridiem, rest: string)
    ensures MeridiemPrefix(RenderMeridiem(mer) + rest) == Some((mer, rest))
  {
    var s := RenderMeridiem(mer) + rest;
    assert s[..2] == RenderMeridiem(mer);
    assert s[2..] == rest;
  }

  lemma ClockPrefixComplete(h: string, m: string, mer: Meridiem, rest: string)
    requires WellFormedSide(Clock(h, m, mer))
    ensures SidePrefix(RenderSide(Clock(h, m, mer)) + rest) == Some((Clock(h, m, mer), rest))
  {
    var s := RenderSide(Clock(h, m, mer)) + rest;
    assert s[..4] != "Noon" by {
      assert IsDigit(s[0]);
    }
    var afterSpace := RenderMeridiem(mer) + rest;
    var afterColon := m + [' '] + afterSpace;
    assert s == h + [':'] + afterColon;
    DigitsThenComplete(h, ':', afterColon);
    DigitsThenComplete(m, ' ', afterSpace);
    MeridiemPrefixComplete(mer, rest);
  }

  lemma SidePrefixComplete(side: Side, rest: string)
    requires WellFormedSide(side)
    ensures SidePrefix(RenderSide(side) + rest) == Some((side, rest))
  {
    match side
    case Noon =>
      var s := RenderSide(side) + rest;
      assert s[..4] == "Noon";
      assert s[4..] == rest;
    case Clock(h, m, mer) =>
      ClockPrefixComplete(h, m, mer, rest);
  }

  /** Every rendering of a well-formed range text is accepted and read back
      as that text: together with `ParseTextSound`, the parser accepts
      exactly the language of the pattern. */
  lemma {:induction false} ParseTextComplete(r: RangeText)
    requires WellFormed(r)
    ensures ParseText(Render(r)) == Some(r)
  {
    var s := Render(r);
    var tail := " - " + RenderSide(r.end);
    assert s == RenderSide(r.start) + tail;
    SidePrefixComplete(r.start, tail);
    assert tail[..3] == " - ";
    assert tail[3..] == RenderSide(r.end) + [];
    SidePrefixComplete(r.end, []);
  }

  /** `parseTimeRange` succeeds exactly on renderings of well-formed range
      texts, and then yields the reading of each side. */
  lemma ParseTimeRangeCharacterized(s: string)
    ensures ParseTimeRange(s).Some? <==> exists r :: WellFormed(r) && Render(r) == s
    ensures forall r :: WellFormed(r) && Render(r) == s ==>
      ParseTimeRange(s) == Some(Interval(SideTime(r.start), SideTime(r.end)))
  {
    ParseTextSound(s);
    forall r | WellFormed(r) && Render(r) == s
      ensures ParseTimeRange(s) == Some(Interval(SideTime(r.start), SideTime(r.end)))
    {
      ParseTextComplete(r);
    }
  }
}

module TimeRangeExamples {
  import opened Wrappers
  import opened Decimal
  import opened Clock
  import opened TimeRange

  /** The side a 12-hour label denotes. */
  function LabelSide(t: TimeOfDay): Side {
    if t.hour > 12 then Clock(Pad2(t.hour - 12), Pad2(t.minute), PM)
    else Clock(Pad2(t.hour), Pad2(t.minute), AM)
  }

  /** The 12-hour labels of two times below hour 24 form a range string the
      parser reads back as those two times: the AM/PM rendering and the
      parser's PM rule are inverse on that domain, 12:xx AM included. */
  lemma TimeLabelsParseBack(t: TimeOfDay, u: TimeOfDay)
    requires t.hour < 24 && t.minute < 100
    requires u.hour < 24 && u.minute < 100
    ensures ParseTimeRange(Time(t) + " - " + Time(u)) == Some(Interval(t, u))
  {
    var r := RangeText(LabelSide(t), LabelSide(u));
    LabelSideReadsBack(t);
    LabelSideReadsBack(u);
    ParseTextComplete(r);
  }

  /** One label: well-formed, printed as `Time` prints it, read as `t`. */
  lemma LabelSideReadsBack(t: TimeOfDay)
    requires t.hour < 24 && t.minute < 100
    ensures WellFormedSide(LabelSide(t))
    ensures RenderSide(LabelSide(t)) == Time(t)
    ensures SideTime(LabelSide(t)) == t
  {
  }

  /** Past hour 23 the label no longer parses back: hour 30 prints as
      `18:00 PM`, which reads as 18:00. */
  lemma TimeLabelPastHour23DoesNotParseBack()
    ensures ParseTimeRange(Time(TimeOfDay(30, 0)) + " - Noon") == Some(Interval(TimeOfDay(18, 0), TimeOfDay(12, 0)))
  {
    var r := RangeText(Clock(Pad2(18), Pad2(0), PM), Noon);
    assert Render(r) == Time(TimeOfDay(30, 0)) + " - Noon";
    ParseTextComplete(r);
  }

  /** `12:30 AM` reads as 12:30, the same as `12:30 PM`. */
  lemma TwelveAmStaysTwelve()
    ensures ParseTimeRange("12:30 AM - 12:30 PM") == Some(Interval(TimeOfDay(12, 30), TimeOfDay(12, 30)))
  {
    var r := RangeText(Clock("12", "30", AM), Clock("12", "30", PM));
    assert Render(r) == "12:30 AM - 12:30 PM";
    assert Value("12") == 12 by { assert "12"[..1] == "1"; }
    assert Value("30") == 30 by { assert "30"[..1] == "3"; }
    ParseTextComplete(r);
  }

  /** `Noon` reads as 12:00 on either side of a range, whatever the other
      side says. */
  lemma NoonReadsAsTwelve(side: Side)
    requires WellFormedSide(side)
    ensures ParseTimeRange(Render(RangeText(Noon, side))) == Some(Interval(TimeOfDay(12, 0), SideTime(side)))
    ensures ParseTimeRange(Render(RangeText(side, Noon))) == Some(Interval(SideTime(side), TimeOfDay(12, 0)))
  {
    ParseTextComplete(RangeText(Noon, side));
    ParseTextComplete(RangeText(side, Noon));
  }

  /** The same digits read verbatim under AM, and under PM 12 hours later
      only when the hour is below 12: `12:mm PM` is 12:mm, and `13:mm PM`
      stays 13:mm. */
  lemma AmVerbatimPmAddsTwelve(h: string, m: string)
    requires DigitGroup(h) && DigitGroup(m)
    ensures ParseTimeRange(Render(RangeText(Clock(h, m, AM), Clock(h, m, PM)))) ==
      Some(Interval(TimeOfDay(Value(h), Value(m)),
                    TimeOfDay(if Value(h) < 12 then Value(h) + 12 else Value(h), Value(m))))
  {
    ParseTextComplete(RangeText(Clock(h, m, AM), Clock(h, m, PM)));
  }

  /** `Noon - 1:05 PM` is such a range. */
  lemma NoonAsStart()
    ensures WellFormedSide(Clock("1", "05", PM)) && SideTime(Clock("1", "05", PM)) == TimeOfDay(13, 5)
    ensures Render(RangeText(Noon, Clock("1", "05", PM))) == "Noon - 1:05 PM"
    ensures ParseTimeRange("Noon - 1:05 PM") == Some(Interval(TimeOfDay(12, 0), TimeOfDay(13, 5)))
  {
    var r := RangeText(Noon, Clock("1", "05", PM));
    assert Render(r) == "Noon - 1:05 PM";
    assert Value("05") == 5 by { assert "05"[..1] == "0"; }
    ParseTextComplete(r);
  }

  /** Digit groups pass unchecked: 99:99 PM is read as hour 99, minute 99. */
  lemma NoRangeCheck()
    ensures ParseTimeRange("99:99 PM - 0:0 AM") == Some(Interval(TimeOfDay(99, 99), TimeOfDay(0, 0)))
  {
    var r := RangeText(Clock("99", "99", PM), Clock("0", "0", AM));
    assert Render(r) == "99:99 PM - 0:0 AM";
    assert Value("99") == 99 by { assert "99"[..1] == "9"; }
    ParseTextComplete(r);
  }

  /** A missing space before the meridiem is refused. */
  lemma RejectsMissingSpace()
    ensures ParseTimeRange("9:45AM - Noon").None?
  {
    var s := "9:45AM - Noon";
    assert s[..4][0] != "Noon"[0];
    assert DigitsThen(s, ':') == Some(("9", "45AM - Noon")) by {
      assert s[..1] == "9";
      assert s[2..] == "45AM - Noon";
    }
    assert DigitsThen("45AM - Noon", ' ').None?;
  }

  /** A three-digit group is refused. */
  lemma RejectsThreeDigits()
    ensures ParseTimeRange("123:00 AM - Noon").None?
  {
    var s := "123:00 AM - Noon";
    assert s[..4][0] != "Noon"[0];
    assert DigitsThen(s, ':').None?;
  }

  /** A lower-case meridiem is refused. */
  lemma RejectsLowerCase()
    ensures ParseTimeRange("9:45 am - Noon").None?
  {
    var s := "9:45 am - Noon";
    assert s[..4][0] != "Noon"[0];
    assert DigitsThen(s, ':') == Some(("9", "45 am - Noon")) by {
      assert s[..1] == "9";
      assert s[2..] == "45 am - Noon";
    }
    var t := "45 am - Noon";
    assert DigitsThen(t, ' ') == Some(("45", "am - Noon")) by {
      assert t[..2] == "45";
      assert t[3..] == "am - Noon";
    }
    assert "am - Noon"[..2] == "am";
    assert MeridiemPrefix("am - Noon").None?;
    assert ClockPrefix(s).None?;
  }

  /** Trailing text after the second side is refused. */
  lemma RejectsTrailingText()
    ensures ParseTimeRange("Noon - Noon ").None?
  {
    var n := "Noon - Noon ";
    assert n[..4] == "Noon" && n[4..] == " - Noon ";
    assert n[4..][..3] == " - " && n[4..][3..] == "Noon ";
    assert "Noon "[..4] == "Noon" && "Noon "[4..] == " ";
  }
}
