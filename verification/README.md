# Weekly calendar layout of gojoin, in Dafny

This project models the layout core of the `models` package of gojoin. The
core turns a plan of center weeks into a weekly calendar view. Each center
week is a list of activity records, and the view is one row of seven weekday
column groups per center.

- `Activity` time ranges such as `9:45 AM - Noon` are parsed into a start
  and an end `TimeOfDay`. The model gives the exact grammar of the anchored
  pattern and its reading, including the quirks: no range checks, and 12
  stays 12 under AM and PM alike.
- Activities are bucketed by day code and each bucket is sorted by start
  minutes (`eventsByWeekday`).
- Each day's activities are placed one after the other into lanes
  (`NewViewEvent`). An event that overlaps the one placed before it walks
  back along the predecessor links and takes the least lane none of the
  overlapping chain members holds.
- Events that overlap neither neighbour are widened to the whole day.
  Every day takes `maxOffset + 1` grid columns, numbered on from column 2.
- The center's CSS grid template is `gridColumns`: the label column
  `50px`, then `lcm/span` fractions per lane, built with the source's own
  `gcd`/`lcm`.
- Activity names get colours from a six-colour palette in order of first
  appearance, then `white`.
- `NewView` puts the seven day headers, the 48 quarter-hour rows and one
  center view per center week together, and aborts on the first center
  that fails.

The source's `prevEvent` pointer is an index into the day's event sequence
(`Option<nat>`), so the walk back along the links terminates by
construction. Failures become values of a `Result` type with two errors:
an unknown day code, and a malformed time range. For a malformed range
the source leaves its cached times nil and then dereferences them.

The sort of a bucket is `sort.Sort`, which is not guaranteed to be
stable. The model sorts with a stable insertion sort: activities with
equal start minutes keep their input order (`Sorting.SortByIsStable`,
`Buckets.SortByStartKeepsTies`). The bucket contracts of
`Buckets.EventsByWeekday` state only what every admissible order shares:
the same activities, in non-decreasing start minutes. The layout contracts
of `Views.NewCenterView` are stated for the model's order, and the order of
tied activities decides lanes and widths. The source ranges over an
integer (models/view.go:222), so it needs Go 1.22 or later; there
`sort.Sort` sorts 12 or fewer elements by a stable insertion sort too. So
the layout agrees with the source for buckets of at most 12 activities.
For larger buckets with equal start minutes the source may order ties
differently. The sort reads start times only when a bucket holds two or
more activities. So a malformed range in a bucket of its own fails later,
in the lane loop, and one in a larger bucket fails in `eventsByWeekday`.
The model keeps that distinction; both yield the same error.

The unit test of `gridColumns` (models/view_test.go:19-24) expects a
template that starts with `1fr`. The code always starts the template with
`50px` (models/view.go:241). The model follows the code: `Grid.GridColumnsExample`
proves that the code's template for the test's spans is
`50px 6fr 3fr 3fr 2fr 2fr 2fr 6fr 6fr 6fr 6fr`, which differs from the
test's string.

The lane scheme only keeps events apart that overlap along a chain of
links. `LanesExamples.OverlappingEventsShareALane` shows a day
(9:00-12:00, 9:00-10:00, 10:00-11:00) in which the first and the third
event overlap and still share lane 0. That is the code's behaviour, and the
model keeps it.

Modules, one per concept: `Wrappers` (Option/Result), `Decimal` (digits,
`%d`, `%02d`), `Clock` (`TimeOfDay`), `TimeRange` (the time-range grammar),
`Activities`, `Sorting`, `Buckets` (`eventsByWeekday`), `Arith`
(`gcd`/`lcm`), `Grid` (`gridColumns`), `Colours`, `Lanes` (`NewViewEvent`
and the day loop), `Plans` (records), `Views` (`weekdays`, `times`,
`NewCenterView`, `NewView`), and two modules of worked examples.

## Model

| member | source | states |
|---|---|---|
| Activities.Weekday | models/activity.go:76-95 | exactly the codes Sun..Sat succeed, mapping to 0..6 in that order; any other code fails with that code |
| Activities.MemoIsTransparent | models/activity.go:54-74 | on a coherent cache each accessor returns what a fresh parse would and keeps the cache coherent; a repeated call returns the same value and leaves the cache unchanged; both accessors fill the cache alike |
| Activities.OverlapsIsSharedMinute | models/activity.go:28-52 | `Overlaps` does not depend on argument order (errors included); an activity overlaps itself iff its range is non-empty; for non-empty ranges of canonical times two activities overlap iff some minute of the day lies in both |
| Activities.OverlapMeansSharedMinute | models/activity.go:49 | overlap is symmetric; touching endpoints do not overlap; a non-empty interval overlaps itself; for canonical non-empty intervals, overlap iff some minute of the day lies in both |
| Clock.Difference | models/week.go:31-38 | the absolute difference of the two minute counts |
| Clock.DifferenceProperties | models/week.go:31-38 | symmetric; zero iff both denote the same minute; on canonical times zero iff the times are equal |
| Clock.Time | models/week.go:14-25 | for hour below 112 and minute below 100 the label is `HH:MM AM` or `HH:MM PM`; PM iff the hour is past 12; the hour digits plus 12 under PM give the hour (so 12 prints as AM) and the minute digits give the minute |
| Clock.Time24H | models/week.go:27-29 | all digits, four of them when hour and minute are below 100 |
| Clock.Time24HRoundTrip | models/week.go:27-29 | for hour and minute below 100 the code decodes back to the same time |
| Clock.LessThanIsStrictTotalOrder | models/week.go:40-42 | irreflexive, transitive, asymmetric and total on distinct times |
| Clock.LessThanMatchesMinutes | models/week.go:40-56 | on canonical times the order agrees with the minute count that `ByStartTime` sorts by |
| Clock.LessThanDisagreesPastMinute59 | models/week.go:40-56 | 9:75, which the parser accepts, is before 10:00 lexicographically but later in minutes |
| Decimal.NatToString | models/view.go:245 | the `%d` rendering: all digits, denotes the number, one digit exactly below 10, no leading zero |
| Decimal.Pad2 | models/week.go:24-28 | the `%02d` rendering: at least two digits, denotes the number, exactly two below 100 |
| Decimal.TwoDigitsBelowHundred | models/activity.go:132 | one or two digits denote less than 100, so the 8-bit `ParseInt` never fails on a group the pattern admits |
| TimeRange.DigitsThen | models/activity.go:98 | a match splits the string into a one- or two-digit group, the stop character and the rest |
| TimeRange.MeridiemPrefix | models/activity.go:98 | a match splits the string into `AM` or `PM` and the rest |
| TimeRange.SidePrefixSound | models/activity.go:98 | a side read from the front of a string is well formed and its rendering is that front |
| TimeRange.ClockPrefixSound | models/activity.go:98 | the same for the `H:MM AM/PM` alternative |
| TimeRange.ParseTextSound | models/activity.go:98 | every accepted string is the rendering of the well-formed range text read from it |
| TimeRange.DigitsThenComplete | models/activity.go:98 | a digit group followed by the stop character is read back exactly |
| TimeRange.MeridiemPrefixComplete | models/activity.go:98 | `AM`/`PM` followed by anything is read back exactly |
| TimeRange.ClockPrefixComplete | models/activity.go:98 | a well-formed clock side followed by anything is read back exactly |
| TimeRange.SidePrefixComplete | models/activity.go:98 | a well-formed side followed by anything is read back exactly |
| TimeRange.ParseTextComplete | models/activity.go:98 | every rendering of a well-formed range text is accepted and read back as that text |
| TimeRange.ParseTimeRangeCharacterized | models/activity.go:97-159 | succeeds iff the string renders some well-formed range text, and then yields that text's side readings |
| TimeRangeExamples.TimeLabelsParseBack | models/week.go:14-25 | the 12-hour labels of two times below hour 24 form a range that parses back to those two times |
| TimeRangeExamples.LabelSideReadsBack | models/week.go:14-25 | one label below hour 24 is a well-formed side, renders as `Time` prints it, and reads back as the time |
| TimeRangeExamples.TimeLabelPastHour23DoesNotParseBack | models/week.go:17-19 | hour 30 prints as `18:00 PM`, which parses as 18:00 |
| TimeRangeExamples.AmVerbatimPmAddsTwelve | models/activity.go:119-156 | for any one- or two-digit groups, the AM reading is the digits verbatim and the PM reading of the same digits adds 12 exactly when the hour is below 12 |
| TimeRangeExamples.TwelveAmStaysTwelve | models/activity.go:151-156 | `12:30 AM - 12:30 PM` parses to 12:30 on both sides |
| TimeRangeExamples.NoonReadsAsTwelve | models/activity.go:113-118 | `Noon` reads 12:00 as start and as end, whatever the other side |
| TimeRangeExamples.NoonAsStart | models/activity.go:98-156 | `Noon - 1:05 PM` is the rendering of that range and parses to start 12:00 and end 13:05 |
| TimeRangeExamples.NoRangeCheck | models/activity.go:132-145 | `99:99 PM - 0:0 AM` parses to 99:99 and 0:00 |
| TimeRangeExamples.RejectsMissingSpace | models/activity.go:98 | `9:45AM - Noon` is refused |
| TimeRangeExamples.RejectsThreeDigits | models/activity.go:98 | `123:00 AM - Noon` is refused |
| TimeRangeExamples.RejectsLowerCase | models/activity.go:98 | `9:45 am - Noon` is refused |
| TimeRangeExamples.RejectsTrailingText | models/activity.go:98 | `Noon - Noon ` is refused |
| Sorting.InsertBy | models/week.go:74 | inserting into a sorted sequence gives a sorted permutation of it plus the element |
| Sorting.SortBy | models/week.go:74 | a sorted permutation of the input |
| Buckets.SortByStart | models/week.go:46-56 | a permutation of the bucket with non-decreasing start minutes |
| Sorting.InsertByFilter | models/week.go:74 | an inserted element goes in front of every element with its key, and the others of that key keep their order |
| Sorting.SortByIsStable | models/week.go:74 | for every key, the elements with that key appear in the sorted result in their input order |
| Buckets.SortByStartKeepsTies | models/week.go:46-56 | activities with equal start minutes keep their input order in the sorted bucket |
| Buckets.FirstUnknownWeekday | models/week.go:64-68 | none iff every code is known; otherwise the code of an activity with an unknown code, all before it known |
| Buckets.EventsByWeekday | models/week.go:58-78 | an unknown code fails with the first unknown code, before any sorting; with all codes known it succeeds iff every bucket can be sorted; on success seven buckets, each a sorted permutation of the activities of that weekday |
| Buckets.BucketContents | models/week.go:64-71 | a bucket holds each activity of its weekday as often as the input does, and no other |
| Buckets.BucketsPartitionInput | models/week.go:58-78 | every returned bucket is that permutation; an empty input gives seven empty buckets |
| Arith.Gcd | models/view.go:264-270 | a zero argument gives the other one; zero only for two zero arguments |
| Arith.GcdDividesBoth | models/view.go:264-270 | the result divides both arguments |
| Arith.GcdIsGreatest | models/view.go:264-270 | every common divisor divides the result |
| Arith.GcdSymmetric | models/view.go:264-270 | symmetric, with `gcd(a, 0) == a` and `gcd(0, b) == b` |
| Arith.Bezout | models/view.go:264-270 | the result is an integer combination of the arguments |
| Arith.GcdPositive | models/view.go:264-270 | positive when either argument is |
| Arith.Lcm2IsLeastCommonMultiple | models/view.go:280 | one loop step on positive values is a positive common multiple that divides every common multiple |
| Arith.Lcm2Zero | models/view.go:280 | one loop step is zero iff an argument is zero |
| Arith.LcmFrom | models/view.go:277-283 | the loop result is zero iff the accumulator or some element is zero |
| Arith.Lcm | models/view.go:272-284 | zero for an empty sequence, and zero iff the sequence is empty or holds a zero |
| Arith.LcmFromIsLeastCommonMultiple | models/view.go:277-283 | from a positive accumulator the loop yields a common multiple of the accumulator and every element that divides every such common multiple |
| Arith.LcmIsLeastCommonMultiple | models/view.go:272-284 | for positive elements, a positive common multiple that divides every common multiple |
| Arith.LcmOfThree | models/view.go:277-283 | three positive elements fold left to right, pair by pair |
| Arith.LcmOfOneTwoThree | models/view_test.go:5-10 | `lcm([1, 2, 3]) == 6` |
| Arith.LcmOfTwoThreeFour | models/view_test.go:12-16 | `lcm([2, 3, 4]) == 12` |
| Grid.DayTokens | models/view.go:243-246 | one token per lane over all days |
| Grid.LanesAreSpacedTokens | models/view.go:243-246 | the loop's string is the day tokens, each followed by one blank |
| Grid.GridColumnsJoinsTokens | models/view.go:240-248 | the trimmed template is `50px` and the day tokens joined by single blanks |
| Grid.DayTokensLayout | models/view.go:243-246 | lane `k` of day `d` is the token after all earlier days' lanes, `(lcm/span_d)fr` |
| Grid.GridTokensLayout | models/view.go:240-248 | the template has `1 + sum(spans)` tokens, `50px` first, then lane `k` of day `d` at its position with `(lcm/span_d)fr` |
| Grid.EveryDayEquallyWide | models/view.go:242-245 | each day's lanes add up to the same `lcm` fractions |
| Grid.TrimKeepsPrefix | models/view.go:247 | trimming keeps every prefix that ends in a non-blank |
| Grid.TrimOneBlank | models/view.go:247 | trimming removes the single trailing blank the loop leaves |
| Grid.GridColumnsStartWithLabel | models/view.go:240-248 | the template starts with `50px ` when there are days, and is `50px` without them |
| Grid.GridColumnsExample | models/view_test.go:19-24 | for the test's spans the code's template is exactly `50px 6fr 3fr 3fr 2fr 2fr 2fr 6fr 6fr 6fr 6fr`, not the string the test expects |
| Grid.LcmOfTestSpans | models/view_test.go:20 | the lcm of the test's spans is 6 |
| Colours.ColourLoop | models/view.go:162-174 | the map's keys are the names seen, and the counter is their number |
| Colours.ColourOfFirstAppearance | models/view.go:162-174 | every name keeps the colour for the number of distinct names seen before its first appearance |
| Colours.PaletteIsInjective | models/view.go:154-161 | the six palette colours differ from each other and from `white` |
| Colours.DistinctColoursWhilePaletteLasts | models/view.go:162-174 | with at most six names, different names get different colours |
| Lanes.WalkBackVisitsAncestors | models/view.go:103-118 | the walk collects the lanes of exactly the ancestors that overlap the new event |
| Lanes.OverlapOffsetsAreBlocked | models/view.go:103-118 | the overlap map's keys are the predecessor's lane and those of its overlapping ancestors |
| Lanes.FirstFreeFrom | models/view.go:120-126 | the search stops at a free lane with every lane below it taken |
| Lanes.LeastUnused | models/view.go:120-126 | the least lane not in the map |
| Lanes.LaneFor | models/view.go:95-130 | overlapping the predecessor gives the least lane its overlapping chain does not hold, and keeps the link; otherwise lane 0 with no link |
| Lanes.NewViewEvent | models/view.go:94-151 | succeeds iff the range parses; the event holds the activity, the 24-hour start code, the duration in minutes, span 1, the mapped colour, and the lane of `LaneFor` |
| Lanes.LaneForIsLaneOk | models/view.go:94-130 | the lane and link given after the last placed event are where the lane scheme says |
| Lanes.PlaceKeepsDayOk | models/view.go:195-206 | placing such an event keeps the day well formed |
| Lanes.Extend | models/view.go:195-206 | one turn of the loop succeeds iff the range parses, appends one event and keeps the day well formed |
| Lanes.PlaceDay | models/view.go:189-206 | the day's loop succeeds iff every range parses, giving one event per activity in a well-formed day |
| Lanes.PlaceDayKeepsOrder | models/view.go:195-206 | event `i` is made of activity `i`, keeps what it says and is one lane wide |
| Lanes.MaxOffset | models/view.go:194-204 | the largest lane of the day, held by some event; 0 for an empty day |
| Lanes.BlockedComesFromEarlier | models/view.go:103-118 | a blocked lane is held by the predecessor or an earlier event |
| Lanes.LanesBelowAreTaken | models/view.go:103-126 | every lane below an event's lane is held by an earlier event |
| Lanes.LaneTaken | models/view.go:194-204 | every lane up to the largest is held |
| Lanes.LanesAreContiguous | models/view.go:194-204 | the lanes of a non-empty day are exactly `0 .. maxOffset` |
| Lanes.NeighboursApart | models/view.go:102-126 | an event overlapping the one before it is in another lane and links to it |
| Lanes.WidensExactlyTheAlone | models/view.go:208-218 | that test picks out exactly the events that overlap neither neighbour |
| LanesExamples.OneEvent | models/view.go:94-130 | a lone activity takes lane 0 and no link |
| LanesExamples.SecondLane | models/view.go:120-126 | after one event in lane 0, an overlapping interval takes lane 1 linked to it |
| LanesExamples.TwoOverlapping | models/view.go:102-126 | a second overlapping activity moves to lane 1 linked to the first |
| LanesExamples.OverlapThenClear | models/view.go:127-129 | a third activity clear of the second restarts in lane 0 with no link |
| LanesExamples.StaggeredDay | models/view.go:189-218 | 9-10, 9:30-10:30, 11-12 take lanes 0, 1, 0; the day is two lanes wide and only the last spans both |
| LanesExamples.WidenLanesZeroOneZero | models/view.go:208-218 | in lanes 0, 1, 0 with only the second linked, only the third widens |
| LanesExamples.StaggeredSessions | models/week.go:14-25 | activities whose ranges are printed by `Time` give those intervals |
| LanesExamples.OverlappingEventsShareALane | models/view.go:103-118 | 9-12, 9-10, 10-11: the first and third overlap and both take lane 0 |
| Views.Weekdays | models/view.go:59-69 | seven headers named Sunday, Monday, Tuesday, Wednesday, Thursday, Friday, Saturday in that order |
| Views.HeadersMatchBuckets | models/view.go:59-69 | header `d` abbreviates its day name, and an activity lands in bucket `d` iff its code is header `d`'s short name |
| Views.SlotTimeQuarters | models/view.go:74-75 | row `k` is `k / 4` hours and `k % 4` quarters after 9:00 |
| Views.SlotOfHourAndQuarter | models/view.go:74-76 | quarter `q` of hour `h` is row `4 * (h - 9) + q` |
| Views.Times | models/view.go:71-83 | 48 rows, row `k` labelled with the 12-hour name and 24-hour code of its time and placed in grid row `k + 2` |
| Views.SlotsAreQuarterHours | models/view.go:71-83 | the rows run from 9:00 in strictly increasing quarter hours, each code decodes to its time, grid rows start at 2 |
| Views.Arrange | models/view.go:208-229 | the day is one lane wide when empty; otherwise exactly wide enough for its largest lane, which some event takes; every event's lane is inside it, and its columns run on from `gc` |
| Views.DayView | models/view.go:189-229 | one turn of the day loop succeeds iff every range of the bucket parses |
| Views.ArrangeKeepsEvents | models/view.go:208-218 | arranging changes an event's width only |
| Views.ArrangeKeepsDescription | models/view.go:208-218 | arranging keeps the activity, the lane and everything the activity determines |
| Views.DayViewEvents | models/view.go:192-229 | event `i` of a day view is made of activity `i`, keeps what it says, and sits inside the day |
| Views.ArrangeLanesContiguous | models/view.go:220 | the lanes of a non-empty day are exactly `0 .. span - 1` |
| Views.ArrangeWidening | models/view.go:208-218 | an event spans the day iff it overlaps neither neighbour (or the day is one lane), and is one lane wide otherwise |
| Views.ArrangeNeighboursApart | models/view.go:102-126 | an event overlapping the one before it is in another lane |
| Views.DaysParseStep | models/view.go:189-206 | the first `n` days parse iff the first `n - 1` do and day `n - 1` does |
| Views.BuildDays | models/view.go:187-233 | the day loop succeeds iff every day's bucket parses; each day is laid out from its bucket from the column after the previous days, starting at column 2 |
| Views.BuildDaysStep | models/view.go:225-232 | one more day is laid out after the previous ones, and moves the next column on by its width |
| Views.ColumnStartSnoc | models/view.go:231 | adding a day leaves earlier days' columns alone and moves the next start by its width |
| Views.DayAtSnoc | models/view.go:225-231 | adding a day leaves earlier days' layout intact |
| Views.NewCenterView | models/view.go:153-238 | an unknown code fails with the first unknown code, from an activity with all codes before it known; otherwise succeeds iff every header's bucket parses; ids and names copied; one positive-width group per header, each laid out in place; the template is `gridColumns` of the widths |
| Views.CenterColumnsPlaced | models/view.go:220-235 | day `d`'s columns follow the earlier days' columns, and the template is the joined token list |
| Views.ColumnsMatchTemplate | models/view.go:220-247 | grid column `c` of lane `k` of day `d` is template token `c - 1`, whose width is `(lcm/span_d)fr` |
| Views.CenterDayEvents | models/view.go:182-229 | every event in group `d` is an input activity of weekday `d`, described by it, in its name's colour |
| Views.CentersBuiltSnoc | models/view.go:293-299 | appending the next center's view keeps the centers built in order |
| Views.BuildCenters | models/view.go:293-299 | on success one view per center week, in order; on failure the error of the first failing center after centers that succeeded |
| Views.NewView | models/view.go:286-302 | the seven headers, the 48 rows, and the centers as `BuildCenters` states them |

## Left out

- Network, file and terminal I/O, JSON (un)marshalling, template rendering and the CLI (cmd/, internal/) are not part of this model. The order of centers gathered from a Go map there is not modelled either.
- `models/filter.go`, the `ActivitySearch*` request and response records (models/activity.go:161-209) and `ViewEvent.String` carry no layout logic and are left out.
- The plan records of models/plan.go are plain datatypes; no operation reads `Plan` or `PersonCenterWeek`.
- The regular expression engine, `strconv.ParseInt` and `fmt.Sprintf` are replaced by the accepted grammar and the digit renderings they amount to.
- Activities.MemoIsTransparent: the pointer cache is a separate `Memo` value beside an immutable activity; the layout functions call the pure parse.
- Arith.Lcm2: Go's 64-bit `int` can overflow in `arr[i] * ans`; the model's integers are unbounded, so overflow is not modelled.
- Clock.Difference: the 64-bit arithmetic of the source is unbounded here; with hours below 100 it cannot overflow anyway.
- Buckets.SortByStart: the model keeps input order for equal start minutes. `Views.NewCenterView`'s layout is stated for that order, and the source can lay out a bucket differently when it holds more than 12 activities with tied start minutes, where `sort.Sort` need not be stable.
- Arith.Gcd: the arguments are natural numbers. On a negative argument the source's `gcd` recurses forever (in Go `1 % -2 == 1`, so `gcd(1, -2)` calls itself again), and `lcm` divides by zero when it meets two zeros (`Arith.Lcm` excludes that case with `AtMostOneZero`). Neither case can arise from `NewCenterView`, whose spans are all at least 1.
- A nil `*CenterWeek` or `*Activity` in the input, which would make the source panic, cannot be expressed in the model.
