# dayjs-business-time: a verified model of the business-calendar engine

This project models the core of the dayjs business-time plugin: the part that
decides which days and instants are "business" and walks or measures time in
business units. The engine is modelled once, parametric in a configuration. The
source carries the engine in three places: the prototype plugin in
`src/index.ts`, the static plugin in `src/index.ts`, and the static plugin copy
in `src/static/index.ts`. The same configuration covers the first and the third
fully. It covers the static plugin in `src/index.ts` only for calls that pass a
holiday list (see "Left out").

- **Timeline.** An instant is an integer count of milliseconds. Its day is
  `DayOf(t) = t / 86_400_000`, and `Weekday(d) = (d + 4) % 7`, so day 0 is a
  Thursday as on 1 January 1970. Holidays are day numbers, which stands in for
  the source's `YYYY-MM-DD` strings.
- **Configuration.** `Config(businessHours, holidays)` holds a weekday-to-windows
  map and the holiday list.
  - `StaticConfig` builds it from the static plugin's `opts`, falling back to
    the default 09:00-17:00 Monday-to-Friday map and to "no holidays".
  - `LocaleConfig` builds it from the prototype plugin's locale state.
  - `StrictIsHoliday` models the static plugin in `src/index.ts`, whose
    `isHoliday` has no default and fails when the holiday list is missing.
- **Well-formed configurations.** `ValidConfig` states what the model's
  configurations satisfy:
  - every present weekday entry is non-empty;
  - every window lies inside the day and lasts at least one minute;
  - windows are strictly ordered, so that their inclusive ends never touch;
  - at least one weekday works.
- **Modules.** They follow the source's layering:
  - `Calendar`: time, configuration and validity;
  - `DayClassifier`: `isHoliday` and `isBusinessDay`;
  - `DayWalker`: `addOrsubtractBusinessDays`;
  - `SegmentResolver`: `getBusinessTimeSegments`, `getCurrentBusinessTimeSegment` and `isBusinessTime`;
  - `TimeLocator`: `nextBusinessTime` and `lastBusinessTime`;
  - `MinuteWalker`: `addOrSubtractBusinessMinutes`;
  - `BusinessDiff`: `fixDatesToCalculateDiff` and the three diffs;
  - `Units`: the unit regular expressions;
  - `Plugin`: the `addBusinessTime`, `subtractBusinessTime` and `businessTimeDiff` dispatchers.
- **Specification style.**
  - Each looping operation of the source is a `method` with its loop. It is
    proved equal to a specification function.
  - The properties the plugin promises are lemmas about those functions:
    - snapping finds the least (or greatest) business instant;
    - the walks land on business time;
    - the day walk crosses exactly `n` business days;
    - the diffs are antisymmetric and invert the walks.

## Model

| member | source | states |
|---|---|---|
| `Calendar.StaticConfig` | src/static/index.ts:41-51 | a missing `businessHoursMap` falls back to the default hours and a missing holiday list means no holidays; given values are used as they are |
| `Calendar.LocaleConfig` | src/index.ts:55-65 | the prototype plugin's configuration is the locale's business hours and its stored holidays as they are, and a locale without holidays has none |
| `Calendar.DefaultWorkingHoursValid` | src/static/index.ts:21-29 | the default map (09:00-17:00 Monday to Friday, weekends closed) is a well-formed configuration |
| `Calendar.MinuteDiffAntisymmetric` | src/static/index.ts:344-350 | the truncating minute difference used by the diffs changes sign when its arguments swap |
| `DayClassifier.HolidayOverridesWeekday` | src/static/index.ts:46-51 | a day in the holiday list is never a business day, whatever its weekday's hours |
| `DayClassifier.IsHoliday` | src/static/index.ts:41-44 | defines `isHoliday` as membership of the day in the holiday list; `DayClassifier.MissingHolidaysMeansNone` and `DayClassifier.StrictIsHoliday` state its option handling |
| `DayClassifier.IsBusinessDay` | src/static/index.ts:46-51 | defines `isBusinessDay` as a weekday with an entry in the hours map that is not a holiday; `DayClassifier.HolidayOverridesWeekday` and `DayClassifier.DefaultBusinessDays` state its properties |
| `DayClassifier.DefaultBusinessDays` | src/static/index.ts:46-51 | with no hours map, a day is a business day exactly when it is Monday to Friday and not in the holiday list (a missing list counting as empty) |
| `DayClassifier.MissingHolidaysMeansNone` | src/static/index.ts:41-44 | with the holiday list absent no day is a holiday |
| `DayClassifier.StrictIsHoliday` | src/index.ts:479-482 | in the static plugin of src/index.ts, a missing holiday list is an error; otherwise the result is membership of the day in the list |
| `DayClassifier.StrictBusinessDayAgrees` | src/index.ts:484-489 | the strict `isBusinessDay` fails exactly on a working weekday when the holiday list is missing (a non-working weekday gives `false` without consulting the list), and otherwise agrees with the defaulting one |
| `DayClassifier.InstalledLocaleIsDefault` | src/index.ts:44-45 | the locale installed at registration (default hours, empty holidays) gives the same configuration as the static plugin with no options |
| `DayWalker.BusinessDayExistsIff` | src/static/index.ts:62-67 | the day loop can count a day only if some day is a business day, and that holds exactly when some weekday has an entry, whatever the holidays |
| `DayWalker.NextBusinessDayAfter` | src/static/index.ts:72-74 | the result is the first business day strictly after the given day: it is one, and no day in between is |
| `DayWalker.PrevBusinessDayBefore` | src/static/index.ts:76-78 | the result is the last business day strictly before the given day |
| `DayWalker.AddOrSubtractBusinessDays` | src/static/index.ts:53-70 | the day-by-day loop computes the business-day walk `DaysWalked` |
| `DayWalker.DaysWalkedLandsOnBusinessDay` | src/static/index.ts:53-70 | the walk keeps the time of day (it moves by whole days), returns the input for n = 0 and lands on a business day for n > 0 |
| `DayWalker.DaysWalkedForward` | src/static/index.ts:80-82 | adding n > 0 business days gives a later instant, and exactly n business days lie in the days walked over (after the start day, up to and including the landing day) |
| `DayWalker.DaysWalkedBackward` | src/static/index.ts:84-86 | subtracting n > 0 business days gives an earlier instant, and exactly n business days lie in the days walked over (before the start day, down to and including the landing day) |
| `DayWalker.CountToNeighbour` | src/static/index.ts:72-78 | exactly one business day lies between a day and its next (or previous) business day |
| `SegmentResolver.GetBusinessTimeSegments` | src/static/index.ts:100-117 | the loop over the configured windows builds `BusinessTimeSegments`: nothing on a non-business day, and otherwise one segment per window in configured order, anchored to the day |
| `SegmentResolver.Anchor` | src/static/index.ts:88-98 | `timeStringToDayJS`: a parsed time of day placed on the given day with milliseconds zeroed; `SegmentResolver.SegmentWithinDay` states that the anchored windows stay inside their day |
| `SegmentResolver.SegmentsShape` | src/static/index.ts:100-117 | segments exist exactly on business days; each one lies inside its day, ends after it starts, and precedes the next |
| `SegmentResolver.SegmentsExist` | src/static/index.ts:100-108 | segments exist exactly on business days, and there is at least one of them |
| `SegmentResolver.SegmentWithinDay` | src/static/index.ts:88-98 | an anchored segment lies within its calendar day, at least one minute long |
| `SegmentResolver.SegmentsInOrder` | src/static/index.ts:110-116 | segments keep the configured order, and an earlier one ends strictly before a later one starts |
| `SegmentResolver.FindSpec` | src/static/index.ts:126-129 | the search finds nothing exactly when no segment contains the instant (both ends inclusive), and otherwise returns a containing segment |
| `SegmentResolver.FindOrdered` | src/static/index.ts:126-129 | in ordered segments the search returns the one segment that contains the instant |
| `SegmentResolver.CurrentSegmentOf` | src/static/index.ts:119-130 | the current segment of an instant is the segment of its day that contains it |
| `SegmentResolver.CurrentSegmentIn` | src/static/index.ts:119-130 | a current segment is one of the day's segments and contains the instant |
| `SegmentResolver.CurrentSegment` | src/static/index.ts:119-130 | `getCurrentBusinessTimeSegment`: nothing when the day has no segments, otherwise the first segment containing the instant; `SegmentResolver.CurrentSegmentOf` and `SegmentResolver.CurrentSegmentIn` state what it returns |
| `SegmentResolver.IsBusinessTime` | src/static/index.ts:132-134 | `isBusinessTime`: the instant has a current segment; `SegmentResolver.IsBusinessTimeIff` characterizes it from the configuration |
| `SegmentResolver.IsBusinessTimeIff` | src/static/index.ts:132-134 | an instant is business time exactly when its day is a business day and its time of day lies in one of the day's windows, both ends included |
| `SegmentResolver.HolidayIsNeverBusinessTime` | src/static/index.ts:132-134 | no instant of a holiday is business time |
| `TimeLocator.NextBusinessTime` | src/static/index.ts:136-163 | the method with its early-returning loop computes `NextBusinessInstant` |
| `TimeLocator.NextBusinessInstantSpec` | src/static/index.ts:136-163 | the result is at or after the input and is business time, and no business time lies between them; it is the input itself when that is business time, and otherwise the start of the segment it falls in |
| `TimeLocator.NextBusinessInstantLeast` | src/static/index.ts:136-163 | the result is the least business instant at or after the input, and snapping twice is snapping once |
| `TimeLocator.NextDayFirstStart` | src/static/index.ts:137-140 | off a business day, the result is the first segment start of the next business day |
| `TimeLocator.NextDayStartSpec` | src/static/index.ts:152-158 | after the day's last segment, the first start of the next business day is later, is a segment start, and nothing in between is business time |
| `TimeLocator.ScanForwardSpec` | src/static/index.ts:144-162 | the loop over the day's segments, from any index past which every segment has ended, returns the input inside a segment and otherwise the start of a later segment (same day, or the next business day after the last one), with no business time skipped |
| `TimeLocator.LastBusinessTime` | src/static/index.ts:165-193 | the method, which scans the reversed segments, computes `LastBusinessInstant` |
| `TimeLocator.LastBusinessInstantSpec` | src/static/index.ts:165-193 | the mirror image: the result is at or before the input and is business time, with no business time between; it is the input itself during business time, and otherwise the end of its segment |
| `TimeLocator.LastBusinessInstantGreatest` | src/static/index.ts:165-193 | the result is the greatest business instant at or before the input, and snapping twice is snapping once |
| `TimeLocator.LastDayLastEnd` | src/static/index.ts:166-169 | off a business day, the result is the last segment end of the previous business day |
| `TimeLocator.PrevDayEndSpec` | src/static/index.ts:182-188 | before the day's first segment, the last end of the previous business day is earlier, is a segment end, and nothing in between is business time |
| `TimeLocator.ScanBackwardSpec` | src/static/index.ts:174-192 | the loop over the reversed segments returns the input inside a segment and otherwise the end of an earlier segment (same day, or the previous business day before the first one), with no business time skipped |
| `TimeLocator.ReversedPermutes` | src/static/index.ts:172 | the reversed segment list is a permutation of the original: every segment occurs as often as before |
| `TimeLocator.ReversedTwice` | src/static/index.ts:172 | reversing the segment list twice gives the original list back |
| `TimeLocator.OneBusinessDayStep` | src/index.ts:104-110 | `nextBusinessDay` and `lastBusinessDay` are the day walk with n = 1, landing on the neighbouring business day |
| `MinuteWalker.AddOrSubtractBusinessMinutes` | src/static/index.ts:220-262 | the method with its jump loop computes `MinutesWalked` |
| `MinuteWalker.MinutesWalkedSpec` | src/static/index.ts:220-262 | the result is business time; with 0 minutes it is the snapped input; adding gives an instant at or after the input and subtracting one at or before |
| `MinuteWalker.SnapSpec` | src/static/index.ts:226-227 | the pre-walk snap gives business time, leaves business time alone and moves in the walking direction |
| `MinuteWalker.MinutesWalkedWithinSegment` | src/static/index.ts:241-258 | when the minutes fit before the boundary of the current segment, the walk is a plain move by that many minutes |
| `MinuteWalker.MinutesWalkedRoundTrip` | src/static/index.ts:220-262 | adding `n` business minutes that fit before the current segment's end and then subtracting `n` returns to the start instant |
| `MinuteWalker.MinutesWalkedRoundTripBack` | src/static/index.ts:220-262 | subtracting `n` business minutes that fit after the current segment's start and then adding `n` returns to the start instant |
| `MinuteWalker.WalkAcrossBoundary` | src/static/index.ts:252-258 | at less than a minute from a boundary, the forced one-minute step leaves the count unchanged and the walk continues from the snapped instant past it |
| `MinuteWalker.ForcedStepRank` | src/static/index.ts:252-258 | the forced step strictly lowers the termination measure, so the loop ends |
| `MinuteWalker.AdvanceProgress` | src/static/index.ts:229-259 | each loop iteration either consumes minutes or lowers the termination measure, and never raises the count |
| `MinuteWalker.AdvanceSpec` | src/static/index.ts:229-259 | each loop iteration moves in the walking direction, and one that finishes the count stands on business time |
| `MinuteWalker.WalkIsBusinessTime` | src/static/index.ts:229-261 | the walk from business time ends on business time |
| `MinuteWalker.WalkDirection` | src/static/index.ts:229-261 | the walk never moves against its direction |
| `MinuteWalker.MinutesWalkedAdditive` | src/static/index.ts:195-197 | walking a then b minutes is walking a + b minutes |
| `MinuteWalker.HoursWalkedSpec` | src/static/index.ts:199-202 | hours are walked as 60 minutes each, so they add up, and within one segment they are a plain move |
| `MinuteWalker.HoursWalked` | src/static/index.ts:199-202 | `addBusinessHours`/`subtractBusinessHours`: the minute walk over 60 minutes per hour; `MinuteWalker.HoursWalkedSpec` states its properties |
| `BusinessDiff.FixDatesToCalculateDiff` | src/static/index.ts:294-314 | the method computes `FixDates` |
| `BusinessDiff.FixDatesSpec` | src/static/index.ts:294-314 | the ends are ordered with multiplier -1 exactly when the base is later; `from` snaps backward and `to` forward, only when off-hours; both are business time, `from` precedes `to`, and nothing of business time is lost between the original and the snapped ends |
| `BusinessDiff.BusinessDaysDiff` | src/static/index.ts:316-326 | the loop counting day steps computes `BusinessDaysBetween`, the signed count of business days between the snapped ends |
| `BusinessDiff.BusinessDaysDiffAntisymmetric` | src/static/index.ts:316-326 | swapping two distinct instants negates the day diff |
| `BusinessDiff.BusinessDaysDiffSign` | src/static/index.ts:316-326 | the day diff is non-negative when the base is not later, and non-positive otherwise |
| `BusinessDiff.BusinessDaysDiffSameDay` | src/static/index.ts:316-326 | two business instants of one day are 0 business days apart |
| `BusinessDiff.BusinessDaysDiffOffHoursSelf` | src/static/index.ts:316-326 | with the default hours, Saturday 12:00 is 1 business day from itself: it snaps back to Friday and forward to Monday, and the loop takes one step |
| `BusinessDiff.BusinessDaysDiffOfWalkForward` | src/static/index.ts:316-326 | from business time, adding n business days and diffing back gives n |
| `BusinessDiff.BusinessDaysDiffOfWalkBackward` | src/static/index.ts:316-326 | from business time, subtracting n business days and diffing gives -n |
| `BusinessDiff.BusinessMinutesDiff` | src/static/index.ts:328-390 | the loops compute `BusinessMinutesBetween`: the signed sum, over every business day from `from`'s to `to`'s, of each segment's overlap with [from, to] in whole minutes (with the middle-segment correction described under Findings) |
| `BusinessDiff.SameDayMinutes` | src/static/index.ts:332-355 | on one day, the segment loop sums the overlap of every segment with [from, to] |
| `BusinessDiff.FirstDayMinutes` | src/static/index.ts:357-366 | on `from`'s day, the sum is each segment's overlap between `from` and the segment end |
| `BusinessDiff.MiddleDayMinutes` | src/static/index.ts:368-377 | on a day strictly between, the sum is the full length of every segment |
| `BusinessDiff.LastDayMinutes` | src/static/index.ts:379-387 | on `to`'s day, the sum is each segment's overlap between the segment start and `to` |
| `BusinessDiff.MultiDayMinutes` | src/static/index.ts:357-387 | the multi-day loop adds the first, middle and last day parts, skipping non-business days |
| `BusinessDiff.ClippedMinutes` | src/static/index.ts:338-351 | the overlap of a segment with [from, to] is non-negative and no longer than either interval |
| `BusinessDiff.BusinessMinutesDiffSelf` | src/static/index.ts:328-390 | the minute diff of an instant with itself is 0 |
| `BusinessDiff.BusinessMinutesDiffAntisymmetric` | src/static/index.ts:328-390 | swapping two distinct instants negates the minute diff |
| `BusinessDiff.BusinessMinutesDiffSign` | src/static/index.ts:328-390 | the minute diff is non-negative when the base is not later, and non-positive otherwise |
| `BusinessDiff.MinutesWithinSegment` | src/static/index.ts:338-344 | for two instants of one segment, in order, the intended per-day segment sum over their day equals their plain truncated minute difference |
| `BusinessDiff.BusinessMinutesDiffWithinSegment` | src/static/index.ts:338-344 | two instants of one segment, in either order, are their truncated minute difference apart in the business minute diff |
| `BusinessDiff.BusinessMinutesDiffOfWalk` | src/static/index.ts:220-262 | walking n minutes within a segment and diffing back gives n (or -n when subtracting) |
| `BusinessDiff.RangeMinutesNext` | src/static/index.ts:357-387 | extending the day range to the next business day adds exactly that day's minutes |
| `BusinessDiff.BusinessHoursDiff` | src/static/index.ts:392-395 | the hour diff is the minute diff divided by 60 |
| `BusinessDiff.BusinessHoursDiffOfWalk` | src/static/index.ts:392-395 | walking h hours within a segment and diffing back gives h (or -h), and an instant is 0 hours from itself |
| `BusinessDiff.SameDayCounts` | src/static/index.ts:332-355 | on one business day, both the source's loop and the corrected diff reduce to their segment sums |
| `BusinessDiff.SameDayAsWritten` | src/static/index.ts:335-352 | the same-day loop as written, stopping at the segment holding `to`; `BusinessDiff.SameDayAsWrittenAgrees` and `BusinessDiff.SameDayMiddleSegmentSkipped` state when it is right and when it is not |
| `BusinessDiff.BusinessMinutesDiffAsWritten` | src/static/index.ts:328-390 | `businessMinutesDiff` as written: the as-written same-day loop on one day, otherwise the multi-day sum; `BusinessDiff.SameDayCounts` relates it to the corrected diff |
| `BusinessDiff.SameDayAsWrittenAgrees` | src/static/index.ts:335-352 | the source's same-day loop is right when `to` lies in `from`'s segment or in the next one |
| `BusinessDiff.SplitWednesdaySegments` | src/static/index.ts:100-117 | the three-window Wednesday used below is a valid configuration with three segments |
| `BusinessDiff.SameDayMiddleSegmentSkipped` | src/static/index.ts:338-351 | with windows 09-12, 13-15 and 16-18, the source's loop gives 180 minutes from 10:00 to 17:00 where the business minutes are 300 |
| `Units.RepeatedCopies` | src/static/index.ts:205 | a string matches `^(w)+$` exactly when it is one or more copies of w |
| `Units.MatchesUnitSpelling` | src/static/index.ts:205 | a string matches `^(w)+s?$` exactly when it is one or more copies of w, optionally followed by `s` |
| `Units.UnitOf` | src/static/index.ts:204-218 | the minute, hour and day patterns are tried in turn; the unit is an error, `Invalid Business Time Unit`, exactly when none matches |
| `Units.UnitOfSpelling` | src/static/index.ts:204-218 | every spelling of minute, hour or day (repeated, with or without `s`) selects that unit |
| `Units.DeclaredUnitNames` | types/index.d.ts:15 | the declared unit names select their units, and another word such as `week` is an error |
| `Plugin.AddOrSubtractBusinessTime` | src/static/index.ts:204-218 | `addBusinessTime` and `subtractBusinessTime` dispatch on the unit and fail for an unknown one; minutes and hours land on business time in the walking direction, and days keep the time of day and land on a business day |
| `Plugin.BusinessTimeDiff` | src/static/index.ts:397-411 | `businessTimeDiff` dispatches on the unit and fails for an unknown one; the value is the minute, hour or day diff, and its sign follows the order of the two instants |

## Left out

- The dayjs primitive is not part of this model: parsing, formatting, the
  hour/minute/second setters, calendar arithmetic, time zones and daylight
  saving. An instant is a millisecond count on a uniform timeline, and every day
  is 86 400 000 ms long.
- `timeStringToDayJS`: window times are taken as already-parsed
  (hours, minutes, seconds). Malformed time strings are not modelled.
- Locale-backed configuration is not modelled as state: `getLocale`,
  `updateLocale`, `get/setHolidays` and `get/setBusinessTime` read and write
  dayjs's shared locale. Configuration is an explicit parameter instead, built
  by `LocaleConfig` or `StaticConfig`.
- Plugin registration, prototype wiring and module exports are not modelled;
  they are only wiring.
- Negative and fractional counts are not modelled. The source's day loop never
  ends for a negative count, and fractional hours are outside integer minutes,
  so counts are `nat`.
- The engine of the static plugin in `src/index.ts` is modelled only for calls
  that pass `holidays`. That plugin's `isHoliday` has no default for the list,
  and every engine operation goes through its strict `isBusinessDay`. So without
  a holiday list every operation that reaches a working weekday fails there,
  for example `isBusinessTime` on a Monday, or `nextBusinessTime` from a
  Saturday once the search reaches Monday. The model's `StaticConfig` gives an
  empty list instead and returns a value. Only `DayClassifier.StrictIsHoliday`
  and `DayClassifier.StrictBusinessDayAgrees` model the failure.
- ValidConfig excludes some configurations:
  - a week with no working weekday. No day is then a business day, so the
    source's day loop (`while (daysToIterate)`) never reaches zero, and
    `nextBusinessDay`, `lastBusinessDay`, the business-time searches and every
    walk built on them never return. `DayWalker.BusinessDayExistsIff` states
    that without a working weekday no day is a business day;
  - windows shorter than one minute, on which the source's minute walker can
    loop forever: after each one-minute step it re-snaps into the next short
    window without counting a minute;
  - overlapping or touching windows;
  - a present but empty weekday entry, which the source treats as a business
    day with no segments.
- Holidays are a sequence of day numbers. The `YYYY-MM-DD` string comparison is
  not modelled.
- `TimeLocator.Reversed`: the source reverses its segment array in place; the
  model reverses a sequence value.
- `BusinessDiff.BusinessHoursDiff`: the floating-point division by 60 is
  modelled as exact `real` division.
- `BusinessDiff.BusinessMinutesDiff`, `BusinessDiff.SameDayMinutes`,
  `BusinessDiff.BusinessHoursDiff` and `Plugin.BusinessTimeDiff` use the
  corrected same-day loop, not the loop as written (see Findings).
  `BusinessDiff.SameDayMinutes` is that corrected loop, with an extra branch for
  a segment lying strictly between `from` and `to`. The other three compute
  their values from it. The as-written loop is `BusinessDiff.SameDayAsWritten`.
- The `-0` guard on the multiplier is modelled as `Signed`. It makes no
  difference on integers.
- `BusinessDiff.BusinessMinutesDiffOfWalk`: the round trip is stated only for a
  walk that stays within one segment. Across segment boundaries the diff counts
  whole minutes of each segment while the walk steps one extra minute at each
  boundary, so the two need not agree.
- `BusinessDiff.BusinessDaysDiffAntisymmetric` and
  `BusinessDiff.BusinessMinutesDiffAntisymmetric` require distinct instants.
  For equal instants the multiplier is +1 in both orders. The minute diff of an
  instant with itself is 0 (`BusinessDiff.BusinessMinutesDiffSelf`). The day diff
  of an off-hours instant with itself need not be 0: with the default hours,
  Saturday 12:00 is 1 business day from itself
  (`BusinessDiff.BusinessDaysDiffOffHoursSelf`).
- `BusinessDiff.BusinessDaysDiffSameDay` holds for two business instants only.
  An off-hours instant can snap to a neighbouring day, as
  `BusinessDiff.BusinessDaysDiffOffHoursSelf` shows.
- The test files' concrete instants are covered by the general lemmas above, not
  restated one by one. An example is Friday 10:00 minus two hours: it arrives on
  the previous business day's last end (`MinuteWalker.WalkAcrossBoundary`
  together with `TimeLocator.LastBusinessInstantSpec`).

## Findings

| source | as written | input that shows it | evidently intended | confidence | as-written member | corrected member |
|---|---|---|---|---|---|---|
| src/static/index.ts:338-351 (also src/index.ts:366-379 and src/index.ts:776-789) | when `from` and `to` fall on the same day, the loop adds only the segment holding `from` and the segment holding `to`; a segment lying wholly between them is never added | Wednesday windows 09:00-12:00, 13:00-15:00 and 16:00-18:00, no holidays, `businessMinutesDiff` from 10:00 to 17:00 gives 180 | 300 minutes: every segment's overlap summed, as the multi-day branch does for `from`'s and `to`'s days | not executed | `BusinessDiff.SameDayMiddleSegmentSkipped` (about `BusinessDiff.SameDayAsWritten`) | `BusinessDiff.BusinessMinutesDiff` (with `BusinessDiff.SameDayAsWrittenAgrees` showing the two agree when no segment lies between) |
