/**
 * The diff operations: `fixDatesToCalculateDiff`, `businessDaysDiff`,
 * `businessMinutesDiff` and `businessHoursDiff`.
 */
module BusinessDiff {
  import opened Wrappers
  import opened Calendar
  import opened DayClassifier
  import opened SegmentResolver
  import opened DayWalker
  import opened TimeLocator
  import opened MinuteWalker

  /** The two ends a diff measures between, earlier first, and the sign of the result. */
  datatype FixedDates = FixedDates(from: int, to: int, multiplier: int)

  /**
   * `fixDatesToCalculateDiff`: order the two instants, then move the earlier one
   * back and the later one forward to business time.
   */
  function FixDates(c: Config, base: int, comparator: int): FixedDates
    requires ValidConfig(c)
  {
    var swap := base > comparator;
    var from := if swap then comparator else base;
    var to := if swap then base else comparator;
    FixedDates(
      if IsBusinessTime(c, from) then from else LastBusinessInstant(c, from),
      if IsBusinessTime(c, to) then to else NextBusinessInstant(c, to),
      if swap then -1 else 1)
  }

  /** `diff ? diff * multiplier : 0`. */
  function Signed(diff: int, multiplier: int): int {
    if diff == 0 then 0 else diff * multiplier
  }

  /**
   * The fixed ends enclose both instants: the earlier end is the last business
   * instant at or before the earlier instant, the later end the next business
   * instant at or after the later one, and the sign is negative exactly when
   * the base comes after the comparator.
   */
  lemma FixDatesSpec(c: Config, base: int, comparator: int)
    requires ValidConfig(c)
    ensures var f := FixDates(c, base, comparator);
      var lo := if base <= comparator then base else comparator;
      var hi := if base <= comparator then comparator else base;
      && (f.multiplier == -1 <==> base > comparator)
      && (f.multiplier == 1 <==> base <= comparator)
      && f.from == LastBusinessInstant(c, lo)
      && f.to == NextBusinessInstant(c, hi)
      && f.from <= lo <= hi <= f.to
      && IsBusinessTime(c, f.from) && IsBusinessTime(c, f.to)
      && IsBusinessDay(c, DayOf(f.from)) && IsBusinessDay(c, DayOf(f.to))
      && DayOf(f.from) <= DayOf(f.to)
      && (forall u :: f.from < u <= lo ==> !IsBusinessTime(c, u))
      && (forall u :: hi <= u < f.to ==> !IsBusinessTime(c, u))
  {
    var f := FixDates(c, base, comparator);
    var lo := if base <= comparator then base else comparator;
    var hi := if base <= comparator then comparator else base;
    LastBusinessInstantSpec(c, lo);
    NextBusinessInstantSpec(c, hi);
    CurrentSegmentIn(c, f.from);
    CurrentSegmentIn(c, f.to);
    DayOfMonotone(f.from, f.to);
  }

  /** `fixDatesToCalculateDiff`, step by step. */
  method FixDatesToCalculateDiff(c: Config, base: int, comparator: int) returns (f: FixedDates)
    requires ValidConfig(c)
    ensures f == FixDates(c, base, comparator)
  {
    var from := base;
    var to := comparator;
    var multiplier := 1;
    if base > comparator {
      to := base;
      from := comparator;
      multiplier := -1;
    }
    if !IsBusinessTime(c, from) {
      from := LastBusinessTime(c, from);
    }
    if !IsBusinessTime(c, to) {
      to := NextBusinessTime(c, to);
    }
    return FixedDates(from, to, multiplier);
  }

  // ---------------------------------------------------------------- days

  /**
   * `businessDaysDiff`: the business days after the fixed earlier end, up to and
   * including the day of the fixed later end, signed.
   */
  function BusinessDaysBetween(c: Config, date: int, comparator: int): int
    requires ValidConfig(c)
  {
    var f := FixDates(c, date, comparator);
    Signed(CountBusinessDays(c, DayOf(f.from), DayOf(f.to)), f.multiplier)
  }

  /** `businessDaysDiff`: walk the earlier end forward one business day at a time until it reaches the later end's day. */
  method BusinessDaysDiff(c: Config, date: int, comparator: int) returns (r: int)
    requires ValidConfig(c)
    ensures r == BusinessDaysBetween(c, date, comparator)
  {
    var fixed := FixDatesToCalculateDiff(c, date, comparator);
    FixDatesSpec(c, date, comparator);
    var from := fixed.from;
    var diff := 0;
    while DayOf(from) != DayOf(fixed.to)
      invariant DayOf(fixed.from) <= DayOf(from) <= DayOf(fixed.to)
      invariant diff + CountBusinessDays(c, DayOf(from), DayOf(fixed.to)) == CountBusinessDays(c, DayOf(fixed.from), DayOf(fixed.to))
      decreases DayOf(fixed.to) - DayOf(from)
    {
      diff := diff + 1;
      ghost var d := DayOf(from);
      OneBusinessDayStep(c, from, Add);
      CountToNeighbour(c, d, Add);
      from := AddOrSubtractBusinessDays(c, from, 1, Add);
      CountSplit(c, d, DayOf(from), DayOf(fixed.to));
    }
    return if diff != 0 then diff * fixed.multiplier else 0;
  }

  /** Swapping two different instants negates the day count. */
  lemma BusinessDaysDiffAntisymmetric(c: Config, a: int, b: int)
    requires ValidConfig(c)
    requires a != b
    ensures BusinessDaysBetween(c, a, b) == -BusinessDaysBetween(c, b, a)
  {
  }

  /** The day count is never negative forward and never positive backward. */
  lemma BusinessDaysDiffSign(c: Config, a: int, b: int)
    requires ValidConfig(c)
    ensures a <= b ==> BusinessDaysBetween(c, a, b) >= 0
    ensures a > b ==> BusinessDaysBetween(c, a, b) <= 0
  {
    FixDatesSpec(c, a, b);
  }

  /** Two business instants of the same day are zero business days apart. */
  lemma BusinessDaysDiffSameDay(c: Config, a: int, b: int)
    requires ValidConfig(c)
    requires IsBusinessTime(c, a) && IsBusinessTime(c, b) && DayOf(a) == DayOf(b)
    ensures BusinessDaysBetween(c, a, b) == 0
  {
    FixDatesSpec(c, a, b);
  }

  /** The static plugin's configuration without options: the default hours, no holidays. */
  const DefaultConfig: Config := StaticConfig(BusinessOpts(None, None))

  /** Saturday 1970-01-03, 12:00 (day 2 of the timeline). */
  const SaturdayNoon: int := DayStart(2) + 12 * HourMs

  /** Under the default hours Friday 17:00, the last end of the week, is business time. */
  lemma FridayEveningIsBusinessTime()
    ensures ValidConfig(DefaultConfig) && IsBusinessTime(DefaultConfig, DayStart(1) + 17 * HourMs)
  {
    var c := DefaultConfig;
    DefaultWorkingHoursValid();
    assert Weekday(1) == 5;
    var friday := DayStart(1) + 17 * HourMs;
    DayOfWithin(1, 17 * HourMs);
    assert BusinessTimeSegments(c, 1).value[0] == Segment(DayStart(1) + 9 * HourMs, friday);
    CurrentSegmentOf(c, friday, 0);
  }

  /** Under the default hours Monday 09:00, the first start of the week, is business time. */
  lemma MondayMorningIsBusinessTime()
    ensures ValidConfig(DefaultConfig) && IsBusinessTime(DefaultConfig, DayStart(4) + 9 * HourMs)
  {
    var c := DefaultConfig;
    DefaultWorkingHoursValid();
    assert Weekday(4) == 1;
    var monday := DayStart(4) + 9 * HourMs;
    DayOfWithin(4, 9 * HourMs);
    assert BusinessTimeSegments(c, 4).value[0] == Segment(monday, DayStart(4) + 17 * HourMs);
    CurrentSegmentOf(c, monday, 0);
  }

  /** Under the default hours Saturday and Sunday (days 2 and 3) are not business days. */
  lemma DefaultWeekendIsClosed()
    ensures !IsBusinessDay(DefaultConfig, 2) && !IsBusinessDay(DefaultConfig, 3)
  {
    assert Weekday(2) == 6 && Weekday(3) == 0;
  }

  /** With the default hours, Saturday noon snaps back to Friday. */
  lemma SaturdayNoonSnapsBack()
    ensures ValidConfig(DefaultConfig) && DayOf(LastBusinessInstant(DefaultConfig, SaturdayNoon)) == 1
  {
    var c := DefaultConfig;
    FridayEveningIsBusinessTime();
    DefaultWeekendIsClosed();
    var t := SaturdayNoon;
    DayOfWithin(2, 12 * HourMs);
    var r := LastBusinessInstant(c, t);
    LastBusinessInstantSpec(c, t);
    var friday := DayStart(1) + 17 * HourMs;
    DayOfWithin(1, 17 * HourMs);
    assert friday <= r;
    DayOfMonotone(friday, r);
    DayOfMonotone(r, t);
    CurrentSegmentIn(c, r);
  }

  /** With the default hours, Saturday noon snaps forward to Monday. */
  lemma SaturdayNoonSnapsForward()
    ensures ValidConfig(DefaultConfig) && DayOf(NextBusinessInstant(DefaultConfig, SaturdayNoon)) == 4
  {
    var c := DefaultConfig;
    MondayMorningIsBusinessTime();
    DefaultWeekendIsClosed();
    var t := SaturdayNoon;
    DayOfWithin(2, 12 * HourMs);
    var r := NextBusinessInstant(c, t);
    NextBusinessInstantSpec(c, t);
    var monday := DayStart(4) + 9 * HourMs;
    DayOfWithin(4, 9 * HourMs);
    assert r <= monday;
    DayOfMonotone(t, r);
    DayOfMonotone(r, monday);
    CurrentSegmentIn(c, r);
  }

  /**
   * An off-hours instant need not be zero business days from itself: with the
   * default hours, Saturday 12:00 snaps back to Friday 17:00 and forward to
   * Monday 09:00, and the day loop takes one step between the two.
   */
  lemma BusinessDaysDiffOffHoursSelf()
    ensures ValidConfig(DefaultConfig)
    ensures !IsBusinessDay(DefaultConfig, DayOf(SaturdayNoon))
    ensures BusinessDaysBetween(DefaultConfig, SaturdayNoon, SaturdayNoon) == 1
  {
    var c := DefaultConfig;
    DefaultWorkingHoursValid();
    SaturdayIsOffHours();
    SaturdayNoonSnapsBack();
    SaturdayNoonSnapsForward();
    FridayToMondayCount();
    assert FixDates(c, SaturdayNoon, SaturdayNoon)
      == FixedDates(LastBusinessInstant(c, SaturdayNoon), NextBusinessInstant(c, SaturdayNoon), 1);
  }

  /** Saturday is not a business day under the default hours, so Saturday noon is off-hours. */
  lemma SaturdayIsOffHours()
    ensures DayOf(SaturdayNoon) == 2 && !IsBusinessDay(DefaultConfig, 2) && !IsBusinessTime(DefaultConfig, SaturdayNoon)
  {
    DayOfWithin(2, 12 * HourMs);
    assert Weekday(2) == 6;
  }

  /** Between Friday and Monday (Saturday, Sunday, Monday) the default hours have one business day. */
  lemma FridayToMondayCount()
    ensures CountBusinessDays(DefaultConfig, 1, 4) == 1
  {
    var c := DefaultConfig;
    assert Weekday(2) == 6 && Weekday(3) == 0 && Weekday(4) == 1;
    assert CountBusinessDays(c, 1, 2) == 0;
    assert CountBusinessDays(c, 1, 3) == 0;
  }

  /**
   * The day count undoes the forward day walk: from a business instant, walking
   * `n` business days forward to another business instant puts them `n` days apart.
   */
  lemma BusinessDaysDiffOfWalkForward(c: Config, t: int, n: nat)
    requires ValidConfig(c)
    requires IsBusinessTime(c, t) && IsBusinessTime(c, DaysWalked(c, t, n, Add))
    ensures BusinessDaysBetween(c, t, DaysWalked(c, t, n, Add)) == n
  {
    var r := DaysWalked(c, t, n, Add);
    DaysWalkedForward(c, t, n);
    assert t <= r;
    FixDatesOfBusinessTime(c, t, r);
  }

  /** Between two business days, counting from the later end or from the earlier end gives the same number. */
  lemma CountBetweenBusinessDays(c: Config, lo: int, hi: int)
    requires lo <= hi && IsBusinessDay(c, lo) && IsBusinessDay(c, hi)
    ensures CountBusinessDays(c, lo - 1, hi - 1) == CountBusinessDays(c, lo, hi)
  {
    if lo < hi {
      CountSplit(c, lo - 1, lo, hi - 1);
      CountSplit(c, lo, hi - 1, hi);
      assert CountBusinessDays(c, lo - 1, lo) == 1;
      assert CountBusinessDays(c, hi - 1, hi) == 1;
    }
  }

  /** Between two business instants the fixed ends are the instants themselves, in order. */
  lemma FixDatesOfBusinessTime(c: Config, a: int, b: int)
    requires ValidConfig(c)
    requires IsBusinessTime(c, a) && IsBusinessTime(c, b)
    ensures FixDates(c, a, b) == if a <= b then FixedDates(a, b, 1) else FixedDates(b, a, -1)
  {
  }

  /** From a business instant back to an earlier one the count is the business days from the earlier day, excluding the later day. */
  lemma DaysBetweenEarlier(c: Config, t: int, r: int)
    requires ValidConfig(c)
    requires IsBusinessTime(c, t) && IsBusinessTime(c, r) && r < t
    ensures BusinessDaysBetween(c, t, r) == -(CountBusinessDays(c, DayOf(r) - 1, DayOf(t) - 1) as int)
  {
    FixDatesOfBusinessTime(c, t, r);
    CurrentSegmentIn(c, t);
    CurrentSegmentIn(c, r);
    DayOfMonotone(r, t);
    CountBetweenBusinessDays(c, DayOf(r), DayOf(t));
  }

  /**
   * The day count undoes the backward day walk: walking `n` business days back
   * from a business instant to another business instant puts them `-n` days apart.
   */
  lemma BusinessDaysDiffOfWalkBackward(c: Config, t: int, n: nat)
    requires ValidConfig(c)
    requires IsBusinessTime(c, t) && IsBusinessTime(c, DaysWalked(c, t, n, Subtract))
    ensures BusinessDaysBetween(c, t, DaysWalked(c, t, n, Subtract)) == -(n as int)
  {
    var r := DaysWalked(c, t, n, Subtract);
    DaysWalkedBackward(c, t, n);
    if n > 0 {
      DaysBetweenEarlier(c, t, r);
    }
  }

  // ---------------------------------------------------------------- minutes

  /**
   * The whole business minutes segment `s` contributes to the span `[from, to]`:
   * the length of their overlap in minutes, truncated, and nothing when they do
   * not overlap.
   */
  function ClippedMinutes(s: Segment, from: int, to: int): (r: int)
    ensures r >= 0
    ensures r == 0 || (r * MinuteMs <= to - from && r * MinuteMs <= s.end - s.start)
  {
    var lo := if s.start > from then s.start else from;
    var hi := if s.end < to then s.end else to;
    if hi < lo then 0 else MinuteDiff(hi, lo)
  }

  /** The minutes all of `segs` contribute to `[from, to]`. */
  function SegmentsMinutes(segs: seq<Segment>, from: int, to: int): (r: int)
    ensures r >= 0
  {
    if segs == [] then 0
    else SegmentsMinutes(segs[..|segs| - 1], from, to) + ClippedMinutes(segs[|segs| - 1], from, to)
  }

  /** The minutes day `d`'s segments contribute to `[from, to]`; none on a day that is not a business day. */
  function DayMinutes(c: Config, d: int, from: int, to: int): (r: int)
    ensures r >= 0
  {
    match BusinessTimeSegments(c, d)
    case None => 0
    case Some(segs) => SegmentsMinutes(segs, from, to)
  }

  /** The minutes days `lo .. hi - 1` contribute to `[from, to]`. */
  function RangeMinutes(c: Config, from: int, to: int, lo: int, hi: int): (r: int)
    ensures r >= 0
    decreases hi - lo
  {
    if hi <= lo then 0 else RangeMinutes(c, from, to, lo, hi - 1) + DayMinutes(c, hi - 1, from, to)
  }

  /**
   * `businessMinutesDiff` as intended: the business minutes between the fixed
   * ends, segment by segment over every day from the earlier end's day to the
   * later end's day, signed.
   */
  function BusinessMinutesBetween(c: Config, date: int, comparator: int): int
    requires ValidConfig(c)
  {
    var f := FixDates(c, date, comparator);
    Signed(RangeMinutes(c, f.from, f.to, DayOf(f.from), DayOf(f.to) + 1), f.multiplier)
  }

  /**
   * The same-day loop of `businessMinutesDiff` as written: it stops at the
   * segment holding `to` and adds from `from`'s segment only the part after
   * `from`, so a segment lying strictly between the two is never added.
   */
  function SameDayAsWritten(segs: seq<Segment>, from: int, to: int): int {
    if segs == [] then 0
    else
      var s := segs[0];
      if Contains(s, to) && Contains(s, from) then MinuteDiff(to, from)
      else if Contains(s, to) then MinuteDiff(to, s.start)
      else if Contains(s, from) then MinuteDiff(s.end, from) + SameDayAsWritten(segs[1..], from, to)
      else SameDayAsWritten(segs[1..], from, to)
  }

  /** `businessMinutesDiff` as written: the same-day loop above, otherwise the same sum as intended. */
  function BusinessMinutesDiffAsWritten(c: Config, date: int, comparator: int): int
    requires ValidConfig(c)
  {
    var f := FixDates(c, date, comparator);
    if DayOf(f.from) == DayOf(f.to) && BusinessTimeSegments(c, DayOf(f.from)).Some? then
      Signed(SameDayAsWritten(BusinessTimeSegments(c, DayOf(f.from)).value, f.from, f.to), f.multiplier)
    else
      Signed(RangeMinutes(c, f.from, f.to, DayOf(f.from), DayOf(f.to) + 1), f.multiplier)
  }

  /** The segments after index `k` add nothing when none of them meets the span. */
  lemma {:induction false} SegmentsMinutesPrefix(segs: seq<Segment>, from: int, to: int, k: int)
    requires 0 <= k <= |segs|
    requires forall j :: k <= j < |segs| ==> ClippedMinutes(segs[j], from, to) == 0
    ensures SegmentsMinutes(segs, from, to) == SegmentsMinutes(segs[..k], from, to)
    decreases |segs|
  {
    if |segs| > k {
      var init := segs[..|segs| - 1];
      assert init[..k] == segs[..k];
      assert forall j :: k <= j < |init| ==> init[j] == segs[j];
      SegmentsMinutesPrefix(init, from, to, k);
    } else {
      assert segs[..k] == segs;
    }
  }

  /** One more segment of a prefix. */
  lemma SegmentsMinutesStep(segs: seq<Segment>, from: int, to: int, i: int)
    requires 0 <= i < |segs|
    ensures SegmentsMinutes(segs[..i + 1], from, to) == SegmentsMinutes(segs[..i], from, to) + ClippedMinutes(segs[i], from, to)
  {
    assert segs[..i + 1][..i] == segs[..i];
  }

  /** The days from `a` up to `b` add nothing when none of them is a business day. */
  lemma {:induction false} RangeMinutesSkip(c: Config, from: int, to: int, lo: int, a: int, b: int)
    requires lo <= a <= b
    requires forall k :: a <= k < b ==> !IsBusinessDay(c, k)
    ensures RangeMinutes(c, from, to, lo, b) == RangeMinutes(c, from, to, lo, a)
    decreases b - a
  {
    if b > a {
      RangeMinutesSkip(c, from, to, lo, a, b - 1);
    }
  }

  /** Moving on to the next business day adds the minutes of the day left behind. */
  lemma RangeMinutesNext(c: Config, from: int, to: int, lo: int, d: int)
    requires ValidConfig(c)
    requires lo <= d
    ensures RangeMinutes(c, from, to, lo, NextBusinessDayAfter(c, d)) == RangeMinutes(c, from, to, lo, d) + DayMinutes(c, d, from, to)
  {
    RangeMinutesSkip(c, from, to, lo, d + 1, NextBusinessDayAfter(c, d));
  }

  /** Midnight of a later day is at least a day past midnight of an earlier one. */
  lemma DayStartMonotone(a: int, b: int)
    requires a < b
    ensures DayStart(a) + DayMs <= DayStart(b)
  {
  }

  /** `from` lies before every segment of a later day, `to` after every segment of an earlier day. */
  lemma SegmentBetween(c: Config, from: int, to: int, d: int, i: int)
    requires ValidConfig(c)
    requires IsBusinessDay(c, d) && 0 <= i < |BusinessTimeSegments(c, d).value|
    ensures var s := BusinessTimeSegments(c, d).value[i];
      && (DayOf(from) < d ==> from < s.start)
      && (d < DayOf(to) ==> s.end < to)
  {
    SegmentWithinDay(c, d, i);
    DayOfBounds(from);
    DayOfBounds(to);
    if DayOf(from) < d {
      DayStartMonotone(DayOf(from), d);
    }
    if d < DayOf(to) {
      DayStartMonotone(d, DayOf(to));
    }
  }

  /**
   * The same-day part, with the branch the written loop lacks: a segment strictly
   * between `from` and `to` counts whole.
   */
  method SameDayMinutes(c: Config, from: int, to: int) returns (diff: int)
    requires ValidConfig(c)
    requires from <= to && DayOf(from) == DayOf(to) && IsBusinessDay(c, DayOf(from))
    ensures diff == DayMinutes(c, DayOf(from), from, to)
  {
    var d := DayOf(from);
    var found := GetBusinessTimeSegments(c, d);
    SegmentsExist(c, d);
    var fromSegments := found.value;
    diff := 0;
    for i := 0 to |fromSegments|
      invariant diff == SegmentsMinutes(fromSegments[..i], from, to)
    {
      var segment := fromSegments[i];
      SegmentsMinutesStep(fromSegments, from, to, i);
      if Contains(segment, to) && Contains(segment, from) {
        diff := diff + MinuteDiff(to, from);
      } else if Contains(segment, to) {
        diff := diff + MinuteDiff(to, segment.start);
      } else if Contains(segment, from) {
        diff := diff + MinuteDiff(segment.end, from);
        continue;
      } else if segment.start > from && segment.end < to {
        diff := diff + MinuteDiff(segment.end, segment.start);
        continue;
      } else {
        continue;
      }
      forall j | i + 1 <= j < |fromSegments|
        ensures ClippedMinutes(fromSegments[j], from, to) == 0
      {
        SegmentsInOrder(c, d, i, j);
      }
      SegmentsMinutesPrefix(fromSegments, from, to, i + 1);
      return;
    }
    assert fromSegments[..|fromSegments|] == fromSegments;
  }

  /** The first day's part: from `from` to the end of its segment, then every later segment whole. */
  method FirstDayMinutes(c: Config, from: int, to: int) returns (diff: int)
    requires ValidConfig(c)
    requires DayOf(from) < DayOf(to) && IsBusinessDay(c, DayOf(from))
    ensures diff == DayMinutes(c, DayOf(from), from, to)
  {
    var d := DayOf(from);
    var found := GetBusinessTimeSegments(c, d);
    SegmentsExist(c, d);
    var segments := found.value;
    diff := 0;
    for i := 0 to |segments|
      invariant diff == SegmentsMinutes(segments[..i], from, to)
    {
      var segment := segments[i];
      SegmentsMinutesStep(segments, from, to, i);
      SegmentBetween(c, from, to, d, i);
      if Contains(segment, from) {
        diff := diff + MinuteDiff(segment.end, from);
      } else if segment.start >= from {
        diff := diff + MinuteDiff(segment.end, segment.start);
      }
    }
    assert segments[..|segments|] == segments;
  }

  /** A day strictly between the ends: every segment whole. */
  method MiddleDayMinutes(c: Config, day: int, from: int, to: int) returns (diff: int)
    requires ValidConfig(c)
    requires DayOf(from) < DayOf(day) < DayOf(to) && IsBusinessDay(c, DayOf(day))
    ensures diff == DayMinutes(c, DayOf(day), from, to)
  {
    var d := DayOf(day);
    var found := GetBusinessTimeSegments(c, d);
    SegmentsExist(c, d);
    var segments := found.value;
    diff := 0;
    for i := 0 to |segments|
      invariant diff == SegmentsMinutes(segments[..i], from, to)
    {
      var segment := segments[i];
      SegmentsMinutesStep(segments, from, to, i);
      SegmentBetween(c, from, to, d, i);
      diff := diff + MinuteDiff(segment.end, segment.start);
    }
    assert segments[..|segments|] == segments;
  }

  /** The last day's part: every segment ending by `to` whole, then its segment up to `to`. */
  method LastDayMinutes(c: Config, from: int, to: int) returns (diff: int)
    requires ValidConfig(c)
    requires DayOf(from) < DayOf(to) && IsBusinessDay(c, DayOf(to))
    ensures diff == DayMinutes(c, DayOf(to), from, to)
  {
    var d := DayOf(to);
    var found := GetBusinessTimeSegments(c, d);
    SegmentsExist(c, d);
    var toSegments := found.value;
    diff := 0;
    for i := 0 to |toSegments|
      invariant diff == SegmentsMinutes(toSegments[..i], from, to)
    {
      var segment := toSegments[i];
      SegmentsMinutesStep(toSegments, from, to, i);
      SegmentBetween(c, from, to, d, i);
      if Contains(segment, to) {
        diff := diff + MinuteDiff(to, segment.start);
      } else if segment.end <= to {
        diff := diff + MinuteDiff(segment.end, segment.start);
      }
    }
    assert toSegments[..|toSegments|] == toSegments;
  }

  /** The days after the first: every business day in between, then the last day, onto the first day's minutes. */
  method MultiDayMinutes(c: Config, start: int, to: int) returns (diff: int)
    requires ValidConfig(c)
    requires DayOf(start) < DayOf(to) && IsBusinessDay(c, DayOf(start)) && IsBusinessDay(c, DayOf(to))
    ensures diff == RangeMinutes(c, start, to, DayOf(start), DayOf(to) + 1)
  {
    var lo := DayOf(start);
    var from := start;
    diff := FirstDayMinutes(c, from, to);
    RangeMinutesNext(c, start, to, lo, lo);
    OneBusinessDayStep(c, from, Add);
    from := AddOrSubtractBusinessDays(c, from, 1, Add);
    while DayOf(from) < DayOf(to)
      invariant lo < DayOf(from) <= DayOf(to) && IsBusinessDay(c, DayOf(from))
      invariant diff == RangeMinutes(c, start, to, lo, DayOf(from))
      decreases DayOf(to) - DayOf(from)
    {
      var dayMinutes := MiddleDayMinutes(c, from, start, to);
      diff := diff + dayMinutes;
      RangeMinutesNext(c, start, to, lo, DayOf(from));
      OneBusinessDayStep(c, from, Add);
      from := AddOrSubtractBusinessDays(c, from, 1, Add);
    }
    var lastMinutes := LastDayMinutes(c, start, to);
    diff := diff + lastMinutes;
  }

  /**
   * `businessMinutesDiff`: the same-day scan, or the first day, every business day
   * in between and the last day; with the same-day scan counting the segments
   * between the two ends.
   */
  method BusinessMinutesDiff(c: Config, date: int, comparator: int) returns (r: int)
    requires ValidConfig(c)
    ensures r == BusinessMinutesBetween(c, date, comparator)
  {
    var fixed := FixDatesToCalculateDiff(c, date, comparator);
    FixDatesSpec(c, date, comparator);
    var from := fixed.from;
    var to := fixed.to;
    var diff;
    if DayOf(from) == DayOf(to) {
      diff := SameDayMinutes(c, from, to);
      assert RangeMinutes(c, from, to, DayOf(from), DayOf(from) + 1) == diff;
    } else {
      diff := MultiDayMinutes(c, from, to);
    }
    return if diff != 0 then diff * fixed.multiplier else 0;
  }

  /** Every instant of a resolved segment is business time. */
  lemma InSegmentIsBusinessTime(c: Config, d: int, i: int, u: int)
    requires ValidConfig(c)
    requires IsBusinessDay(c, d) && 0 <= i < |BusinessTimeSegments(c, d).value|
    requires Contains(BusinessTimeSegments(c, d).value[i], u)
    ensures DayOf(u) == d && IsBusinessTime(c, u)
  {
    SegmentWithinDay(c, d, i);
    DayOfWithin(d, u - DayStart(d));
    assert DayOf(u) == d;
    CurrentSegmentOf(c, u, i);
  }

  /** A segment no instant strictly inside the span lies in contributes no whole minute. */
  lemma ClippedMinutesEmpty(s: Segment, from: int, to: int)
    requires forall u :: from < u < to ==> !Contains(s, u)
    ensures ClippedMinutes(s, from, to) == 0
  {
    var lo := if s.start > from then s.start else from;
    var hi := if s.end < to then s.end else to;
    if hi >= lo + 2 {
      assert Contains(s, lo + 1);
    }
  }

  /** Segments that each contribute nothing sum to nothing. */
  lemma {:induction false} SegmentsMinutesZero(segs: seq<Segment>, from: int, to: int)
    requires forall i :: 0 <= i < |segs| ==> ClippedMinutes(segs[i], from, to) == 0
    ensures SegmentsMinutes(segs, from, to) == 0
  {
    if segs != [] {
      var init := segs[..|segs| - 1];
      assert forall i :: 0 <= i < |init| ==> init[i] == segs[i];
      SegmentsMinutesZero(init, from, to);
    }
  }

  /** Segments of which only the `k`-th meets the span sum to that one's minutes. */
  lemma {:induction false} SegmentsMinutesSingle(segs: seq<Segment>, from: int, to: int, k: int)
    requires 0 <= k < |segs|
    requires forall i :: 0 <= i < |segs| && i != k ==> ClippedMinutes(segs[i], from, to) == 0
    ensures SegmentsMinutes(segs, from, to) == ClippedMinutes(segs[k], from, to)
  {
    var init := segs[..|segs| - 1];
    assert forall i :: 0 <= i < |init| ==> init[i] == segs[i];
    if k == |segs| - 1 {
      SegmentsMinutesZero(init, from, to);
    } else {
      SegmentsMinutesSingle(init, from, to, k);
    }
  }

  /** With no business time strictly between the ends, no day contributes a minute. */
  lemma {:induction false} RangeMinutesEmpty(c: Config, from: int, to: int, lo: int, hi: int)
    requires ValidConfig(c)
    requires forall u :: from < u < to ==> !IsBusinessTime(c, u)
    ensures RangeMinutes(c, from, to, lo, hi) == 0
    decreases hi - lo
  {
    if hi > lo {
      RangeMinutesEmpty(c, from, to, lo, hi - 1);
      var d := hi - 1;
      if IsBusinessDay(c, d) {
        var segs := BusinessTimeSegments(c, d).value;
        forall i | 0 <= i < |segs|
          ensures ClippedMinutes(segs[i], from, to) == 0
        {
          forall u | from < u < to
            ensures !Contains(segs[i], u)
          {
            if Contains(segs[i], u) {
              InSegmentIsBusinessTime(c, d, i, u);
            }
          }
          ClippedMinutesEmpty(segs[i], from, to);
        }
        SegmentsMinutesZero(segs, from, to);
      }
    }
  }

  /**
   * An instant is zero business minutes from itself, also outside business time,
   * where the two fixed ends are the surrounding segment boundaries.
   */
  lemma BusinessMinutesDiffSelf(c: Config, t: int)
    requires ValidConfig(c)
    ensures BusinessMinutesBetween(c, t, t) == 0
  {
    FixDatesSpec(c, t, t);
    var f := FixDates(c, t, t);
    RangeMinutesEmpty(c, f.from, f.to, DayOf(f.from), DayOf(f.to) + 1);
  }

  /** Swapping two different instants negates the minute count. */
  lemma BusinessMinutesDiffAntisymmetric(c: Config, a: int, b: int)
    requires ValidConfig(c)
    requires a != b
    ensures BusinessMinutesBetween(c, a, b) == -BusinessMinutesBetween(c, b, a)
  {
  }

  /** The minute count is never negative forward and never positive backward. */
  lemma BusinessMinutesDiffSign(c: Config, a: int, b: int)
    requires ValidConfig(c)
    ensures a <= b ==> BusinessMinutesBetween(c, a, b) >= 0
    ensures a > b ==> BusinessMinutesBetween(c, a, b) <= 0
  {
  }

  /** Two instants of one segment are as many business minutes apart as the clock says. */
  lemma MinutesWithinSegment(c: Config, d: int, k: int, from: int, to: int)
    requires ValidConfig(c)
    requires IsBusinessDay(c, d) && 0 <= k < |BusinessTimeSegments(c, d).value|
    requires from <= to
    requires Contains(BusinessTimeSegments(c, d).value[k], from) && Contains(BusinessTimeSegments(c, d).value[k], to)
    ensures RangeMinutes(c, from, to, d, d + 1) == MinuteDiff(to, from)
  {
    var segs := BusinessTimeSegments(c, d).value;
    forall i | 0 <= i < |segs| && i != k
      ensures ClippedMinutes(segs[i], from, to) == 0
    {
      if i < k {
        SegmentsInOrder(c, d, i, k);
      } else {
        SegmentsInOrder(c, d, k, i);
      }
    }
    SegmentsMinutesSingle(segs, from, to, k);
  }

  /**
   * Two instants of one segment, in either order, are their truncated clock
   * difference in minutes apart.
   */
  lemma BusinessMinutesDiffWithinSegment(c: Config, a: int, b: int)
    requires ValidConfig(c)
    requires IsBusinessTime(c, a) && Contains(CurrentSegment(c, a).value, b)
    ensures BusinessMinutesBetween(c, a, b) == MinuteDiff(b, a)
  {
    CurrentSegmentIn(c, a);
    var d := DayOf(a);
    var segs := BusinessTimeSegments(c, d).value;
    var k :| 0 <= k < |segs| && segs[k] == CurrentSegment(c, a).value;
    InSegmentIsBusinessTime(c, d, k, b);
    FixDatesOfBusinessTime(c, a, b);
    if a <= b {
      MinutesWithinSegment(c, d, k, a, b);
    } else {
      MinutesWithinSegment(c, d, k, b, a);
      MinuteDiffAntisymmetric(a, b);
    }
  }

  /**
   * The minute count undoes the minute walk inside a segment: from a business
   * instant, walking `n` minutes that fit before the segment's boundary puts the
   * two `n` business minutes apart, with the sign of the direction.
   */
  lemma BusinessMinutesDiffOfWalk(c: Config, t: int, n: nat, dir: Direction)
    requires ValidConfig(c)
    requires IsBusinessTime(c, t)
    requires n * MinuteMs <= Tail(dir, CurrentSegment(c, t).value, t)
    ensures BusinessMinutesBetween(c, t, MinutesWalked(c, t, n, dir)) == if dir == Add then n as int else -(n as int)
  {
    MinutesWalkedWithinSegment(c, t, n, dir);
    var u := Move(t, dir, n);
    var d := DayOf(t);
    CurrentSegmentIn(c, t);
    var segs := BusinessTimeSegments(c, d).value;
    var k :| 0 <= k < |segs| && segs[k] == CurrentSegment(c, t).value;
    assert Contains(segs[k], u);
    InSegmentIsBusinessTime(c, d, k, u);
    FixDatesOfBusinessTime(c, t, u);
    var from := if dir == Add then t else u;
    var to := if dir == Add then u else t;
    assert to - from == n * MinuteMs;
    MinutesWithinSegment(c, d, k, from, to);
    assert MinuteDiff(to, from) == n;
  }

  /** `businessHoursDiff`: the minute count in hours. */
  function BusinessHoursBetween(c: Config, date: int, comparator: int): real
    requires ValidConfig(c)
  {
    BusinessMinutesBetween(c, date, comparator) as real / 60.0
  }

  /** `businessHoursDiff`. */
  method BusinessHoursDiff(c: Config, date: int, comparator: int) returns (r: real)
    requires ValidConfig(c)
    ensures r == BusinessHoursBetween(c, date, comparator)
  {
    var minutesDiff := BusinessMinutesDiff(c, date, comparator);
    return minutesDiff as real / 60.0;
  }

  /**
   * The hour count undoes the hour walk inside a segment, and an instant is zero
   * hours from itself.
   */
  lemma BusinessHoursDiffOfWalk(c: Config, t: int, h: nat, dir: Direction)
    requires ValidConfig(c)
    requires IsBusinessTime(c, t)
    requires h * HourMs <= Tail(dir, CurrentSegment(c, t).value, t)
    ensures BusinessHoursBetween(c, t, HoursWalked(c, t, h, dir)) == if dir == Add then h as real else -(h as real)
    ensures BusinessHoursBetween(c, t, t) == 0.0
  {
    BusinessMinutesDiffOfWalk(c, t, h * 60, dir);
    BusinessMinutesDiffSelf(c, t);
  }

  // ---------------------------------------------------------------- the same-day finding

  /** Between two business instants of one business day, both counts only look at that day's segments. */
  lemma SameDayCounts(c: Config, from: int, to: int)
    requires ValidConfig(c)
    requires IsBusinessTime(c, from) && IsBusinessTime(c, to) && from <= to && DayOf(from) == DayOf(to)
    ensures IsBusinessDay(c, DayOf(from))
    ensures BusinessMinutesDiffAsWritten(c, from, to) == SameDayAsWritten(BusinessTimeSegments(c, DayOf(from)).value, from, to)
    ensures BusinessMinutesBetween(c, from, to) == SegmentsMinutes(BusinessTimeSegments(c, DayOf(from)).value, from, to)
  {
    var d := DayOf(from);
    FixDatesOfBusinessTime(c, from, to);
    CurrentSegmentIn(c, from);
    assert BusinessTimeSegments(c, d).Some?;
    assert RangeMinutes(c, from, to, d, d + 1) == DayMinutes(c, d, from, to);
  }

  /** The minutes of a list of segments, its first segment split off. */
  lemma {:induction false} SegmentsMinutesHead(segs: seq<Segment>, from: int, to: int)
    requires |segs| > 0
    ensures SegmentsMinutes(segs, from, to) == ClippedMinutes(segs[0], from, to) + SegmentsMinutes(segs[1..], from, to)
  {
    if |segs| > 1 {
      var init := segs[..|segs| - 1];
      SegmentsMinutesHead(init, from, to);
      assert init[0] == segs[0];
      assert init[1..] == segs[1..][..|segs| - 2];
    } else {
      assert segs[1..] == [];
    }
  }

  /** Segments each no shorter than a point, each ending before the next one starts. */
  predicate Ordered(segs: seq<Segment>) {
    && (forall a :: 0 <= a < |segs| ==> segs[a].start <= segs[a].end)
    && (forall a, b :: 0 <= a < b < |segs| ==> segs[a].end < segs[b].start)
  }

  /** Dropping the first segment keeps the order. */
  lemma OrderedRest(segs: seq<Segment>)
    requires |segs| > 0 && Ordered(segs)
    ensures Ordered(segs[1..])
  {
    var rest := segs[1..];
    assert forall a :: 0 <= a < |rest| ==> rest[a] == segs[a + 1];
  }

  /**
   * The written same-day loop is right when `from`'s and `to`'s segments are the
   * same segment or neighbours: only a segment strictly between them is lost.
   */
  lemma {:induction false} SameDayAsWrittenAgrees(segs: seq<Segment>, from: int, to: int, i: int, j: int)
    requires Ordered(segs)
    requires from <= to && 0 <= i <= j < |segs| && j <= i + 1
    requires Contains(segs[i], from) && Contains(segs[j], to)
    ensures SameDayAsWritten(segs, from, to) == SegmentsMinutes(segs, from, to)
    decreases i
  {
    if i > 0 {
      var rest := segs[1..];
      SegmentsMinutesHead(segs, from, to);
      assert segs[0].end < segs[i].start;
      assert rest[i - 1] == segs[i] && rest[j - 1] == segs[j];
      OrderedRest(segs);
      SameDayAsWrittenAgrees(rest, from, to, i - 1, j - 1);
    } else if Contains(segs[0], to) {
      SameDayFirstSegment(segs, from, to);
    } else {
      SameDayFirstTwoSegments(segs, from, to);
    }
  }

  /** Both ends in the first segment: its minutes, and nothing after it. */
  lemma SameDayFirstSegment(segs: seq<Segment>, from: int, to: int)
    requires Ordered(segs) && |segs| > 0 && from <= to
    requires Contains(segs[0], from) && Contains(segs[0], to)
    ensures SameDayAsWritten(segs, from, to) == SegmentsMinutes(segs, from, to)
  {
    var rest := segs[1..];
    SegmentsMinutesHead(segs, from, to);
    forall a | 0 <= a < |rest|
      ensures ClippedMinutes(rest[a], from, to) == 0
    {
      assert rest[a] == segs[a + 1];
    }
    SegmentsMinutesZero(rest, from, to);
  }

  /** `from` in the first segment and `to` in the second: the tail of one, the head of the other. */
  lemma SameDayFirstTwoSegments(segs: seq<Segment>, from: int, to: int)
    requires Ordered(segs) && |segs| > 1 && from <= to
    requires Contains(segs[0], from) && !Contains(segs[0], to) && Contains(segs[1], to)
    ensures SameDayAsWritten(segs, from, to) == SegmentsMinutes(segs, from, to)
  {
    var rest := segs[1..];
    SegmentsMinutesHead(segs, from, to);
    SegmentsMinutesHead(rest, from, to);
    assert rest[0] == segs[1];
    forall a | 0 <= a < |rest[1..]|
      ensures ClippedMinutes(rest[1..][a], from, to) == 0
    {
      assert rest[1..][a] == segs[a + 2];
    }
    SegmentsMinutesZero(rest[1..], from, to);
  }

  /** Wednesday 09:00-12:00, 13:00-15:00 and 16:00-18:00, no other working day, no holidays. */
  const SplitWednesday: Config := Config(
    BusinessHoursMap(None, None, None, Some([
      BusinessHours(TimeOfDay(9, 0, 0), TimeOfDay(12, 0, 0)),
      BusinessHours(TimeOfDay(13, 0, 0), TimeOfDay(15, 0, 0)),
      BusinessHours(TimeOfDay(16, 0, 0), TimeOfDay(18, 0, 0))]), None, None, None),
    [])

  /** Day 6, 1970-01-07, is a Wednesday. */
  const Wednesday: int := 6

  /** The day's three segments, anchored. */
  lemma SplitWednesdaySegments()
    ensures ValidConfig(SplitWednesday)
    ensures IsBusinessDay(SplitWednesday, Wednesday)
    ensures BusinessTimeSegments(SplitWednesday, Wednesday).value == [
      Segment(DayStart(Wednesday) + 9 * HourMs, DayStart(Wednesday) + 12 * HourMs),
      Segment(DayStart(Wednesday) + 13 * HourMs, DayStart(Wednesday) + 15 * HourMs),
      Segment(DayStart(Wednesday) + 16 * HourMs, DayStart(Wednesday) + 18 * HourMs)]
  {
    var hs := HoursOn(SplitWednesday.businessHours, 3).value;
    assert Millis(TimeOfDay(9, 0, 0)) == 9 * HourMs;
    assert Millis(TimeOfDay(12, 0, 0)) == 12 * HourMs;
    assert Millis(TimeOfDay(13, 0, 0)) == 13 * HourMs;
    assert Millis(TimeOfDay(15, 0, 0)) == 15 * HourMs;
    assert Millis(TimeOfDay(16, 0, 0)) == 16 * HourMs;
    assert Millis(TimeOfDay(18, 0, 0)) == 18 * HourMs;
    assert ValidEntry(hs);
    assert forall wd :: 0 <= wd < 7 && HoursOn(SplitWednesday.businessHours, wd).Some? ==> wd == 3;
    assert Weekday(Wednesday) == 3;
  }

  /**
   * The finding: from 10:00 to 17:00 on that Wednesday the written same-day loop
   * counts 120 minutes of the first segment and 60 of the third and never adds
   * the 120 minutes of the second, 180 in all, where the business minutes
   * between the two are 300.
   */
  lemma SameDayMiddleSegmentSkipped()
    ensures var from := DayStart(Wednesday) + 10 * HourMs;
      var to := DayStart(Wednesday) + 17 * HourMs;
      && ValidConfig(SplitWednesday)
      && BusinessMinutesDiffAsWritten(SplitWednesday, from, to) == 180
      && BusinessMinutesBetween(SplitWednesday, from, to) == 300
  {
    SplitWednesdaySegments();
    var c := SplitWednesday;
    var from := DayStart(Wednesday) + 10 * HourMs;
    var to := DayStart(Wednesday) + 17 * HourMs;
    var segs := BusinessTimeSegments(c, Wednesday).value;
    InSegmentIsBusinessTime(c, Wednesday, 0, from);
    InSegmentIsBusinessTime(c, Wednesday, 2, to);
    SameDayCounts(c, from, to);
    assert SameDayAsWritten(segs[2..], from, to) == 60;
    assert SameDayAsWritten(segs[1..], from, to) == 60;
    assert SameDayAsWritten(segs, from, to) == 180;
    assert segs[..2][..1] == segs[..1] && segs[..3] == segs;
    assert SegmentsMinutes(segs[..1], from, to) == 120;
    assert SegmentsMinutes(segs[..2], from, to) == 240;
    assert SegmentsMinutes(segs, from, to) == 300;
  }
}
