/**
 * The segment resolver (`timeStringToDayJS`, `getBusinessTimeSegments`) and the
 * segment lookup (`getCurrentBusinessTimeSegment`, `isBusinessTime`).
 */
module SegmentResolver {
  import opened Wrappers
  import opened Calendar
  import opened DayClassifier

  /** A working window anchored to one calendar day: both ends are instants. */
  datatype Segment = Segment(start: int, end: int)

  /** Both ends of a segment are business time (`isSameOrAfter(start) && isSameOrBefore(end)`). */
  predicate Contains(s: Segment, t: int) {
    s.start <= t <= s.end
  }

  /** `timeStringToDayJS`: the time of day `tod` on day `d`, milliseconds zeroed. */
  function Anchor(d: int, tod: TimeOfDay): int {
    DayStart(d) + Millis(tod)
  }

  function AnchorWindow(d: int, h: BusinessHours): Segment {
    Segment(Anchor(d, h.start), Anchor(d, h.end))
  }

  /** The configured windows anchored to day `d`, in configured order. */
  function AnchorAll(d: int, hs: seq<BusinessHours>): seq<Segment> {
    seq(|hs|, i requires 0 <= i < |hs| => AnchorWindow(d, hs[i]))
  }

  /**
   * The segments `getBusinessTimeSegments` resolves for day `d`: none on a day that
   * is not a business day, otherwise the weekday's windows anchored to `d`.
   */
  function BusinessTimeSegments(c: Config, d: int): Option<seq<Segment>> {
    if !IsBusinessDay(c, d) then None
    else Some(AnchorAll(d, HoursOn(c.businessHours, Weekday(d)).value))
  }

  /**
   * The shape the engine relies on: a non-empty list of segments inside day `d`,
   * each at least a minute long, each ending before the next one starts.
   */
  predicate OrderedWithin(d: int, segs: seq<Segment>) {
    && |segs| > 0
    && (forall i :: 0 <= i < |segs| ==>
          DayStart(d) <= segs[i].start && segs[i].start + MinuteMs <= segs[i].end && segs[i].end < DayStart(d) + DayMs)
    && (forall i, j :: 0 <= i < j < |segs| ==> segs[i].end < segs[j].start)
  }

  /**
   * Segments exist exactly on business days; there they are the configured
   * windows, one per entry in configured order, all inside the day and ordered.
   */
  lemma SegmentsShape(c: Config, d: int)
    requires ValidConfig(c)
    ensures BusinessTimeSegments(c, d).Some? <==> IsBusinessDay(c, d)
    ensures IsBusinessDay(c, d) ==>
      var hs := HoursOn(c.businessHours, Weekday(d)).value;
      var segs := BusinessTimeSegments(c, d).value;
      && |segs| == |hs|
      && (forall i :: 0 <= i < |hs| ==>
            segs[i].start == DayStart(d) + Millis(hs[i].start) && segs[i].end == DayStart(d) + Millis(hs[i].end))
      && OrderedWithin(d, segs)
  {
    if IsBusinessDay(c, d) {
      assert 0 <= Weekday(d) < 7;
      assert ValidEntry(HoursOn(c.businessHours, Weekday(d)).value);
    }
  }

  /** Segments exist exactly on business days, and there are some. */
  lemma SegmentsExist(c: Config, d: int)
    requires ValidConfig(c)
    ensures BusinessTimeSegments(c, d).Some? <==> IsBusinessDay(c, d)
    ensures IsBusinessDay(c, d) ==> |BusinessTimeSegments(c, d).value| > 0
  {
    if IsBusinessDay(c, d) {
      assert 0 <= Weekday(d) < 7;
      assert ValidEntry(HoursOn(c.businessHours, Weekday(d)).value);
    }
  }

  /** One resolved segment of a business day: inside the day and at least a minute long. */
  lemma SegmentWithinDay(c: Config, d: int, i: int)
    requires ValidConfig(c)
    requires IsBusinessDay(c, d)
    requires 0 <= i < |BusinessTimeSegments(c, d).value|
    ensures var s := BusinessTimeSegments(c, d).value[i];
      DayStart(d) <= s.start && s.start + MinuteMs <= s.end && s.end < DayStart(d) + DayMs
  {
    SegmentsShape(c, d);
  }

  /** Two resolved segments of a business day, in order: the first ends before the second starts. */
  lemma SegmentsInOrder(c: Config, d: int, i: int, j: int)
    requires ValidConfig(c)
    requires IsBusinessDay(c, d)
    requires 0 <= i < j < |BusinessTimeSegments(c, d).value|
    ensures BusinessTimeSegments(c, d).value[i].end < BusinessTimeSegments(c, d).value[j].start
  {
    SegmentsShape(c, d);
  }

  /**
   * `getBusinessTimeSegments`: `null` on a non-business day, otherwise the
   * weekday's windows pushed one by one, anchored to the given day.
   */
  method GetBusinessTimeSegments(c: Config, day: int) returns (r: Option<seq<Segment>>)
    ensures r == BusinessTimeSegments(c, day)
  {
    if !IsBusinessDay(c, day) {
      return None;
    }
    var businessHours := HoursOn(c.businessHours, Weekday(day)).value;
    var segments: seq<Segment> := [];
    for i := 0 to |businessHours|
      invariant segments == AnchorAll(day, businessHours[..i])
    {
      var start := Anchor(day, businessHours[i].start);
      var end := Anchor(day, businessHours[i].end);
      segments := segments + [Segment(start, end)];
    }
    assert businessHours[..|businessHours|] == businessHours;
    return Some(segments);
  }

  /** `Array.prototype.find`: the first segment that contains `t`, if any. */
  function Find(segs: seq<Segment>, t: int): Option<Segment> {
    if segs == [] then None
    else if Contains(segs[0], t) then Some(segs[0])
    else Find(segs[1..], t)
  }

  /**
   * `find` fails exactly when no segment contains `t`; what it finds is one of
   * the segments, and contains `t`.
   */
  lemma {:induction false} FindSpec(segs: seq<Segment>, t: int)
    ensures Find(segs, t).None? <==> forall i :: 0 <= i < |segs| ==> !Contains(segs[i], t)
    ensures Find(segs, t).Some? ==> Find(segs, t).value in segs && Contains(Find(segs, t).value, t)
  {
    if segs != [] && !Contains(segs[0], t) {
      FindSpec(segs[1..], t);
      assert forall i :: 1 <= i < |segs| ==> segs[i] == segs[1..][i - 1];
    }
  }

  /** `getCurrentBusinessTimeSegment`: the segment of `t`'s day that contains `t`. */
  function CurrentSegment(c: Config, t: int): Option<Segment> {
    match BusinessTimeSegments(c, DayOf(t))
    case None => None
    case Some(segs) => if |segs| == 0 then None else Find(segs, t)
  }

  /** `isBusinessTime`. */
  predicate IsBusinessTime(c: Config, t: int) {
    CurrentSegment(c, t).Some?
  }

  /** In ordered segments, the segment that contains `t` is the one `find` returns. */
  lemma {:induction false} FindOrdered(segs: seq<Segment>, t: int, i: int)
    requires 0 <= i < |segs| && Contains(segs[i], t)
    requires forall a, b :: 0 <= a < b < |segs| ==> segs[a].end < segs[b].start
    ensures Find(segs, t) == Some(segs[i])
  {
    if i > 0 {
      assert !Contains(segs[0], t) by {
        assert segs[0].end < segs[i].start;
      }
      assert segs[1..][i - 1] == segs[i];
      FindOrdered(segs[1..], t, i - 1);
    }
  }

  /** The current segment of `t` is the resolved segment of `t`'s day that contains it. */
  lemma CurrentSegmentOf(c: Config, t: int, i: int)
    requires ValidConfig(c)
    requires IsBusinessDay(c, DayOf(t))
    requires 0 <= i < |BusinessTimeSegments(c, DayOf(t)).value|
    requires Contains(BusinessTimeSegments(c, DayOf(t)).value[i], t)
    ensures CurrentSegment(c, t) == Some(BusinessTimeSegments(c, DayOf(t)).value[i])
  {
    SegmentsShape(c, DayOf(t));
    FindOrdered(BusinessTimeSegments(c, DayOf(t)).value, t, i);
  }

  /** The current segment, when there is one, is one of the day's segments and contains `t`. */
  lemma CurrentSegmentIn(c: Config, t: int)
    requires ValidConfig(c)
    ensures CurrentSegment(c, t).Some? ==>
      && IsBusinessDay(c, DayOf(t))
      && CurrentSegment(c, t).value in BusinessTimeSegments(c, DayOf(t)).value
      && Contains(CurrentSegment(c, t).value, t)
  {
    if IsBusinessDay(c, DayOf(t)) {
      FindSpec(BusinessTimeSegments(c, DayOf(t)).value, t);
    }
  }

  /** The time of day `x` lies in one of the windows `hs`, both ends included. */
  predicate InSomeWindow(hs: seq<BusinessHours>, x: int) {
    exists i :: 0 <= i < |hs| && Millis(hs[i].start) <= x <= Millis(hs[i].end)
  }

  /**
   * `isBusinessTime` holds exactly on business days, at a time of day inside one
   * of the weekday's windows, the ends of a window included.
   */
  lemma IsBusinessTimeIff(c: Config, t: int)
    requires ValidConfig(c)
    ensures IsBusinessTime(c, t) <==>
      IsBusinessDay(c, DayOf(t)) && InSomeWindow(HoursOn(c.businessHours, Weekday(DayOf(t))).value, t - DayStart(DayOf(t)))
  {
    var d := DayOf(t);
    SegmentsShape(c, d);
    if IsBusinessDay(c, d) {
      var hs := HoursOn(c.businessHours, Weekday(d)).value;
      var segs := BusinessTimeSegments(c, d).value;
      FindSpec(segs, t);
      if InSomeWindow(hs, t - DayStart(d)) {
        var i :| 0 <= i < |hs| && Millis(hs[i].start) <= t - DayStart(d) <= Millis(hs[i].end);
        assert Contains(segs[i], t);
      }
      if IsBusinessTime(c, t) {
        var i :| 0 <= i < |segs| && segs[i] == CurrentSegment(c, t).value;
        assert Millis(hs[i].start) <= t - DayStart(d) <= Millis(hs[i].end);
      }
    }
  }

  /** On a holiday no instant is business time. */
  lemma HolidayIsNeverBusinessTime(c: Config, t: int)
    requires DayOf(t) in c.holidays
    ensures !IsBusinessTime(c, t)
  {
  }
}
