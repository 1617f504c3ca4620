/**
 * The time locator: `nextBusinessTime` and `lastBusinessTime`, which snap an
 * instant onto the nearest business instant at or after / at or before it.
 */
module TimeLocator {
  import opened Wrappers
  import opened Calendar
  import opened DayClassifier
  import opened SegmentResolver
  import opened DayWalker

  /** `getBusinessTimeSegments(day)[0].start` of a business day. */
  function FirstStart(c: Config, d: int): int
    requires ValidConfig(c)
    requires IsBusinessDay(c, d)
  {
    SegmentsExist(c, d);
    BusinessTimeSegments(c, d).value[0].start
  }

  /** `getBusinessTimeSegments(day).pop().end` of a business day. */
  function LastEnd(c: Config, d: int): int
    requires ValidConfig(c)
    requires IsBusinessDay(c, d)
  {
    SegmentsExist(c, d);
    var segs := BusinessTimeSegments(c, d).value;
    segs[|segs| - 1].end
  }

  /** The day of `nextBusinessDay(date)` / `lastBusinessDay(date)` is the neighbouring business day. */
  lemma OneBusinessDayStep(c: Config, t: int, dir: Direction)
    requires ValidConfig(c)
    ensures DayOf(DaysWalked(c, t, 1, dir)) == NeighbourBusinessDay(c, DayOf(t), dir)
  {
    StepKeepsTimeOfDay(c, t, dir);
  }

  /** The `for` loop of `nextBusinessTime`, from segment `i` on. */
  function ScanForward(c: Config, t: int, segs: seq<Segment>, i: int): int
    requires ValidConfig(c)
    requires 0 <= i < |segs|
    decreases |segs| - i
  {
    if t < segs[i].start then segs[i].start
    else if t > segs[i].end then
      if i == |segs| - 1 then FirstStart(c, NextBusinessDayAfter(c, DayOf(t)))
      else ScanForward(c, t, segs, i + 1)
    else t
  }

  /** The loop of `lastBusinessTime` over the reversed segments, from segment `j` down. */
  function ScanBackward(c: Config, t: int, segs: seq<Segment>, j: int): int
    requires ValidConfig(c)
    requires 0 <= j < |segs|
    decreases j
  {
    if t > segs[j].end then segs[j].end
    else if t < segs[j].start then
      if j == 0 then LastEnd(c, PrevBusinessDayBefore(c, DayOf(t)))
      else ScanBackward(c, t, segs, j - 1)
    else t
  }

  /** What `nextBusinessTime` returns. */
  function NextBusinessInstant(c: Config, t: int): int
    requires ValidConfig(c)
  {
    if !IsBusinessDay(c, DayOf(t)) then FirstStart(c, NextBusinessDayAfter(c, DayOf(t)))
    else
      SegmentsExist(c, DayOf(t));
      ScanForward(c, t, BusinessTimeSegments(c, DayOf(t)).value, 0)
  }

  /** What `lastBusinessTime` returns. */
  function LastBusinessInstant(c: Config, t: int): int
    requires ValidConfig(c)
  {
    if !IsBusinessDay(c, DayOf(t)) then LastEnd(c, PrevBusinessDayBefore(c, DayOf(t)))
    else
      SegmentsExist(c, DayOf(t));
      var segs := BusinessTimeSegments(c, DayOf(t)).value;
      ScanBackward(c, t, segs, |segs| - 1)
  }

  /** An instant that no segment of its day contains is not business time. */
  lemma OutsideSegments(c: Config, u: int)
    requires IsBusinessDay(c, DayOf(u)) ==>
      forall k :: 0 <= k < |BusinessTimeSegments(c, DayOf(u)).value| ==> !Contains(BusinessTimeSegments(c, DayOf(u)).value[k], u)
    ensures !IsBusinessTime(c, u)
  {
    if IsBusinessDay(c, DayOf(u)) {
      FindSpec(BusinessTimeSegments(c, DayOf(u)).value, u);
    }
  }

  /** The first segment start of a business day begins a segment, and nothing earlier that day is business time. */
  lemma FirstStartSpec(c: Config, d: int)
    requires ValidConfig(c)
    requires IsBusinessDay(c, d)
    ensures DayOf(FirstStart(c, d)) == d
    ensures CurrentSegment(c, FirstStart(c, d)) == Some(BusinessTimeSegments(c, d).value[0])
    ensures forall u :: DayOf(u) == d && u < FirstStart(c, d) ==> !IsBusinessTime(c, u)
  {
    SegmentsShape(c, d);
    var segs := BusinessTimeSegments(c, d).value;
    var s := segs[0].start;
    DayOfWithin(d, s - DayStart(d));
    CurrentSegmentOf(c, s, 0);
    forall u | DayOf(u) == d && u < s
      ensures !IsBusinessTime(c, u)
    {
      forall k | 0 <= k < |segs|
        ensures !Contains(segs[k], u)
      {
        if k > 0 {
          assert segs[0].end < segs[k].start;
        }
      }
      OutsideSegments(c, u);
    }
  }

  /** The last segment end of a business day ends a segment, and nothing later that day is business time. */
  lemma LastEndSpec(c: Config, d: int)
    requires ValidConfig(c)
    requires IsBusinessDay(c, d)
    ensures DayOf(LastEnd(c, d)) == d
    ensures CurrentSegment(c, LastEnd(c, d)) == Some(BusinessTimeSegments(c, d).value[|BusinessTimeSegments(c, d).value| - 1])
    ensures forall u :: DayOf(u) == d && u > LastEnd(c, d) ==> !IsBusinessTime(c, u)
  {
    SegmentsShape(c, d);
    var segs := BusinessTimeSegments(c, d).value;
    var n := |segs| - 1;
    var e := segs[n].end;
    DayOfWithin(d, e - DayStart(d));
    CurrentSegmentOf(c, e, n);
    forall u | DayOf(u) == d && u > e
      ensures !IsBusinessTime(c, u)
    {
      forall k | 0 <= k < |segs|
        ensures !Contains(segs[k], u)
      {
        if k < n {
          assert segs[k].end < segs[n].start;
        }
      }
      OutsideSegments(c, u);
    }
  }

  /** The days strictly between `lo` and `hi` are not business days, so hold no business time. */
  lemma NoBusinessTimeBetweenDays(c: Config, lo: int, hi: int, u: int)
    requires forall k :: lo < k < hi ==> !IsBusinessDay(c, k)
    requires lo < DayOf(u) < hi
    ensures !IsBusinessTime(c, u)
  {
  }

  /** Snapping to the next business day: the first start there, with no business time in between. */
  lemma NextDayStartSpec(c: Config, t: int)
    requires ValidConfig(c)
    requires forall u :: t <= u && DayOf(u) == DayOf(t) ==> !IsBusinessTime(c, u)
    ensures var r := FirstStart(c, NextBusinessDayAfter(c, DayOf(t)));
      && t < r
      && CurrentSegment(c, r).Some? && CurrentSegment(c, r).value.start == r
      && forall u :: t <= u < r ==> !IsBusinessTime(c, u)
  {
    var d := DayOf(t);
    var n := NextBusinessDayAfter(c, d);
    var r := FirstStart(c, n);
    FirstStartSpec(c, n);
    SegmentsShape(c, n);
    DayOfBounds(t);
    DayOfBounds(r);
    forall u | t <= u < r
      ensures !IsBusinessTime(c, u)
    {
      DayOfBounds(u);
      if DayOf(u) == d {
      } else if DayOf(u) < n {
        NoBusinessTimeBetweenDays(c, d, n, u);
      }
    }
  }

  /** Snapping to the previous business day: its last end, with no business time in between. */
  lemma PrevDayEndSpec(c: Config, t: int)
    requires ValidConfig(c)
    requires forall u :: u <= t && DayOf(u) == DayOf(t) ==> !IsBusinessTime(c, u)
    ensures var r := LastEnd(c, PrevBusinessDayBefore(c, DayOf(t)));
      && r < t
      && CurrentSegment(c, r).Some? && CurrentSegment(c, r).value.end == r
      && forall u :: r < u <= t ==> !IsBusinessTime(c, u)
  {
    var d := DayOf(t);
    var p := PrevBusinessDayBefore(c, d);
    var r := LastEnd(c, p);
    LastEndSpec(c, p);
    SegmentsShape(c, p);
    DayOfBounds(t);
    DayOfBounds(r);
    forall u | r < u <= t
      ensures !IsBusinessTime(c, u)
    {
      DayOfBounds(u);
      if DayOf(u) == d {
      } else if DayOf(u) > p {
        NoBusinessTimeBetweenDays(c, p, d, u);
      }
    }
  }

  /** An instant inside day `d` of a business day lies on that day. */
  lemma SameBusinessDay(c: Config, d: int, u: int)
    requires ValidConfig(c)
    requires IsBusinessDay(c, d)
    requires DayStart(d) <= u < DayStart(d) + DayMs
    ensures DayOf(u) == d
  {
    DayOfWithin(d, u - DayStart(d));
  }

  /** `t` before segment `i`, every earlier segment over: that segment's start is the next business instant. */
  lemma BeforeSegmentStart(c: Config, t: int, segs: seq<Segment>, i: int)
    requires ValidConfig(c)
    requires IsBusinessDay(c, DayOf(t))
    requires segs == BusinessTimeSegments(c, DayOf(t)).value
    requires 0 <= i < |segs|
    requires forall k :: 0 <= k < i ==> segs[k].end < t
    requires t < segs[i].start
    ensures CurrentSegment(c, segs[i].start) == Some(segs[i])
    ensures forall u :: t <= u < segs[i].start ==> !IsBusinessTime(c, u)
  {
    var d := DayOf(t);
    var r := segs[i].start;
    SegmentWithinDay(c, d, i);
    DayOfBounds(t);
    SameBusinessDay(c, d, r);
    CurrentSegmentOf(c, r, i);
    forall u | t <= u < r
      ensures !IsBusinessTime(c, u)
    {
      SameBusinessDay(c, d, u);
      forall k | 0 <= k < |segs|
        ensures !Contains(segs[k], u)
      {
        if k > i {
          SegmentsInOrder(c, d, i, k);
        }
      }
      OutsideSegments(c, u);
    }
  }

  /** `t` after the end of every segment of its day: nothing from `t` to midnight is business time. */
  lemma AfterLastSegment(c: Config, t: int, segs: seq<Segment>)
    requires ValidConfig(c)
    requires IsBusinessDay(c, DayOf(t))
    requires segs == BusinessTimeSegments(c, DayOf(t)).value
    requires forall k :: 0 <= k < |segs| ==> segs[k].end < t
    ensures forall u :: t <= u && DayOf(u) == DayOf(t) ==> !IsBusinessTime(c, u)
  {
    forall u | t <= u && DayOf(u) == DayOf(t)
      ensures !IsBusinessTime(c, u)
    {
      OutsideSegments(c, u);
    }
  }

  /**
   * The forward scan from segment `i`, every earlier segment being already over:
   * the least business instant at or after `t`.
   */
  lemma {:induction false} ScanForwardSpec(c: Config, t: int, segs: seq<Segment>, i: int)
    requires ValidConfig(c)
    requires IsBusinessDay(c, DayOf(t))
    requires segs == BusinessTimeSegments(c, DayOf(t)).value
    requires 0 <= i < |segs|
    requires forall k :: 0 <= k < i ==> segs[k].end < t
    ensures var r := ScanForward(c, t, segs, i);
      && t <= r
      && CurrentSegment(c, r).Some?
      && (r != t ==> CurrentSegment(c, r).value.start == r)
      && forall u :: t <= u < r ==> !IsBusinessTime(c, u)
    decreases |segs| - i
  {
    if t < segs[i].start {
      BeforeSegmentStart(c, t, segs, i);
    } else if t > segs[i].end {
      if i == |segs| - 1 {
        AfterLastSegment(c, t, segs);
        NextDayStartSpec(c, t);
      } else {
        ScanForwardSpec(c, t, segs, i + 1);
      }
    } else {
      CurrentSegmentOf(c, t, i);
    }
  }

  /** `t` after segment `j`, every later segment ahead: that segment's end is the last business instant. */
  lemma AfterSegmentEnd(c: Config, t: int, segs: seq<Segment>, j: int)
    requires ValidConfig(c)
    requires IsBusinessDay(c, DayOf(t))
    requires segs == BusinessTimeSegments(c, DayOf(t)).value
    requires 0 <= j < |segs|
    requires forall k :: j < k < |segs| ==> t < segs[k].start
    requires t > segs[j].end
    ensures CurrentSegment(c, segs[j].end) == Some(segs[j])
    ensures forall u :: segs[j].end < u <= t ==> !IsBusinessTime(c, u)
  {
    var d := DayOf(t);
    var r := segs[j].end;
    SegmentWithinDay(c, d, j);
    DayOfBounds(t);
    SameBusinessDay(c, d, r);
    CurrentSegmentOf(c, r, j);
    forall u | r < u <= t
      ensures !IsBusinessTime(c, u)
    {
      SameBusinessDay(c, d, u);
      forall k | 0 <= k < |segs|
        ensures !Contains(segs[k], u)
      {
        if k < j {
          SegmentsInOrder(c, d, k, j);
        }
      }
      OutsideSegments(c, u);
    }
  }

  /** `t` before the start of every segment of its day: nothing from midnight to `t` is business time. */
  lemma BeforeFirstSegment(c: Config, t: int, segs: seq<Segment>)
    requires ValidConfig(c)
    requires IsBusinessDay(c, DayOf(t))
    requires segs == BusinessTimeSegments(c, DayOf(t)).value
    requires forall k :: 0 <= k < |segs| ==> t < segs[k].start
    ensures forall u :: u <= t && DayOf(u) == DayOf(t) ==> !IsBusinessTime(c, u)
  {
    forall u | u <= t && DayOf(u) == DayOf(t)
      ensures !IsBusinessTime(c, u)
    {
      OutsideSegments(c, u);
    }
  }

  /**
   * The backward scan from segment `j`, every later segment being still ahead:
   * the greatest business instant at or before `t`.
   */
  lemma {:induction false} ScanBackwardSpec(c: Config, t: int, segs: seq<Segment>, j: int)
    requires ValidConfig(c)
    requires IsBusinessDay(c, DayOf(t))
    requires segs == BusinessTimeSegments(c, DayOf(t)).value
    requires 0 <= j < |segs|
    requires forall k :: j < k < |segs| ==> t < segs[k].start
    ensures var r := ScanBackward(c, t, segs, j);
      && r <= t
      && CurrentSegment(c, r).Some?
      && (r != t ==> CurrentSegment(c, r).value.end == r)
      && forall u :: r < u <= t ==> !IsBusinessTime(c, u)
    decreases j
  {
    if t > segs[j].end {
      AfterSegmentEnd(c, t, segs, j);
    } else if t < segs[j].start {
      if j == 0 {
        BeforeFirstSegment(c, t, segs);
        PrevDayEndSpec(c, t);
      } else {
        ScanBackwardSpec(c, t, segs, j - 1);
      }
    } else {
      CurrentSegmentOf(c, t, j);
    }
  }

  /**
   * `nextBusinessTime` returns the least business instant at or after `t`: `t`
   * itself during business time, otherwise the start of the next segment.
   */
  lemma NextBusinessInstantSpec(c: Config, t: int)
    requires ValidConfig(c)
    ensures var r := NextBusinessInstant(c, t);
      && t <= r
      && IsBusinessTime(c, r)
      && (forall u :: t <= u < r ==> !IsBusinessTime(c, u))
      && (IsBusinessTime(c, t) ==> r == t)
      && (!IsBusinessTime(c, t) ==> CurrentSegment(c, r).value.start == r)
  {
    var d := DayOf(t);
    SegmentsExist(c, d);
    if !IsBusinessDay(c, d) {
      NextDayStartSpec(c, t);
    } else {
      ScanForwardSpec(c, t, BusinessTimeSegments(c, d).value, 0);
    }
  }

  /**
   * `lastBusinessTime` returns the greatest business instant at or before `t`:
   * `t` itself during business time, otherwise the end of the previous segment.
   */
  lemma LastBusinessInstantSpec(c: Config, t: int)
    requires ValidConfig(c)
    ensures var r := LastBusinessInstant(c, t);
      && r <= t
      && IsBusinessTime(c, r)
      && (forall u :: r < u <= t ==> !IsBusinessTime(c, u))
      && (IsBusinessTime(c, t) ==> r == t)
      && (!IsBusinessTime(c, t) ==> CurrentSegment(c, r).value.end == r)
  {
    var d := DayOf(t);
    SegmentsExist(c, d);
    if !IsBusinessDay(c, d) {
      PrevDayEndSpec(c, t);
    } else {
      var segs := BusinessTimeSegments(c, d).value;
      ScanBackwardSpec(c, t, segs, |segs| - 1);
    }
  }

  /** Snapping forward is idempotent, and no business instant at or after `t` comes before it. */
  lemma NextBusinessInstantLeast(c: Config, t: int, u: int)
    requires ValidConfig(c)
    ensures NextBusinessInstant(c, NextBusinessInstant(c, t)) == NextBusinessInstant(c, t)
    ensures t <= u && IsBusinessTime(c, u) ==> NextBusinessInstant(c, t) <= u
  {
    NextBusinessInstantSpec(c, t);
    NextBusinessInstantSpec(c, NextBusinessInstant(c, t));
  }

  /** Snapping backward is idempotent, and no business instant at or before `t` comes after it. */
  lemma LastBusinessInstantGreatest(c: Config, t: int, u: int)
    requires ValidConfig(c)
    ensures LastBusinessInstant(c, LastBusinessInstant(c, t)) == LastBusinessInstant(c, t)
    ensures u <= t && IsBusinessTime(c, u) ==> u <= LastBusinessInstant(c, t)
  {
    LastBusinessInstantSpec(c, t);
    LastBusinessInstantSpec(c, LastBusinessInstant(c, t));
  }

  /** `getBusinessTimeSegments(nextBusinessDay(date))[0].start`. */
  method NextDayFirstStart(c: Config, date: int) returns (r: int)
    requires ValidConfig(c)
    ensures r == FirstStart(c, NextBusinessDayAfter(c, DayOf(date)))
  {
    var nextBusinessDay := AddOrSubtractBusinessDays(c, date, 1, Add);
    OneBusinessDayStep(c, date, Add);
    SegmentsExist(c, DayOf(nextBusinessDay));
    var nextSegments := GetBusinessTimeSegments(c, DayOf(nextBusinessDay));
    return nextSegments.value[0].start;
  }

  /** `getBusinessTimeSegments(lastBusinessDay(date)).pop().end`. */
  method LastDayLastEnd(c: Config, date: int) returns (r: int)
    requires ValidConfig(c)
    ensures r == LastEnd(c, PrevBusinessDayBefore(c, DayOf(date)))
  {
    var lastBusinessDay := AddOrSubtractBusinessDays(c, date, 1, Subtract);
    OneBusinessDayStep(c, date, Subtract);
    SegmentsExist(c, DayOf(lastBusinessDay));
    var lastSegments := GetBusinessTimeSegments(c, DayOf(lastBusinessDay));
    return lastSegments.value[|lastSegments.value| - 1].end;
  }

  /** `nextBusinessTime`: the segment scan, falling through to the next business day. */
  method NextBusinessTime(c: Config, date: int) returns (r: int)
    requires ValidConfig(c)
    ensures r == NextBusinessInstant(c, date)
  {
    if !IsBusinessDay(c, DayOf(date)) {
      r := NextDayFirstStart(c, date);
      return;
    }
    SegmentsExist(c, DayOf(date));
    var found := GetBusinessTimeSegments(c, DayOf(date));
    var segments := found.value;
    for index := 0 to |segments|
      invariant index < |segments|
      invariant ScanForward(c, date, segments, index) == NextBusinessInstant(c, date)
    {
      var isLastSegment := index == |segments| - 1;
      if date < segments[index].start {
        return segments[index].start;
      }
      if date > segments[index].end {
        if !isLastSegment {
          continue;
        }
        r := NextDayFirstStart(c, date);
        return;
      }
      return date;
    }
    assert false;
  }

  /** `Array.prototype.reverse`: the same segments, last first. */
  function Reversed(segs: seq<Segment>): (r: seq<Segment>)
    ensures |r| == |segs|
    ensures forall i :: 0 <= i < |r| ==> r[i] == segs[|segs| - 1 - i]
  {
    seq(|segs|, i requires 0 <= i < |segs| => segs[|segs| - 1 - i])
  }

  /** Reversing a non-empty list puts its first segment last. */
  lemma ReversedFirstLast(segs: seq<Segment>)
    requires |segs| > 0
    ensures Reversed(segs) == Reversed(segs[1..]) + [segs[0]]
  {
    var r := Reversed(segs[1..]) + [segs[0]];
    assert |r| == |segs|;
    forall i | 0 <= i < |segs|
      ensures Reversed(segs)[i] == r[i]
    {
      if i < |segs| - 1 {
        assert r[i] == Reversed(segs[1..])[i] == segs[1..][|segs| - 2 - i];
      }
    }
  }

  /** Reversing twice gives the segments back. */
  lemma ReversedTwice(segs: seq<Segment>)
    ensures Reversed(Reversed(segs)) == segs
  {
    assert forall i :: 0 <= i < |segs| ==> Reversed(Reversed(segs))[i] == segs[i];
  }

  /** Reversing keeps every segment exactly as often: the result is a permutation. */
  lemma {:induction false} ReversedPermutes(segs: seq<Segment>)
    ensures multiset(Reversed(segs)) == multiset(segs)
    decreases |segs|
  {
    if |segs| > 0 {
      ReversedPermutes(segs[1..]);
      ReversedFirstLast(segs);
      assert segs == [segs[0]] + segs[1..];
    }
  }

  /** `lastBusinessTime`: the scan over the reversed segments, falling back to the previous business day. */
  method LastBusinessTime(c: Config, date: int) returns (r: int)
    requires ValidConfig(c)
    ensures r == LastBusinessInstant(c, date)
  {
    if !IsBusinessDay(c, DayOf(date)) {
      r := LastDayLastEnd(c, date);
      return;
    }
    SegmentsExist(c, DayOf(date));
    var found := GetBusinessTimeSegments(c, DayOf(date));
    var segments := Reversed(found.value);
    var n := |segments|;
    for index := 0 to n
      invariant index < n
      invariant ScanBackward(c, date, found.value, n - 1 - index) == LastBusinessInstant(c, date)
    {
      var segment := segments[index];
      var isFirstSegment := index == n - 1;
      if date > segment.end {
        return segment.end;
      }
      if date < segment.start {
        if !isFirstSegment {
          continue;
        }
        r := LastDayLastEnd(c, date);
        return;
      }
      return date;
    }
    assert false;
  }
}
