/**
 * The minute walker `addOrSubtractBusinessMinutes`, and the hour operations
 * built on it.
 */
module MinuteWalker {
  import opened Wrappers
  import opened Calendar
  import opened DayClassifier
  import opened SegmentResolver
  import opened DayWalker
  import opened TimeLocator

  /** The snap the walker starts from and re-snaps with: `nextBusinessTime` to add, `lastBusinessTime` to subtract. */
  function Snap(c: Config, dir: Direction, t: int): int
    requires ValidConfig(c)
  {
    if dir == Add then NextBusinessInstant(c, t) else LastBusinessInstant(c, t)
  }

  /** `newDate[action](k, 'minute')`. */
  function Move(t: int, dir: Direction, k: int): int {
    if dir == Add then t + k * MinuteMs else t - k * MinuteMs
  }

  /** The time from `t` to the segment boundary in the walking direction. */
  function Tail(dir: Direction, s: Segment, t: int): int {
    if dir == Add then s.end - t else t - s.start
  }

  /** `compareBaseDate.diff(compareDate, 'minute')`: whole minutes to the boundary, truncated. */
  function MinutesLeft(dir: Direction, s: Segment, t: int): int {
    if dir == Add then MinuteDiff(s.end, t) else MinuteDiff(t, s.start)
  }

  /**
   * Progress of the walker while the count stays put: 0 with at least a minute
   * left in the segment, 1 outside business time, and above that within the
   * last minute of a segment, less the closer the boundary.
   */
  function Rank(c: Config, dir: Direction, t: int): nat {
    match CurrentSegment(c, t)
    case None => 1
    case Some(s) => if Tail(dir, s, t) >= MinuteMs then 0 else 2 + (MinuteMs - Tail(dir, s, t))
  }

  /** Inside a segment the truncated minutes left are the tail in whole minutes. */
  lemma MinutesLeftOf(dir: Direction, s: Segment, t: int)
    requires Contains(s, t)
    ensures MinutesLeft(dir, s, t) == Tail(dir, s, t) / MinuteMs >= 0
    ensures MinutesLeft(dir, s, t) * MinuteMs <= Tail(dir, s, t) < (MinutesLeft(dir, s, t) + 1) * MinuteMs
  {
  }

  /** Every current segment lasts at least a minute. */
  lemma CurrentSegmentLength(c: Config, t: int)
    requires ValidConfig(c)
    requires IsBusinessTime(c, t)
    ensures CurrentSegment(c, t).value.start + MinuteMs <= CurrentSegment(c, t).value.end
  {
    var d := DayOf(t);
    SegmentsShape(c, d);
    CurrentSegmentIn(c, t);
    var segs := BusinessTimeSegments(c, d).value;
    var i :| 0 <= i < |segs| && segs[i] == CurrentSegment(c, t).value;
  }

  /** Snapping lands on the boundary of a segment, a full minute away from its other end. */
  lemma SnapRank(c: Config, dir: Direction, t: int)
    requires ValidConfig(c)
    requires !IsBusinessTime(c, t)
    ensures IsBusinessTime(c, Snap(c, dir, t))
    ensures Rank(c, dir, Snap(c, dir, t)) == 0
  {
    NextBusinessInstantSpec(c, t);
    LastBusinessInstantSpec(c, t);
    CurrentSegmentLength(c, Snap(c, dir, t));
  }

  /** An instant of the current segment of `t` has that same current segment. */
  lemma SameSegment(c: Config, t: int, u: int)
    requires ValidConfig(c)
    requires IsBusinessTime(c, t)
    requires Contains(CurrentSegment(c, t).value, u)
    ensures CurrentSegment(c, u) == CurrentSegment(c, t)
  {
    var d := DayOf(t);
    CurrentSegmentIn(c, t);
    var segs := BusinessTimeSegments(c, d).value;
    var i :| 0 <= i < |segs| && segs[i] == CurrentSegment(c, t).value;
    SegmentWithinDay(c, d, i);
    DayOfWithin(d, u - DayStart(d));
    assert DayOf(u) == d;
    CurrentSegmentOf(c, u, i);
  }

  /** Day numbers do not decrease along the timeline. */
  lemma DayOfMonotone(a: int, b: int)
    requires a <= b
    ensures DayOf(a) <= DayOf(b)
  {
    DayOfBounds(a);
    DayOfBounds(b);
  }

  /** `u`'s segment lies after `t`'s when `u`'s day does not come before `t`'s and `u` is past `t`'s segment. */
  lemma {:induction false} LaterSegment(c: Config, t: int, u: int)
    requires ValidConfig(c)
    requires IsBusinessTime(c, t) && IsBusinessTime(c, u)
    requires DayOf(t) <= DayOf(u)
    requires u > CurrentSegment(c, t).value.end
    ensures CurrentSegment(c, u).value.start > CurrentSegment(c, t).value.end
  {
    var s := CurrentSegment(c, t).value;
    var s' := CurrentSegment(c, u).value;
    var d, e := DayOf(t), DayOf(u);
    CurrentSegmentIn(c, t);
    CurrentSegmentIn(c, u);
    var segs := BusinessTimeSegments(c, d).value;
    var segs' := BusinessTimeSegments(c, e).value;
    var i :| 0 <= i < |segs| && segs[i] == s;
    var j :| 0 <= j < |segs'| && segs'[j] == s';
    SegmentWithinDay(c, d, i);
    SegmentWithinDay(c, e, j);
    if e == d {
      if j < i {
        SegmentsInOrder(c, d, j, i);
        assert false;
      }
      if j == i {
        assert false;
      }
      SegmentsInOrder(c, d, i, j);
    } else {
      assert e >= d + 1;
      assert DayStart(d) + DayMs == DayStart(d + 1) <= DayStart(e);
    }
  }

  /** `u`'s segment lies before `t`'s when `u`'s day does not come after `t`'s and `u` is before `t`'s segment. */
  lemma {:induction false} EarlierSegment(c: Config, t: int, u: int)
    requires ValidConfig(c)
    requires IsBusinessTime(c, t) && IsBusinessTime(c, u)
    requires DayOf(u) <= DayOf(t)
    requires u < CurrentSegment(c, t).value.start
    ensures CurrentSegment(c, u).value.end < CurrentSegment(c, t).value.start
  {
    var s := CurrentSegment(c, t).value;
    var s' := CurrentSegment(c, u).value;
    var d, e := DayOf(t), DayOf(u);
    CurrentSegmentIn(c, t);
    CurrentSegmentIn(c, u);
    var segs := BusinessTimeSegments(c, d).value;
    var segs' := BusinessTimeSegments(c, e).value;
    var i :| 0 <= i < |segs| && segs[i] == s;
    var j :| 0 <= j < |segs'| && segs'[j] == s';
    SegmentWithinDay(c, d, i);
    SegmentWithinDay(c, e, j);
    if e == d {
      if i < j {
        SegmentsInOrder(c, d, i, j);
        assert false;
      }
      if j == i {
        assert false;
      }
      SegmentsInOrder(c, d, j, i);
    } else {
      assert d >= e + 1;
      assert DayStart(e) + DayMs == DayStart(e + 1) <= DayStart(d);
    }
  }

  /**
   * Segments are ordered along the whole timeline: business time after the end of
   * a segment lies in a segment that starts later, and before its start in one
   * that ends earlier.
   */
  lemma SegmentsOrderedOnTimeline(c: Config, t: int, u: int)
    requires ValidConfig(c)
    requires IsBusinessTime(c, t) && IsBusinessTime(c, u)
    ensures u > CurrentSegment(c, t).value.end ==> CurrentSegment(c, u).value.start > CurrentSegment(c, t).value.end
    ensures u < CurrentSegment(c, t).value.start ==> CurrentSegment(c, u).value.end < CurrentSegment(c, t).value.start
  {
    CurrentSegmentIn(c, t);
    if u > CurrentSegment(c, t).value.end {
      DayOfMonotone(t, u);
      LaterSegment(c, t, u);
    }
    if u < CurrentSegment(c, t).value.start {
      DayOfMonotone(u, t);
      EarlierSegment(c, t, u);
    }
  }

  /**
   * The forced one-minute step out of the last minute of a segment makes progress:
   * it leaves business time, or lands further inside a later segment.
   */
  lemma ForcedStepRank(c: Config, dir: Direction, t: int)
    requires ValidConfig(c)
    requires IsBusinessTime(c, t)
    requires MinutesLeft(dir, CurrentSegment(c, t).value, t) == 0
    ensures Rank(c, dir, Move(t, dir, 1)) < Rank(c, dir, t)
  {
    var s := CurrentSegment(c, t).value;
    var u := Move(t, dir, 1);
    CurrentSegmentIn(c, t);
    MinutesLeftOf(dir, s, t);
    if IsBusinessTime(c, u) {
      SegmentsOrderedOnTimeline(c, t, u);
      CurrentSegmentLength(c, u);
      CurrentSegmentIn(c, u);
    }
  }

  /** The walker's state between iterations: the instant reached and the minutes still to walk. */
  datatype Cursor = Cursor(at: int, left: nat)

  /**
   * One iteration of the loop of `addOrSubtractBusinessMinutes`. Off business
   * time it re-snaps; in a segment it jumps the whole minutes left, at most `n`,
   * and takes them off the count; when none are left but the count is not used
   * up it steps one minute without counting it.
   */
  function Advance(c: Config, dir: Direction, t: int, n: nat): Cursor
    requires ValidConfig(c)
  {
    match CurrentSegment(c, t)
    case None => Cursor(Snap(c, dir, t), n)
    case Some(s) =>
      CurrentSegmentIn(c, t);
      MinutesLeftOf(dir, s, t);
      var timeToJump := if MinutesLeft(dir, s, t) > n then n else MinutesLeft(dir, s, t);
      var rest := n - timeToJump;
      if timeToJump == 0 && rest != 0 then Cursor(Move(t, dir, 1), rest)
      else Cursor(Move(t, dir, timeToJump), rest)
  }

  /**
   * Every iteration uses up minutes or, keeping the count, makes progress
   * towards the next counted jump.
   */
  lemma AdvanceProgress(c: Config, dir: Direction, t: int, n: nat)
    requires ValidConfig(c)
    requires n > 0
    ensures Advance(c, dir, t, n).left < n || Rank(c, dir, Advance(c, dir, t, n).at) < Rank(c, dir, t)
    ensures Advance(c, dir, t, n).left <= n
  {
    match CurrentSegment(c, t)
    case None =>
      SnapRank(c, dir, t);
    case Some(s) =>
      CurrentSegmentIn(c, t);
      MinutesLeftOf(dir, s, t);
      if MinutesLeft(dir, s, t) == 0 {
        ForcedStepRank(c, dir, t);
      }
  }

  /** The loop of `addOrSubtractBusinessMinutes` from cursor `t` with `n` minutes still to walk. */
  function Walk(c: Config, dir: Direction, t: int, n: nat): int
    requires ValidConfig(c)
    decreases n, Rank(c, dir, t)
  {
    if n == 0 then t
    else
      var r := Advance(c, dir, t, n);
      AdvanceProgress(c, dir, t, n);
      Walk(c, dir, r.at, r.left)
  }

  /** What `addOrSubtractBusinessMinutes(date, n, dir)` returns. */
  function MinutesWalked(c: Config, t: int, n: nat, dir: Direction): int
    requires ValidConfig(c)
  {
    Walk(c, dir, Snap(c, dir, t), n)
  }

  /** `addOrSubtractBusinessMinutes`. */
  method AddOrSubtractBusinessMinutes(c: Config, date: int, numberOfMinutes: nat, action: Direction) returns (newDate: int)
    requires ValidConfig(c)
    ensures newDate == MinutesWalked(c, date, numberOfMinutes, action)
  {
    if action == Add {
      newDate := NextBusinessTime(c, date);
    } else {
      newDate := LastBusinessTime(c, date);
    }
    var minutes: nat := numberOfMinutes;
    while minutes != 0
      invariant Walk(c, action, newDate, minutes) == MinutesWalked(c, date, numberOfMinutes, action)
      decreases minutes, Rank(c, action, newDate)
    {
      AdvanceProgress(c, action, newDate, minutes);
      ghost var next := Advance(c, action, newDate, minutes);
      var segment := CurrentSegment(c, newDate);
      if segment.None? {
        if action == Add {
          newDate := NextBusinessTime(c, newDate);
        } else {
          newDate := LastBusinessTime(c, newDate);
        }
        assert newDate == next.at && minutes == next.left;
        continue;
      }
      CurrentSegmentIn(c, newDate);
      MinutesLeftOf(action, segment.value, newDate);
      var timeToJump := MinutesLeft(action, segment.value, newDate);
      if timeToJump > minutes {
        timeToJump := minutes;
      }
      minutes := minutes - timeToJump;
      if timeToJump == 0 && minutes != 0 {
        timeToJump := 1;
      }
      newDate := Move(newDate, action, timeToJump);
      assert newDate == next.at && minutes == next.left;
    }
  }

  /** Snapping lands on business time and leaves business time where it is. */
  lemma SnapSpec(c: Config, dir: Direction, t: int)
    requires ValidConfig(c)
    ensures IsBusinessTime(c, Snap(c, dir, t))
    ensures IsBusinessTime(c, t) ==> Snap(c, dir, t) == t
    ensures dir == Add ==> t <= Snap(c, dir, t)
    ensures dir == Subtract ==> Snap(c, dir, t) <= t
  {
    NextBusinessInstantSpec(c, t);
    LastBusinessInstantSpec(c, t);
  }

  /** Jumping `k` of the whole minutes left stays in the segment, leaving `k` fewer. */
  lemma MinutesLeftAfterMove(dir: Direction, s: Segment, t: int, k: int)
    requires Contains(s, t)
    requires 0 <= k <= MinutesLeft(dir, s, t)
    ensures Contains(s, Move(t, dir, k))
    ensures MinutesLeft(dir, s, Move(t, dir, k)) == MinutesLeft(dir, s, t) - k
  {
    MinutesLeftOf(dir, s, t);
    var q := MinutesLeft(dir, s, t);
    var u := Move(t, dir, k);
    assert Tail(dir, s, u) == Tail(dir, s, t) - k * MinuteMs;
    assert (q - k) * MinuteMs <= Tail(dir, s, u) < (q - k + 1) * MinuteMs;
    MinutesLeftOf(dir, s, u);
  }

  /**
   * An iteration moves in the walking direction, and one that uses up the count
   * stops on business time.
   */
  lemma AdvanceSpec(c: Config, dir: Direction, t: int, n: nat)
    requires ValidConfig(c)
    requires n > 0
    ensures Advance(c, dir, t, n).left == 0 ==> IsBusinessTime(c, Advance(c, dir, t, n).at)
    ensures dir == Add ==> t <= Advance(c, dir, t, n).at
    ensures dir == Subtract ==> Advance(c, dir, t, n).at <= t
  {
    match CurrentSegment(c, t)
    case None =>
      SnapSpec(c, dir, t);
    case Some(s) =>
      CurrentSegmentIn(c, t);
      MinutesLeftOf(dir, s, t);
      var timeToJump := if MinutesLeft(dir, s, t) > n then n else MinutesLeft(dir, s, t);
      if n - timeToJump == 0 {
        MinutesLeftAfterMove(dir, s, t, timeToJump);
        SameSegment(c, t, Move(t, dir, timeToJump));
      }
  }

  /** The walk ends on business time, unless it has nothing to walk and starts off it. */
  lemma {:induction false} WalkIsBusinessTime(c: Config, dir: Direction, t: int, n: nat)
    requires ValidConfig(c)
    requires n == 0 ==> IsBusinessTime(c, t)
    ensures IsBusinessTime(c, Walk(c, dir, t, n))
    decreases n, Rank(c, dir, t)
  {
    if n > 0 {
      var r := Advance(c, dir, t, n);
      AdvanceProgress(c, dir, t, n);
      AdvanceSpec(c, dir, t, n);
      WalkIsBusinessTime(c, dir, r.at, r.left);
    }
  }

  /** Adding never moves the cursor back, subtracting never forward. */
  lemma {:induction false} WalkDirection(c: Config, dir: Direction, t: int, n: nat)
    requires ValidConfig(c)
    ensures dir == Add ==> t <= Walk(c, dir, t, n)
    ensures dir == Subtract ==> Walk(c, dir, t, n) <= t
    decreases n, Rank(c, dir, t)
  {
    if n > 0 {
      var r := Advance(c, dir, t, n);
      AdvanceProgress(c, dir, t, n);
      AdvanceSpec(c, dir, t, n);
      WalkDirection(c, dir, r.at, r.left);
    }
  }

  /**
   * `addOrSubtractBusinessMinutes` ends on business time; with 0 minutes it is the
   * snap of the input; adding ends at or after the input, subtracting at or before.
   */
  lemma MinutesWalkedSpec(c: Config, t: int, n: nat, dir: Direction)
    requires ValidConfig(c)
    ensures IsBusinessTime(c, MinutesWalked(c, t, n, dir))
    ensures n == 0 ==> MinutesWalked(c, t, n, dir) == Snap(c, dir, t)
    ensures dir == Add ==> t <= MinutesWalked(c, t, n, dir)
    ensures dir == Subtract ==> MinutesWalked(c, t, n, dir) <= t
  {
    SnapSpec(c, dir, t);
    WalkIsBusinessTime(c, dir, Snap(c, dir, t), n);
    WalkDirection(c, dir, Snap(c, dir, t), n);
  }

  /**
   * With `n` whole minutes left in the current segment, walking `n` business
   * minutes moves the instant by exactly `n` minutes.
   */
  lemma MinutesWalkedWithinSegment(c: Config, t: int, n: nat, dir: Direction)
    requires ValidConfig(c)
    requires IsBusinessTime(c, t)
    requires n * MinuteMs <= Tail(dir, CurrentSegment(c, t).value, t)
    ensures MinutesWalked(c, t, n, dir) == Move(t, dir, n)
  {
    SnapSpec(c, dir, t);
    assert MinutesWalked(c, t, n, dir) == Walk(c, dir, t, n);
    if n > 0 {
      var s := CurrentSegment(c, t).value;
      CurrentSegmentIn(c, t);
      MinutesLeftOf(dir, s, t);
      assert n <= MinutesLeft(dir, s, t);
      assert Advance(c, dir, t, n) == Cursor(Move(t, dir, n), 0);
      AdvanceProgress(c, dir, t, n);
      assert Walk(c, dir, t, n) == Walk(c, dir, Move(t, dir, n), 0);
    }
  }

  /**
   * Adding `n` business minutes that fit in the current segment and then
   * subtracting them again returns to the start.
   */
  lemma MinutesWalkedRoundTrip(c: Config, t: int, n: nat)
    requires ValidConfig(c)
    requires IsBusinessTime(c, t)
    requires n * MinuteMs <= Tail(Add, CurrentSegment(c, t).value, t)
    ensures MinutesWalked(c, MinutesWalked(c, t, n, Add), n, Subtract) == t
  {
    var s := CurrentSegment(c, t).value;
    var u := Move(t, Add, n);
    MinutesWalkedWithinSegment(c, t, n, Add);
    CurrentSegmentIn(c, t);
    assert Contains(s, u);
    SameSegment(c, t, u);
    assert IsBusinessTime(c, u) && CurrentSegment(c, u).value == s;
    assert n * MinuteMs <= Tail(Subtract, s, u);
    MinutesWalkedWithinSegment(c, u, n, Subtract);
    assert Move(u, Subtract, n) == t;
  }

  /**
   * Subtracting `n` business minutes that fit in the current segment and then
   * adding them again returns to the start.
   */
  lemma MinutesWalkedRoundTripBack(c: Config, t: int, n: nat)
    requires ValidConfig(c)
    requires IsBusinessTime(c, t)
    requires n * MinuteMs <= Tail(Subtract, CurrentSegment(c, t).value, t)
    ensures MinutesWalked(c, MinutesWalked(c, t, n, Subtract), n, Add) == t
  {
    var s := CurrentSegment(c, t).value;
    var u := Move(t, Subtract, n);
    MinutesWalkedWithinSegment(c, t, n, Subtract);
    CurrentSegmentIn(c, t);
    assert Contains(s, u);
    SameSegment(c, t, u);
    assert IsBusinessTime(c, u) && CurrentSegment(c, u).value == s;
    assert n * MinuteMs <= Tail(Add, s, u);
    MinutesWalkedWithinSegment(c, u, n, Add);
    assert Move(u, Add, n) == t;
  }

  /**
   * At less than a minute from the boundary the walker takes a one-minute step
   * that uses up none of the `n` minutes, and goes on from the snap of where it
   * lands.
   */
  lemma WalkAcrossBoundary(c: Config, dir: Direction, t: int, n: nat)
    requires ValidConfig(c)
    requires IsBusinessTime(c, t)
    requires Tail(dir, CurrentSegment(c, t).value, t) < MinuteMs
    requires n > 0
    ensures Advance(c, dir, t, n) == Cursor(Move(t, dir, 1), n)
    ensures Walk(c, dir, t, n) == Walk(c, dir, Snap(c, dir, Move(t, dir, 1)), n)
  {
    var s := CurrentSegment(c, t).value;
    CurrentSegmentIn(c, t);
    MinutesLeftOf(dir, s, t);
    var u := Move(t, dir, 1);
    assert Advance(c, dir, t, n) == Cursor(u, n);
    SnapSpec(c, dir, u);
    if !IsBusinessTime(c, u) {
      assert Advance(c, dir, u, n) == Cursor(Snap(c, dir, u), n);
    }
  }

  /**
   * Splitting the count: an iteration with `a + b` minutes to walk either does
   * what the iteration with `a` does and keeps the extra `b`, or, once `a` is used
   * up, is where the `a`-walk stops, with `b` left, or one iteration further on.
   */
  lemma AdvanceSplit(c: Config, dir: Direction, t: int, a: nat, b: nat)
    requires ValidConfig(c)
    requires a > 0
    ensures var q := Advance(c, dir, t, a);
      var r := Advance(c, dir, t, a + b);
      && (q.left > 0 ==> r == Cursor(q.at, q.left + b))
      && (q.left == 0 ==> r == Cursor(q.at, b) || (b > 0 && r == Advance(c, dir, q.at, b)))
  {
    match CurrentSegment(c, t)
    case None =>
    case Some(s) =>
      CurrentSegmentIn(c, t);
      MinutesLeftOf(dir, s, t);
      var k := MinutesLeft(dir, s, t);
      if k >= a && b > 0 {
        var m := Move(t, dir, a);
        MinutesLeftAfterMove(dir, s, t, a);
        SameSegment(c, t, m);
        var next := if k - a > b then b else k - a;
        if next != 0 {
          assert Move(m, dir, next) == Move(t, dir, a + next);
          assert Advance(c, dir, m, b) == Cursor(Move(m, dir, next), b - next);
        }
      }
  }

  /**
   * The first iteration of a walk of `a` minutes and of one of `a + b` minutes,
   * side by side: the `a + b` walk goes on from where the `a` walk does with `b`
   * more minutes, or, once the `a` walk is over, from where it stops with the
   * `b` minutes left.
   */
  lemma WalkSplitStep(c: Config, dir: Direction, t: int, a: nat, b: nat) returns (x: int, m: nat)
    requires ValidConfig(c)
    requires a > 0
    ensures m <= a
    ensures m < a || Rank(c, dir, x) < Rank(c, dir, t)
    ensures Walk(c, dir, t, a) == Walk(c, dir, x, m)
    ensures m > 0 ==> Walk(c, dir, t, a + b) == Walk(c, dir, x, m + b)
    ensures m == 0 ==> Walk(c, dir, t, a + b) == Walk(c, dir, x, b)
  {
    var q := Advance(c, dir, t, a);
    var r := Advance(c, dir, t, a + b);
    AdvanceProgress(c, dir, t, a);
    AdvanceProgress(c, dir, t, a + b);
    AdvanceSplit(c, dir, t, a, b);
    x, m := q.at, q.left;
    if m == 0 && r != Cursor(q.at, b) {
      AdvanceProgress(c, dir, q.at, b);
    }
  }

  /** Walking `a` minutes and then `b` more ends where walking `a + b` does. */
  lemma {:induction false} WalkAdditive(c: Config, dir: Direction, t: int, a: nat, b: nat)
    requires ValidConfig(c)
    ensures Walk(c, dir, t, a + b) == Walk(c, dir, Walk(c, dir, t, a), b)
    decreases a, Rank(c, dir, t)
  {
    if a > 0 {
      var x, m := WalkSplitStep(c, dir, t, a, b);
      if m > 0 {
        WalkAdditive(c, dir, x, m, b);
      }
    }
  }

  /**
   * Adding (or subtracting) `a` business minutes and then `b` more is adding (or
   * subtracting) `a + b` at once.
   */
  lemma MinutesWalkedAdditive(c: Config, t: int, a: nat, b: nat, dir: Direction)
    requires ValidConfig(c)
    ensures MinutesWalked(c, MinutesWalked(c, t, a, dir), b, dir) == MinutesWalked(c, t, a + b, dir)
  {
    var x := Snap(c, dir, t);
    SnapSpec(c, dir, t);
    WalkIsBusinessTime(c, dir, x, a);
    SnapSpec(c, dir, Walk(c, dir, x, a));
    WalkAdditive(c, dir, x, a, b);
  }

  /** `addBusinessHours` / `subtractBusinessHours`: the minute walk of `hours * 60` minutes. */
  function HoursWalked(c: Config, t: int, hours: nat, dir: Direction): int
    requires ValidConfig(c)
  {
    MinutesWalked(c, t, hours * 60, dir)
  }

  /**
   * Hours compose like minutes, and an hour walk inside one segment moves the
   * instant by exactly that many hours.
   */
  lemma HoursWalkedSpec(c: Config, t: int, a: nat, b: nat, dir: Direction)
    requires ValidConfig(c)
    ensures HoursWalked(c, HoursWalked(c, t, a, dir), b, dir) == HoursWalked(c, t, a + b, dir)
    ensures IsBusinessTime(c, t) && a * HourMs <= Tail(dir, CurrentSegment(c, t).value, t) ==>
      HoursWalked(c, t, a, dir) == (if dir == Add then t + a * HourMs else t - a * HourMs)
  {
    MinutesWalkedAdditive(c, t, a * 60, b * 60, dir);
    assert a * 60 + b * 60 == (a + b) * 60;
    if IsBusinessTime(c, t) && a * HourMs <= Tail(dir, CurrentSegment(c, t).value, t) {
      MinutesWalkedWithinSegment(c, t, a * 60, dir);
    }
  }
}
