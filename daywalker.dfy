/**
 * The day walker (`addOrsubtractBusinessDays` and `nextBusinessDay` /
 * `lastBusinessDay`): step the date one calendar day at a time, counting the
 * steps that land on a business day, until the requested number is reached.
 */
module DayWalker {
  import opened Calendar
  import opened DayClassifier

  /** An upper bound of the list that is at least `lo`. */
  function Above(s: seq<int>, lo: int): (r: int)
    ensures lo <= r
    ensures forall i :: 0 <= i < |s| ==> s[i] <= r
  {
    if s == [] then lo
    else
      var m := Above(s[1..], lo);
      assert forall i :: 1 <= i < |s| ==> s[i] == s[1..][i - 1];
      if s[0] > m then s[0] else m
  }

  /** A lower bound of the list that is at most `hi`. */
  function Below(s: seq<int>, hi: int): (r: int)
    ensures r <= hi
    ensures forall i :: 0 <= i < |s| ==> r <= s[i]
  {
    if s == [] then hi
    else
      var m := Below(s[1..], hi);
      assert forall i :: 1 <= i < |s| ==> s[i] == s[1..][i - 1];
      if s[0] < m then s[0] else m
  }

  /** Seven consecutive days contain every weekday. */
  lemma WeekdayWithin(lo: int, w: int)
    requires 0 <= w < 7
    ensures exists k :: lo < k <= lo + 7 && Weekday(k) == w
  {
    var j := (w - Weekday(lo + 1) + 7) % 7;
    var k := lo + 1 + j;
    var q := (lo + 5) / 7;
    assert lo + 5 == 7 * q + Weekday(lo + 1);
    assert k + 4 == 7 * q + Weekday(lo + 1) + j;
    assert (Weekday(lo + 1) + j) % 7 == w;
    assert Weekday(k) == w;
  }

  lemma BusinessDayAfter(c: Config, lo: int)
    requires ValidConfig(c)
    requires forall i :: 0 <= i < |c.holidays| ==> c.holidays[i] <= lo
    ensures exists k :: lo < k <= lo + 7 && IsBusinessDay(c, k)
  {
    var w :| 0 <= w < 7 && HoursOn(c.businessHours, w).Some?;
    WeekdayWithin(lo, w);
    var k :| lo < k <= lo + 7 && Weekday(k) == w;
    assert IsBusinessDay(c, k);
  }

  lemma BusinessDayBefore(c: Config, hi: int)
    requires ValidConfig(c)
    requires forall i :: 0 <= i < |c.holidays| ==> hi <= c.holidays[i]
    ensures exists k :: hi - 7 <= k < hi && IsBusinessDay(c, k)
  {
    var w :| 0 <= w < 7 && HoursOn(c.businessHours, w).Some?;
    WeekdayWithin(hi - 8, w);
    var k :| hi - 8 < k <= hi - 1 && Weekday(k) == w;
    assert IsBusinessDay(c, k);
  }

  /**
   * Some day is a business day exactly when some weekday works. Without a
   * working weekday the source's day loop never finds a day to count.
   */
  lemma BusinessDayExistsIff(c: Config)
    ensures (exists d :: IsBusinessDay(c, d)) <==> (exists w :: 0 <= w < 7 && HoursOn(c.businessHours, w).Some?)
  {
    if w :| 0 <= w < 7 && HoursOn(c.businessHours, w).Some? {
      var lo := Above(c.holidays, 0);
      WeekdayWithin(lo, w);
      var k :| lo < k <= lo + 7 && Weekday(k) == w;
      assert IsBusinessDay(c, k);
    }
    if d :| IsBusinessDay(c, d) {
      assert 0 <= Weekday(d) < 7 && HoursOn(c.businessHours, Weekday(d)).Some?;
    }
  }

  /** The first business day after `d` and not after `hi`. */
  function SearchForward(c: Config, d: int, hi: int): (r: int)
    requires exists k :: d < k <= hi && IsBusinessDay(c, k)
    ensures d < r <= hi && IsBusinessDay(c, r)
    ensures forall k :: d < k < r ==> !IsBusinessDay(c, k)
    decreases hi - d
  {
    if IsBusinessDay(c, d + 1) then d + 1 else SearchForward(c, d + 1, hi)
  }

  /** The last business day before `d` and not before `lo`. */
  function SearchBackward(c: Config, d: int, lo: int): (r: int)
    requires exists k :: lo <= k < d && IsBusinessDay(c, k)
    ensures lo <= r < d && IsBusinessDay(c, r)
    ensures forall k :: r < k < d ==> !IsBusinessDay(c, k)
    decreases d - lo
  {
    if IsBusinessDay(c, d - 1) then d - 1 else SearchBackward(c, d - 1, lo)
  }

  /**
   * The nearest business day after `d`. It exists because the holiday list is
   * finite and some weekday works: a week past the last holiday has one.
   */
  function NextBusinessDayAfter(c: Config, d: int): (r: int)
    requires ValidConfig(c)
    ensures d < r && IsBusinessDay(c, r)
    ensures forall k :: d < k < r ==> !IsBusinessDay(c, k)
  {
    var lo := Above(c.holidays, d);
    BusinessDayAfter(c, lo);
    SearchForward(c, d, lo + 7)
  }

  /** The nearest business day before `d`. */
  function PrevBusinessDayBefore(c: Config, d: int): (r: int)
    requires ValidConfig(c)
    ensures r < d && IsBusinessDay(c, r)
    ensures forall k :: r < k < d ==> !IsBusinessDay(c, k)
  {
    var hi := Below(c.holidays, d);
    BusinessDayBefore(c, hi);
    SearchBackward(c, d, hi - 7)
  }

  /** The nearest business day in the walking direction. */
  function NeighbourBusinessDay(c: Config, d: int, dir: Direction): int
    requires ValidConfig(c)
  {
    if dir == Add then NextBusinessDayAfter(c, d) else PrevBusinessDayBefore(c, d)
  }

  /** One counted step of the walk: to the neighbouring business day, same time of day. */
  function StepBusinessDay(c: Config, t: int, dir: Direction): int
    requires ValidConfig(c)
  {
    t + (NeighbourBusinessDay(c, DayOf(t), dir) - DayOf(t)) * DayMs
  }

  /** Where the walk of `n` business days from `t` ends. */
  function DaysWalked(c: Config, t: int, n: nat, dir: Direction): int
    requires ValidConfig(c)
    decreases n
  {
    if n == 0 then t else DaysWalked(c, StepBusinessDay(c, t, dir), n - 1, dir)
  }

  /** The number of business days `k` with `lo < k <= hi`. */
  function CountBusinessDays(c: Config, lo: int, hi: int): nat
    decreases hi - lo
  {
    if hi <= lo then 0
    else CountBusinessDays(c, lo, hi - 1) + (if IsBusinessDay(c, hi) then 1 else 0)
  }

  lemma {:induction false} CountSplit(c: Config, lo: int, mid: int, hi: int)
    requires lo <= mid <= hi
    ensures CountBusinessDays(c, lo, hi) == CountBusinessDays(c, lo, mid) + CountBusinessDays(c, mid, hi)
    decreases hi - mid
  {
    if hi > mid {
      CountSplit(c, lo, mid, hi - 1);
    }
  }

  lemma {:induction false} CountNone(c: Config, lo: int, hi: int)
    requires forall k :: lo < k <= hi ==> !IsBusinessDay(c, k)
    ensures CountBusinessDays(c, lo, hi) == 0
    decreases hi - lo
  {
    if hi > lo {
      CountNone(c, lo, hi - 1);
    }
  }

  /** Between a day and its neighbouring business day lies exactly that one business day. */
  lemma CountToNeighbour(c: Config, d: int, dir: Direction)
    requires ValidConfig(c)
    ensures dir == Add ==> CountBusinessDays(c, d, NextBusinessDayAfter(c, d)) == 1
    ensures dir == Subtract ==> CountBusinessDays(c, PrevBusinessDayBefore(c, d) - 1, d - 1) == 1
  {
    if dir == Add {
      var n := NextBusinessDayAfter(c, d);
      CountNone(c, d, n - 1);
    } else {
      var p := PrevBusinessDayBefore(c, d);
      CountNone(c, p, d - 1);
      CountSplit(c, p - 1, p, d - 1);
      assert CountBusinessDays(c, p - 1, p) == 1;
    }
  }

  lemma StepKeepsTimeOfDay(c: Config, t: int, dir: Direction)
    requires ValidConfig(c)
    ensures DayOf(StepBusinessDay(c, t, dir)) == NeighbourBusinessDay(c, DayOf(t), dir)
  {
    DayOfShift(t, NeighbourBusinessDay(c, DayOf(t), dir) - DayOf(t));
  }

  /** The walk keeps the time of day, and a walk of `n > 0` days ends on a business day. */
  lemma {:induction false} DaysWalkedLandsOnBusinessDay(c: Config, t: int, n: nat, dir: Direction)
    requires ValidConfig(c)
    ensures DaysWalked(c, t, n, dir) == t + (DayOf(DaysWalked(c, t, n, dir)) - DayOf(t)) * DayMs
    ensures n > 0 ==> IsBusinessDay(c, DayOf(DaysWalked(c, t, n, dir)))
    decreases n
  {
    if n > 0 {
      var s := StepBusinessDay(c, t, dir);
      DaysWalkedLandsOnBusinessDay(c, s, n - 1, dir);
      StepKeepsTimeOfDay(c, t, dir);
    }
  }

  /**
   * A walk forward of `n` business days: strictly later when `n > 0`, and the days
   * after the start up to and including the end hold exactly `n` business days.
   */
  lemma {:induction false} DaysWalkedForward(c: Config, t: int, n: nat)
    requires ValidConfig(c)
    ensures n > 0 ==> DaysWalked(c, t, n, Add) > t
    ensures CountBusinessDays(c, DayOf(t), DayOf(DaysWalked(c, t, n, Add))) == n
    decreases n
  {
    if n > 0 {
      var s := StepBusinessDay(c, t, Add);
      var r := DaysWalked(c, s, n - 1, Add);
      assert r == DaysWalked(c, t, n, Add);
      DaysWalkedForward(c, s, n - 1);
      StepKeepsTimeOfDay(c, t, Add);
      CountToNeighbour(c, DayOf(t), Add);
      CountSplit(c, DayOf(t), DayOf(s), DayOf(r));
      DayOfBounds(t);
      DayOfBounds(s);
    }
  }

  /**
   * A walk backward of `n` business days: strictly earlier when `n > 0`, and the
   * days from the end up to but excluding the start hold exactly `n` business days.
   */
  lemma {:induction false} DaysWalkedBackward(c: Config, t: int, n: nat)
    requires ValidConfig(c)
    ensures n > 0 ==> DaysWalked(c, t, n, Subtract) < t
    ensures CountBusinessDays(c, DayOf(DaysWalked(c, t, n, Subtract)) - 1, DayOf(t) - 1) == n
    decreases n
  {
    if n > 0 {
      var s := StepBusinessDay(c, t, Subtract);
      var r := DaysWalked(c, s, n - 1, Subtract);
      assert r == DaysWalked(c, t, n, Subtract);
      DaysWalkedBackward(c, s, n - 1);
      StepKeepsTimeOfDay(c, t, Subtract);
      CountToNeighbour(c, DayOf(t), Subtract);
      CountSplit(c, DayOf(r) - 1, DayOf(s) - 1, DayOf(t) - 1);
      DayOfBounds(t);
      DayOfBounds(s);
    }
  }

  /** Days left to the neighbouring business day, the walker's progress measure. */
  function Gap(c: Config, t: int, dir: Direction): nat
    requires ValidConfig(c)
  {
    if dir == Add then NextBusinessDayAfter(c, DayOf(t)) - DayOf(t)
    else DayOf(t) - PrevBusinessDayBefore(c, DayOf(t))
  }

  /**
   * One calendar-day step of the walker: stepping onto a business day uses up one
   * of the days to walk, stepping onto another day brings the next business day
   * one day closer and leaves the outcome unchanged.
   */
  lemma WalkerStep(c: Config, day: int, k: nat, action: Direction)
    requires ValidConfig(c)
    requires k > 0
    ensures var next := if action == Add then day + DayMs else day - DayMs;
      && (IsBusinessDay(c, DayOf(next)) ==> DaysWalked(c, next, k - 1, action) == DaysWalked(c, day, k, action))
      && (!IsBusinessDay(c, DayOf(next)) ==>
            DaysWalked(c, next, k, action) == DaysWalked(c, day, k, action) && Gap(c, next, action) < Gap(c, day, action))
  {
    var next := if action == Add then day + DayMs else day - DayMs;
    DayOfShift(day, if action == Add then 1 else -1);
    assert next == day + (DayOf(next) - DayOf(day)) * DayMs;
    if IsBusinessDay(c, DayOf(next)) {
      assert NeighbourBusinessDay(c, DayOf(day), action) == DayOf(next);
      assert StepBusinessDay(c, day, action) == next;
    } else {
      assert NeighbourBusinessDay(c, DayOf(next), action) == NeighbourBusinessDay(c, DayOf(day), action);
      assert StepBusinessDay(c, day, action) == StepBusinessDay(c, next, action);
    }
  }

  /**
   * `addOrsubtractBusinessDays`: one calendar day at a time; `n` of them must land
   * on business days. `nextBusinessDay` and `lastBusinessDay` are `n = 1`.
   */
  method AddOrSubtractBusinessDays(c: Config, date: int, numberOfDays: nat, action: Direction) returns (day: int)
    requires ValidConfig(c)
    ensures day == DaysWalked(c, date, numberOfDays, action)
  {
    var daysToIterate := numberOfDays;
    day := date;
    while daysToIterate != 0
      invariant DaysWalked(c, day, daysToIterate, action) == DaysWalked(c, date, numberOfDays, action)
      decreases daysToIterate, Gap(c, day, action)
    {
      WalkerStep(c, day, daysToIterate, action);
      day := if action == Add then day + DayMs else day - DayMs;
      if IsBusinessDay(c, DayOf(day)) {
        daysToIterate := daysToIterate - 1;
      }
    }
  }
}
