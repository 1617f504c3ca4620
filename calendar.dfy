/**
 * The calendar configuration and the time-line abstraction the engine works on.
 *
 * An instant is a whole number of milliseconds on a uniform time line (every day
 * lasts 86 400 000 ms); its calendar day is the floor of the instant divided by the
 * day length, and day 0 (1970-01-01) is a Thursday. A configuration holds the seven
 * weekday entries of the business-hours map and the list of holiday days.
 */
module Calendar {
  import opened Wrappers

  const SecondMs: int := 1000
  const MinuteMs: int := 60_000
  const HourMs: int := 3_600_000
  const DayMs: int := 86_400_000

  /** Calendar day of an instant. */
  function DayOf(t: int): int {
    t / DayMs
  }

  /** First instant (midnight) of day `d`. */
  function DayStart(d: int): int {
    d * DayMs
  }

  /** Weekday index of day `d`, Sunday = 0 .. Saturday = 6, as `Dayjs.day()` numbers them. */
  function Weekday(d: int): int {
    (d + 4) % 7
  }

  lemma DayOfWithin(d: int, x: int)
    requires 0 <= x < DayMs
    ensures DayOf(DayStart(d) + x) == d
  {
    var t := DayStart(d) + x;
    assert t == d * DayMs + x;
  }

  lemma DayOfShift(t: int, k: int)
    ensures DayOf(t + k * DayMs) == DayOf(t) + k
  {
    var r := t % DayMs;
    assert t == DayOf(t) * DayMs + r;
    DayOfWithin(DayOf(t) + k, r);
    assert t + k * DayMs == DayStart(DayOf(t) + k) + r;
  }

  /** The instants of day `d` are exactly those in [DayStart(d), DayStart(d + 1)). */
  lemma DayOfBounds(t: int)
    ensures DayStart(DayOf(t)) <= t < DayStart(DayOf(t)) + DayMs
  {
  }

  /** Stepping over direction `add` or `subtract`, the two actions of the walkers. */
  datatype Direction = Add | Subtract

  /** A time of day as the hours, minutes and seconds of an `HH:MM:SS` string. */
  datatype TimeOfDay = TimeOfDay(hours: int, minutes: int, seconds: int)

  /**
   * Offset from midnight of a time of day, with the milliseconds set to zero;
   * the hour, minute and second setters of a date carry over linearly.
   */
  function Millis(tod: TimeOfDay): int {
    ((tod.hours * 60 + tod.minutes) * 60 + tod.seconds) * SecondMs
  }

  /** One configured working window `{ start, end }` of a weekday. */
  datatype BusinessHours = BusinessHours(start: TimeOfDay, end: TimeOfDay)

  /** The weekly schedule: per weekday, no business hours or a list of windows. */
  datatype BusinessHoursMap = BusinessHoursMap(
    sunday: Option<seq<BusinessHours>>,
    monday: Option<seq<BusinessHours>>,
    tuesday: Option<seq<BusinessHours>>,
    wednesday: Option<seq<BusinessHours>>,
    thursday: Option<seq<BusinessHours>>,
    friday: Option<seq<BusinessHours>>,
    saturday: Option<seq<BusinessHours>>)

  /** The entry of weekday `wd` (Sunday = 0); indexes outside 0..6 name no weekday. */
  function HoursOn(m: BusinessHoursMap, wd: int): Option<seq<BusinessHours>> {
    if wd == 0 then m.sunday
    else if wd == 1 then m.monday
    else if wd == 2 then m.tuesday
    else if wd == 3 then m.wednesday
    else if wd == 4 then m.thursday
    else if wd == 5 then m.friday
    else if wd == 6 then m.saturday
    else None
  }

  const NineToFive: seq<BusinessHours> := [BusinessHours(TimeOfDay(9, 0, 0), TimeOfDay(17, 0, 0))]

  /** Monday to Friday 09:00:00-17:00:00, no hours on Saturday and Sunday. */
  const DefaultWorkingHours: BusinessHoursMap := BusinessHoursMap(
    None, Some(NineToFive), Some(NineToFive), Some(NineToFive),
    Some(NineToFive), Some(NineToFive), None)

  /** A resolved configuration: the schedule and the holiday days. */
  datatype Config = Config(businessHours: BusinessHoursMap, holidays: seq<int>)

  /** The options a caller of the static plugin passes, each of them optional. */
  datatype BusinessOpts = BusinessOpts(businessHoursMap: Option<BusinessHoursMap>, holidays: Option<seq<int>>)

  /** Failures the engine reports. */
  datatype Error =
    | InvalidBusinessTimeUnit
      /** `holidays.includes` on a missing `holidays` option throws a TypeError. */
    | MissingHolidays

  /**
   * The configuration the static plugin works with: the given map or the default
   * working hours, and the given holidays or none.
   */
  function StaticConfig(opts: BusinessOpts): (c: Config)
    ensures opts.businessHoursMap.None? ==> c.businessHours == DefaultWorkingHours
    ensures opts.holidays.None? ==> c.holidays == []
    ensures opts.businessHoursMap.Some? ==> c.businessHours == opts.businessHoursMap.value
    ensures opts.holidays.Some? ==> c.holidays == opts.holidays.value
  {
    Config(opts.businessHoursMap.GetOr(DefaultWorkingHours), opts.holidays.GetOr([]))
  }

  /**
   * The configuration the prototype plugin reads from locale state: the stored
   * business hours, and the stored holidays or none.
   */
  function LocaleConfig(businessHours: BusinessHoursMap, holidays: Option<seq<int>>): (c: Config)
    ensures c.businessHours == businessHours
    ensures holidays.None? ==> c.holidays == []
    ensures holidays.Some? ==> c.holidays == holidays.value
  {
    Config(businessHours, holidays.GetOr([]))
  }

  /**
   * A weekday's windows as the engine needs them: a non-empty list, each window
   * inside the day and at least one minute long, and every window ending strictly
   * before the next one starts (both ends of a window are business time).
   */
  predicate ValidEntry(hs: seq<BusinessHours>) {
    && |hs| > 0
    && (forall i :: 0 <= i < |hs| ==>
          0 <= Millis(hs[i].start) && Millis(hs[i].start) + MinuteMs <= Millis(hs[i].end) && Millis(hs[i].end) < DayMs)
    && (forall i, j :: 0 <= i < j < |hs| ==> Millis(hs[i].end) < Millis(hs[j].start))
  }

  predicate ValidHoursMap(m: BusinessHoursMap) {
    && (forall wd :: 0 <= wd < 7 && HoursOn(m, wd).Some? ==> ValidEntry(HoursOn(m, wd).value))
    && (exists wd :: 0 <= wd < 7 && HoursOn(m, wd).Some?)
  }

  predicate ValidConfig(c: Config) {
    ValidHoursMap(c.businessHours)
  }

  lemma DefaultWorkingHoursValid()
    ensures ValidHoursMap(DefaultWorkingHours)
  {
    assert HoursOn(DefaultWorkingHours, 1).Some?;
    assert Millis(TimeOfDay(9, 0, 0)) == 32_400_000;
    assert Millis(TimeOfDay(17, 0, 0)) == 61_200_000;
    assert ValidEntry(NineToFive);
  }

  /** `a.diff(b, 'minute')`: whole minutes from `b` to `a`, truncated toward zero. */
  function MinuteDiff(a: int, b: int): int {
    if a >= b then (a - b) / MinuteMs else -((b - a) / MinuteMs)
  }

  lemma MinuteDiffAntisymmetric(a: int, b: int)
    ensures MinuteDiff(a, b) == -MinuteDiff(b, a)
  {
  }
}
