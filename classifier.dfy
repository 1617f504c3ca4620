/**
 * The day classifier: holidays and business days (`isHoliday`, `isBusinessDay`),
 * for a resolved configuration and for the option handling of each plugin copy.
 */
module DayClassifier {
  import opened Wrappers
  import opened Calendar

  /** `isHoliday`: the calendar day of the date is one of the listed holidays. */
  predicate IsHoliday(c: Config, d: int) {
    d in c.holidays
  }

  /** The weekday of day `d` has an entry (a truthy value) in the business-hours map. */
  predicate IsWorkingWeekday(c: Config, d: int) {
    HoursOn(c.businessHours, Weekday(d)).Some?
  }

  /** `isBusinessDay`: a working weekday that is not a holiday. */
  predicate IsBusinessDay(c: Config, d: int) {
    IsWorkingWeekday(c, d) && !IsHoliday(c, d)
  }

  /** A holiday is never a business day, whatever its weekday's entry. */
  lemma HolidayOverridesWeekday(c: Config, d: int)
    requires d in c.holidays
    ensures !IsBusinessDay(c, d)
  {
  }

  /**
   * With no `businessHoursMap` option the static plugin falls back to the default
   * working hours: Monday to Friday are business days unless they are holidays.
   */
  lemma DefaultBusinessDays(holidays: Option<seq<int>>, d: int)
    ensures IsBusinessDay(StaticConfig(BusinessOpts(None, holidays)), d)
        <==> 1 <= Weekday(d) <= 5 && d !in holidays.GetOr([])
  {
    var c := StaticConfig(BusinessOpts(None, holidays));
    assert c.businessHours == DefaultWorkingHours;
    var wd := Weekday(d);
    assert 0 <= wd < 7;
    if wd == 0 || wd == 6 {
      assert HoursOn(DefaultWorkingHours, wd).None?;
    } else {
      assert HoursOn(DefaultWorkingHours, wd).Some?;
    }
  }

  /** With no `holidays` option the static plugin treats no day as a holiday. */
  lemma MissingHolidaysMeansNone(opts: BusinessOpts, d: int)
    requires opts.holidays.None?
    ensures !IsHoliday(StaticConfig(opts), d)
  {
  }

  /**
   * `isHoliday` of the static plugin bundled with the prototype plugin: the
   * `holidays` option is destructured without a default, so a missing list throws.
   */
  function StrictIsHoliday(opts: BusinessOpts, d: int): (r: Result<bool, Error>)
    ensures r.Err? <==> opts.holidays.None?
    ensures r.Err? ==> r.error == MissingHolidays
    ensures r.Ok? ==> (r.value <==> d in opts.holidays.value)
  {
    match opts.holidays
    case None => Err(MissingHolidays)
    case Some(hs) => Ok(d in hs)
  }

  /**
   * `isBusinessDay` of that copy: `&&` evaluates the holiday check only on a
   * working weekday, so only there does a missing holiday list throw.
   */
  function StrictIsBusinessDay(opts: BusinessOpts, d: int): Result<bool, Error> {
    if HoursOn(opts.businessHoursMap.GetOr(DefaultWorkingHours), Weekday(d)).None? then Ok(false)
    else
      match StrictIsHoliday(opts, d)
      case Err(e) => Err(e)
      case Ok(h) => Ok(!h)
  }

  /**
   * The two static copies agree whenever holidays are given; without them the
   * stricter copy fails exactly on working weekdays and answers `false` elsewhere.
   */
  lemma StrictBusinessDayAgrees(opts: BusinessOpts, d: int)
    ensures opts.holidays.Some? ==> StrictIsBusinessDay(opts, d) == Ok(IsBusinessDay(StaticConfig(opts), d))
    ensures StrictIsBusinessDay(opts, d).Err?
        <==> opts.holidays.None? && IsWorkingWeekday(StaticConfig(opts), d)
    ensures StrictIsBusinessDay(opts, d).Ok? ==> StrictIsBusinessDay(opts, d).value == IsBusinessDay(StaticConfig(opts), d)
  {
  }

  /**
   * Right after the prototype plugin is installed, its locale holds the default
   * working hours and an empty holiday list: exactly the configuration of the
   * static plugin called with no options.
   */
  lemma InstalledLocaleIsDefault()
    ensures LocaleConfig(DefaultWorkingHours, Some([])) == StaticConfig(BusinessOpts(None, None))
  {
  }
}
