/**
 * The unit dispatchers of the plugin: `addBusinessTime`, `subtractBusinessTime`
 * and `businessTimeDiff` route a count to the minute, hour or day operation by
 * the unit's name and refuse any other name.
 */
module Plugin {
  import opened Wrappers
  import opened Calendar
  import opened DayClassifier
  import opened SegmentResolver
  import opened DayWalker
  import opened TimeLocator
  import opened MinuteWalker
  import opened BusinessDiff
  import opened Units

  /**
   * `addBusinessTime` / `subtractBusinessTime` (and through them
   * `addBusinessMinutes`, `addBusinessHours`, `addBusinessDays` and their
   * subtracting twins): a minute or hour walk ends on business time past (or
   * before) the start, a day walk keeps the time of day and ends on a business
   * day, and an unknown unit is an error.
   */
  method AddOrSubtractBusinessTime(c: Config, date: int, amount: nat, businessUnit: string, action: Direction)
    returns (r: Result<int, Error>)
    requires ValidConfig(c)
    ensures UnitOf(businessUnit).Err? <==> r == Err(InvalidBusinessTimeUnit)
    ensures UnitOf(businessUnit) == Ok(Minutes) ==> r == Ok(MinutesWalked(c, date, amount, action))
    ensures UnitOf(businessUnit) == Ok(Hours) ==> r == Ok(HoursWalked(c, date, amount, action))
    ensures UnitOf(businessUnit) == Ok(Days) ==> r == Ok(DaysWalked(c, date, amount, action))
    ensures r.Ok? && UnitOf(businessUnit) != Ok(Days) ==>
      && IsBusinessTime(c, r.value)
      && (if action == Add then date <= r.value else r.value <= date)
    ensures r.Ok? && UnitOf(businessUnit) == Ok(Days) ==>
      && r.value == date + (DayOf(r.value) - DayOf(date)) * DayMs
      && (if action == Add then date <= r.value else r.value <= date)
      && (amount > 0 ==> IsBusinessDay(c, DayOf(r.value)))
  {
    var unit := UnitOf(businessUnit);
    if unit == Ok(Minutes) {
      var newDate := AddOrSubtractBusinessMinutes(c, date, amount, action);
      MinutesWalkedSpec(c, date, amount, action);
      return Ok(newDate);
    }
    if unit == Ok(Hours) {
      var newDate := AddOrSubtractBusinessMinutes(c, date, amount * 60, action);
      MinutesWalkedSpec(c, date, amount * 60, action);
      return Ok(newDate);
    }
    if unit == Ok(Days) {
      var newDate := AddOrSubtractBusinessDays(c, date, amount, action);
      DaysWalkedLandsOnBusinessDay(c, date, amount, action);
      if action == Add {
        DaysWalkedForward(c, date, amount);
      } else {
        DaysWalkedBackward(c, date, amount);
      }
      return Ok(newDate);
    }
    return Err(InvalidBusinessTimeUnit);
  }

  /**
   * `businessTimeDiff`: the minute, hour or day count between two instants by
   * the unit's name, never negative forward and never positive backward; an
   * unknown unit is an error.
   */
  method BusinessTimeDiff(c: Config, date: int, comparator: int, businessUnit: string) returns (r: Result<real, Error>)
    requires ValidConfig(c)
    ensures UnitOf(businessUnit).Err? <==> r == Err(InvalidBusinessTimeUnit)
    ensures UnitOf(businessUnit) == Ok(Minutes) ==> r == Ok(BusinessMinutesBetween(c, date, comparator) as real)
    ensures UnitOf(businessUnit) == Ok(Hours) ==> r == Ok(BusinessHoursBetween(c, date, comparator))
    ensures UnitOf(businessUnit) == Ok(Days) ==> r == Ok(BusinessDaysBetween(c, date, comparator) as real)
    ensures r.Ok? && date <= comparator ==> r.value >= 0.0
    ensures r.Ok? && date > comparator ==> r.value <= 0.0
  {
    var unit := UnitOf(businessUnit);
    if unit == Ok(Minutes) {
      var minutes := BusinessMinutesDiff(c, date, comparator);
      BusinessMinutesDiffSign(c, date, comparator);
      return Ok(minutes as real);
    }
    if unit == Ok(Hours) {
      var hours := BusinessHoursDiff(c, date, comparator);
      BusinessMinutesDiffSign(c, date, comparator);
      return Ok(hours);
    }
    if unit == Ok(Days) {
      var days := BusinessDaysDiff(c, date, comparator);
      BusinessDaysDiffSign(c, date, comparator);
      return Ok(days as real);
    }
    return Err(InvalidBusinessTimeUnit);
  }
}
