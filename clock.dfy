/** Time decomposition (`parseDate`): the readings of a JavaScript `Date` turned
    into the five calendar fields a schedule is matched against. The clock itself
    is not read here; its readings are given. */
module Clock {

  /** What `getMonth`, `getDate`, `getDay`, `getHours` and `getMinutes` return:
      a 0-based month, the day of the month, a 0-based weekday (0 = Sunday),
      the hour and the minute. */
  datatype RawClock = RawClock(month: int, date: int, day: int, hours: int, minutes: int)

  /** The ranges a JavaScript `Date` keeps its local-time readings in. */
  predicate ValidClock(c: RawClock) {
    && 0 <= c.month < 12
    && 1 <= c.date <= 31
    && 0 <= c.day < 7
    && 0 <= c.hours < 24
    && 0 <= c.minutes < 60
  }

  /** The current time as the matcher sees it: 1-based month and weekday. */
  datatype Moment = Moment(months: int, days: int, daysOfWeek: int, hours: int, minutes: int)

  /** The calendar domain: months 1..12, days 1..31, weekdays 1..7, hours 0..23,
      minutes 0..59. */
  predicate InCalendar(m: Moment) {
    && 1 <= m.months <= 12
    && 1 <= m.days <= 31
    && 1 <= m.daysOfWeek <= 7
    && 0 <= m.hours < 24
    && 0 <= m.minutes < 60
  }

  /** `parseDate`: month and weekday shift from 0-based to 1-based, the other
      readings are copied. Exactly the valid clock readings land in the calendar
      domain, and no two readings give the same moment. */
  function ParseDate(c: RawClock): (m: Moment)
    ensures m.months == c.month + 1 && m.daysOfWeek == c.day + 1
    ensures m.days == c.date && m.hours == c.hours && m.minutes == c.minutes
    ensures ValidClock(c) <==> InCalendar(m)
  {
    Moment(c.month + 1, c.date, c.day + 1, c.hours, c.minutes)
  }

  /** The readings a moment was decomposed from. */
  function ToRawClock(m: Moment): RawClock {
    RawClock(m.months - 1, m.days, m.daysOfWeek - 1, m.hours, m.minutes)
  }

  /** Decomposition loses nothing: it is undone by `ToRawClock`, both ways round. */
  lemma ParseDateRoundTrip(c: RawClock, m: Moment)
    ensures ToRawClock(ParseDate(c)) == c
    ensures ParseDate(ToRawClock(m)) == m
  {
  }
}
