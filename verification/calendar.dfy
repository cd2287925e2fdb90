/** The calendar fields the programs read from the system clock.

  The C programs break a `time_t` into a `struct tm` with `localtime_r`; the
  Python programs ask `datetime.now()`.  Both conversions depend on the time
  zone and the operating system, so the model takes their results as inputs.
 */
module Calendar {
  import opened Bus

  /** The fields of C's `struct tm` the programs use.  Every field is a C `int`:
      `mon` counts months from 0, `year` counts years from 1900, `wday` counts
      days from Sunday = 0. */
  datatype Tm = Tm(sec: int, min: int, hour: int, mday: int, mon: int, year: int, wday: int)

  /** The ranges the C standard gives the fields of a broken-down time (60 is a leap second). */
  predicate ValidTm(tm: Tm)
  {
    && 0 <= tm.sec <= 60
    && 0 <= tm.min <= 59
    && 0 <= tm.hour <= 23
    && 1 <= tm.mday <= 31
    && 0 <= tm.mon <= 11
    && 0 <= tm.wday <= 6
  }

  /** The fields of Python's `datetime` the programs use; `isoWeekday` is
      `isoweekday()`, Monday = 1 through Sunday = 7. */
  datatype DateTime = DateTime(year: int, month: int, day: int, hour: int, minute: int, second: int, isoWeekday: int)

  /** The ranges a `datetime` guarantees. */
  predicate ValidDateTime(dt: DateTime)
  {
    && 1 <= dt.year <= 9999
    && 1 <= dt.month <= 12
    && 1 <= dt.day <= 31
    && 0 <= dt.hour <= 23
    && 0 <= dt.minute <= 59
    && 0 <= dt.second <= 59
    && 1 <= dt.isoWeekday <= 7
  }

  /** A `struct tm` and a `datetime` that name the same wall-clock second. */
  predicate SameTime(tm: Tm, dt: DateTime)
  {
    && dt.year == tm.year + 1900
    && dt.month == tm.mon + 1
    && dt.day == tm.mday
    && dt.hour == tm.hour
    && dt.minute == tm.min
    && dt.second == tm.sec
    && dt.isoWeekday % 7 == tm.wday
  }

  /** The day-of-week register value of the C programs, `tm_wday + 1` stored in a `uint8_t`. */
  function WdayRegister(tm: Tm): (b: Byte)
    ensures 0 <= tm.wday <= 6 ==> 1 <= b <= 7 && b - 1 == tm.wday
  {
    (tm.wday + 1) % 256
  }

  /** The day-of-week register value of the Python programs, `(isoweekday() % 7) + 1`. */
  function IsoWdayRegister(dt: DateTime): (b: Byte)
    ensures 1 <= b <= 7
    ensures dt.isoWeekday == 7 ==> b == 1
    ensures 1 <= dt.isoWeekday <= 6 ==> b == dt.isoWeekday + 1
  {
    dt.isoWeekday % 7 + 1
  }

  /** Both programs number the days 1..7 starting from Sunday, so they write the
      same register value for the same day. */
  lemma WeekdaysAgree(tm: Tm, dt: DateTime)
    requires ValidDateTime(dt) && SameTime(tm, dt)
    ensures WdayRegister(tm) == IsoWdayRegister(dt)
    ensures tm.wday == 0 <==> IsoWdayRegister(dt) == 1
  {
  }
}
