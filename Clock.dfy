/**
 * Local date-time values and the working-hours policy of the bot.
 * The host clock is not read: every operation takes the current moment `now`
 * as an explicit timestamp.
 */
module Clock {

  /** A local date-time at minute precision, as reported by the host clock. */
  datatype Timestamp = Timestamp(year: int, month: int, day: int, hour: int, minute: int)

  /** A timestamp the host clock can report: fields within their calendar ranges. */
  predicate Valid(t: Timestamp) {
    1 <= t.month <= 12 && 1 <= t.day <= 31 && 0 <= t.hour < 24 && 0 <= t.minute < 60
  }

  /** Two moments on the same local calendar date; the time of day is ignored. */
  predicate SameDay(a: Timestamp, b: Timestamp) {
    a.year == b.year && a.month == b.month && a.day == b.day
  }

  /** Minutes elapsed since local midnight. */
  function MinuteOfDay(t: Timestamp): (m: int) {
    t.hour * 60 + t.minute
  }

  /** First and last minute of the day that count as working time (10:00 and 18:00). */
  const ShiftStart: int := 10 * 60
  const ShiftEnd: int := 18 * 60

  /**
   * The working-hours test exactly as the bot computes it: before 10:00
   * (including a "10 o'clock with negative minutes" case), or after 18:00.
   * For every moment the clock can report, that is the same as lying outside
   * the closed minute interval [10:00, 18:00].
   */
  function IsOutsideWorkingHours(now: Timestamp): (outside: bool)
    ensures Valid(now) ==> (outside <==> !(ShiftStart <= MinuteOfDay(now) <= ShiftEnd))
  {
    var before := now.hour < 10 || (now.hour == 10 && now.minute < 0);
    var after := now.hour > 18 || (now.hour == 18 && now.minute > 0);
    before || after
  }

  /** The `minute < 0` disjunct never holds: the test reduces to three cases. */
  lemma OutsideCases(now: Timestamp)
    requires Valid(now)
    ensures IsOutsideWorkingHours(now) <==> now.hour < 10 || now.hour > 18 || (now.hour == 18 && now.minute > 0)
    ensures !(now.hour == 10 && now.minute < 0)
  {
  }

  /** The four boundary minutes of the working window, on any date. */
  lemma Boundaries(y: int, m: int, d: int)
    ensures IsOutsideWorkingHours(Timestamp(y, m, d, 9, 59))
    ensures !IsOutsideWorkingHours(Timestamp(y, m, d, 10, 0))
    ensures !IsOutsideWorkingHours(Timestamp(y, m, d, 18, 0))
    ensures IsOutsideWorkingHours(Timestamp(y, m, d, 18, 1))
  {
  }

  /**
   * The reply text announces operating hours from 09:00, but a message at any
   * minute of the nine o'clock hour is treated as outside working hours.
   */
  lemma NineOClockHourIsOutside(now: Timestamp)
    requires Valid(now) && now.hour == 9
    ensures IsOutsideWorkingHours(now)
  {
  }
}
