/**
 * Instants, dates, weekdays and times of day as the schedule code reads them
 * from Python's datetime objects. An instant is a count of microseconds since
 * 1970-01-01 00:00:00 in the one reference zone in which every clock reading
 * is taken; a date is a count of days since that same midnight.
 */
module Calendar {

  /** Microseconds since 1970-01-01 00:00:00 (Python's datetime resolution). */
  type Instant = int

  /** Days since 1970-01-01 (what `datetime.date` orders by). */
  type Date = int

  const MicrosPerSecond: int := 1_000_000
  const MicrosPerDay: int := 86_400 * MicrosPerSecond

  /** Monday = 0 … Sunday = 6, as `datetime.weekday()` numbers them. */
  type Weekday = d: int | 0 <= d < 7

  const Monday: Weekday := 0
  const Tuesday: Weekday := 1
  const Wednesday: Weekday := 2
  const Thursday: Weekday := 3
  const Friday: Weekday := 4
  const Saturday: Weekday := 5
  const Sunday: Weekday := 6

  /** 1970-01-01 was a Thursday. */
  const EpochWeekday: Weekday := Thursday

  /** A time of day (`datetime.time`), in microseconds after midnight. */
  type TimeOfDay = t: int | 0 <= t < MicrosPerDay

  /** The time of day h:m:s. */
  function Hms(h: int, m: int, s: int): (t: TimeOfDay)
    requires 0 <= h < 24 && 0 <= m < 60 && 0 <= s < 60
    ensures t % MicrosPerSecond == 0
    ensures t / MicrosPerSecond == 3600 * h + 60 * m + s
  {
    ((h * 60 + m) * 60 + s) * MicrosPerSecond
  }

  /** The calendar date of an instant (`now.date()`): the day whose midnight
      is the last one at or before `now`, also for instants before 1970. */
  function DateOf(now: Instant): (d: Date)
    ensures d * MicrosPerDay <= now < (d + 1) * MicrosPerDay
  {
    now / MicrosPerDay
  }

  /** The time of day of an instant (`now.time()`): what has elapsed since
      the midnight of its date. */
  function TimeOf(now: Instant): (t: TimeOfDay)
    ensures now == DateOf(now) * MicrosPerDay + t
  {
    now % MicrosPerDay
  }

  /** The weekday of an instant (`now.weekday()`). */
  function WeekdayOf(now: Instant): (d: Weekday)
    ensures (d - EpochWeekday - DateOf(now)) % 7 == 0
  {
    (DateOf(now) + EpochWeekday) % 7
  }

  /** The date of `now` lies in [first, last] exactly when `now` lies between
      the midnight that starts `first` and the last microsecond of `last`. */
  lemma DateRangeAsInstants(now: Instant, first: Date, last: Date)
    ensures first <= DateOf(now) <= last
        <==> first * MicrosPerDay <= now <= (last + 1) * MicrosPerDay - 1
  {
    var d := DateOf(now);
    if first <= d {
      assert first * MicrosPerDay <= d * MicrosPerDay;
    }
    if d <= last {
      assert (d + 1) * MicrosPerDay <= (last + 1) * MicrosPerDay;
    }
    if first * MicrosPerDay <= now {
      assert first * MicrosPerDay < (d + 1) * MicrosPerDay;
    }
    if now <= (last + 1) * MicrosPerDay - 1 {
      assert d * MicrosPerDay < (last + 1) * MicrosPerDay;
    }
  }

  /** Where a (weekday, time of day) point falls in the week, counted from
      Monday midnight; days outside 0..6 extend the count linearly. */
  function WeekPosition(day: int, time: TimeOfDay): int
  {
    day * MicrosPerDay + time
  }

  /** The positions in the week covered by a recurring window that opens at
      week position `opening` and closes at `closing`, both ends included:
      one interval, or, when the window crosses from Sunday into Monday, the
      two ends of the week on either side of the closed gap. */
  predicate InWeeklyWindow(opening: int, closing: int, crossesWeekEnd: bool, position: int)
  {
    if crossesWeekEnd then opening <= position || position <= closing
    else opening <= position <= closing
  }

  /** Week positions order (weekday, time) points day first, then by time. */
  lemma WeekPositionOrder(d1: int, t1: TimeOfDay, d2: int, t2: TimeOfDay)
    ensures WeekPosition(d1, t1) <= WeekPosition(d2, t2) <==> d1 < d2 || (d1 == d2 && t1 <= t2)
  {
    if d1 < d2 {
      assert (d1 + 1) * MicrosPerDay <= d2 * MicrosPerDay;
    } else if d1 > d2 {
      assert (d2 + 1) * MicrosPerDay <= d1 * MicrosPerDay;
    }
  }
}
