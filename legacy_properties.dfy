/**
 * Boundary behaviour of the legacy models: the weekly window, the schedule
 * without a 24-hour flag, and the date-only precedence of special schedules.
 */
module LegacyProperties {
  import opened Calendar
  import opened Legacy

  /** A window that does not cross the week boundary is closed before its
      start and after its end, open at both exact ends (when the end does not
      come before the start) and open all day strictly in between. */
  lemma NonWrapWindow(o: OpenTime, day: Weekday, time: TimeOfDay)
    requires o.startDay <= o.endDay
    ensures day < o.startDay || (day == o.startDay && time < o.startTime) ==> !o.IsOpenAt(day, time)
    ensures day > o.endDay || (day == o.endDay && time > o.endTime) ==> !o.IsOpenAt(day, time)
    ensures day == o.startDay && (o.startDay < o.endDay || o.startTime <= o.endTime) ==> o.IsOpenAt(day, o.startTime)
    ensures day == o.endDay && (o.startDay < o.endDay || o.startTime <= o.endTime) ==> o.IsOpenAt(day, o.endTime)
    ensures o.startDay < day < o.endDay ==> o.IsOpenAt(day, time)
  {
  }

  /** A window that crosses the week boundary is closed strictly between its
      end day and its start day, gated by the start time on the start day and
      by the end time on the end day, and open all day otherwise. */
  lemma WrapWindow(o: OpenTime, day: Weekday, time: TimeOfDay)
    requires o.startDay > o.endDay
    ensures o.endDay < day < o.startDay ==> !o.IsOpenAt(day, time)
    ensures day == o.startDay ==> (o.IsOpenAt(day, time) <==> time >= o.startTime)
    ensures day == o.endDay ==> (o.IsOpenAt(day, time) <==> time <= o.endTime)
    ensures day > o.startDay || day < o.endDay ==> o.IsOpenAt(day, time)
  {
  }

  /** A schedule without open times is closed at every instant. */
  lemma NoOpenTimesAlwaysClosed(s: Schedule, now: Instant)
    requires s.openTimes == []
    ensures !s.IsOpenNow(now)
  {
  }

  /** A schedule missing either date is never in effect. */
  lemma MissingDateNeverInEffect(s: Schedule, today: Date)
    requires s.validStart.None? || s.validEnd.None?
    ensures !s.InEffectOn(today)
  {
  }

  /** Once a special schedule is in effect, later special schedules and the
      main schedule are not consulted, even when it reports closed. */
  lemma {:induction false} FirstInEffectDecides(specials: seq<Schedule>, later: seq<Schedule>,
                                                 main: Schedule, otherMain: Schedule, today: Date, now: Instant)
    requires !NoneInEffectOn(specials, today)
    ensures SpecialOrMainOpen(specials + later, otherMain, today, now) == SpecialOrMainOpen(specials, main, today, now)
  {
    assert specials != [];
    if !specials[0].InEffectOn(today) {
      assert (specials + later)[1..] == specials[1..] + later;
      FirstInEffectDecides(specials[1..], later, main, otherMain, today, now);
    }
  }
}
