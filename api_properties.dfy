/**
 * Boundary behaviour of the current models: inclusive window ends, days
 * inside and outside a window, the 24-hour and empty schedules, the
 * eligibility gate and first-match precedence of special schedules, and the
 * strict alert interval.
 */
module ApiProperties {
  import opened Wrappers
  import opened Calendar
  import opened Api

  // ----- OpenTime: a window that does not cross the week boundary -----

  /** Before the start day, or on it before the start time, it is closed. */
  lemma NonWrapClosedBeforeStart(o: OpenTime, day: Weekday, time: TimeOfDay)
    requires o.startDay <= o.endDay
    requires day < o.startDay || (day == o.startDay && time < o.startTime)
    ensures !o.IsOpenAt(day, time)
  {
  }

  /** After the end day, or on it after the end time, it is closed. */
  lemma NonWrapClosedAfterEnd(o: OpenTime, day: Weekday, time: TimeOfDay)
    requires o.startDay <= o.endDay
    requires day > o.endDay || (day == o.endDay && time > o.endTime)
    ensures !o.IsOpenAt(day, time)
  {
  }

  /** It is open at exactly its start and exactly its end, provided the end
      does not come before the start. */
  lemma NonWrapOpenAtBothEnds(o: OpenTime)
    requires 0 <= o.startDay <= o.endDay < 7
    requires o.startDay < o.endDay || o.startTime <= o.endTime
    ensures o.IsOpenAt(o.startDay, o.startTime)
    ensures o.IsOpenAt(o.endDay, o.endTime)
  {
  }

  /** A day strictly between the start and end days is open all day. */
  lemma NonWrapOpenAllDayBetween(o: OpenTime, day: Weekday, time: TimeOfDay)
    requires o.startDay < day < o.endDay
    ensures o.IsOpenAt(day, time)
  {
  }

  /** A window whose start and end fall on the same day with the start time
      after the end time is not read as wrapping: it is never open. */
  lemma SameDayInvertedNeverOpen(o: OpenTime, day: Weekday, time: TimeOfDay)
    requires o.startDay == o.endDay && o.startTime > o.endTime
    ensures !o.IsOpenAt(day, time)
  {
  }

  // ----- OpenTime: a window that crosses from Sunday into Monday -----

  /** Days strictly between the end day and the start day are closed; days
      after the start day or before the end day are open all day. */
  lemma WrapDays(o: OpenTime, day: Weekday, time: TimeOfDay)
    requires o.startDay > o.endDay
    ensures o.endDay < day < o.startDay ==> !o.IsOpenAt(day, time)
    ensures day > o.startDay || day < o.endDay ==> o.IsOpenAt(day, time)
  {
  }

  /** On the start day it is open from the start time on; on the end day it
      is open up to and including the end time. */
  lemma WrapStartAndEndDays(o: OpenTime, day: Weekday, time: TimeOfDay)
    requires o.startDay > o.endDay
    ensures day == o.startDay ==> (o.IsOpenAt(day, time) <==> time >= o.startTime)
    ensures day == o.endDay ==> (o.IsOpenAt(day, time) <==> time <= o.endTime)
  {
  }

  /** Monday 09:00 to Friday 17:00: open at both exact ends and all through
      Wednesday; closed one second before the start and one after the end. */
  lemma WeekdayWindowExamples()
    ensures OpenTime(Monday, Friday, Hms(9, 0, 0), Hms(17, 0, 0)).IsOpenAt(Monday, Hms(9, 0, 0))
    ensures OpenTime(Monday, Friday, Hms(9, 0, 0), Hms(17, 0, 0)).IsOpenAt(Friday, Hms(17, 0, 0))
    ensures !OpenTime(Monday, Friday, Hms(9, 0, 0), Hms(17, 0, 0)).IsOpenAt(Monday, Hms(8, 59, 59))
    ensures !OpenTime(Monday, Friday, Hms(9, 0, 0), Hms(17, 0, 0)).IsOpenAt(Friday, Hms(17, 0, 1))
    ensures OpenTime(Monday, Friday, Hms(9, 0, 0), Hms(17, 0, 0)).IsOpenAt(Wednesday, 0)
    ensures OpenTime(Monday, Friday, Hms(9, 0, 0), Hms(17, 0, 0)).IsOpenAt(Wednesday, MicrosPerDay - 1)
  {
  }

  /** Sunday 22:00 to Monday 02:00 crosses the week boundary: open late on
      Sunday and early on Monday, closed in between on the other days. */
  lemma WeekBoundaryWindowExamples()
    ensures OpenTime(Sunday, Monday, Hms(22, 0, 0), Hms(2, 0, 0)).IsOpenAt(Sunday, Hms(23, 0, 0))
    ensures OpenTime(Sunday, Monday, Hms(22, 0, 0), Hms(2, 0, 0)).IsOpenAt(Monday, Hms(1, 0, 0))
    ensures !OpenTime(Sunday, Monday, Hms(22, 0, 0), Hms(2, 0, 0)).IsOpenAt(Monday, Hms(2, 0, 1))
    ensures !OpenTime(Sunday, Monday, Hms(22, 0, 0), Hms(2, 0, 0)).IsOpenAt(Saturday, Hms(23, 0, 0))
    ensures !OpenTime(Sunday, Monday, Hms(22, 0, 0), Hms(2, 0, 0)).IsOpenAt(Sunday, Hms(21, 59, 59))
  {
  }

  // ----- Schedule -----

  /** A 24-hour schedule is open at every instant, whatever its open times,
      none included. */
  lemma TwentyFourHoursAlwaysOpen(s: Schedule, now: Instant)
    requires s.twentyFourHours
    ensures s.IsOpenNow(now)
  {
  }

  /** A schedule without the 24-hour flag and without open times is closed
      at every instant. */
  lemma NoOpenTimesAlwaysClosed(s: Schedule, now: Instant)
    requires !s.twentyFourHours && s.openTimes == []
    ensures !s.IsOpenNow(now)
  {
  }

  /** The order in which a schedule's open times are stored does not change
      its answer. */
  lemma OpenTimeOrderIrrelevant(s: Schedule, t: Schedule, now: Instant)
    requires s.twentyFourHours == t.twentyFourHours
    requires multiset(s.openTimes) == multiset(t.openTimes)
    ensures s.IsOpenNow(now) == t.IsOpenNow(now)
  {
    if !s.twentyFourHours && s.IsOpenNow(now) {
      var i :| 0 <= i < |s.openTimes| && s.openTimes[i].IsOpenNow(now);
      assert s.openTimes[i] in multiset(t.openTimes);
    }
    if !t.twentyFourHours && t.IsOpenNow(now) {
      var i :| 0 <= i < |t.openTimes| && t.openTimes[i].IsOpenNow(now);
      assert t.openTimes[i] in multiset(s.openTimes);
    }
  }

  // ----- Facility -----

  /** A schedule missing either validity bound is never in effect. */
  lemma MissingBoundNeverInEffect(s: Schedule, now: Instant)
    requires s.validStart.None? || s.validEnd.None?
    ensures !s.InEffect(now)
  {
  }

  /** A special schedule that is not in effect at `now` can be removed from
      the list without changing the facility's answer; in particular one
      missing a validity bound never matters. */
  lemma {:induction false} IneligibleSpecialIgnored(specials: seq<Schedule>, k: nat, main: Schedule, now: Instant)
    requires k < |specials| && !specials[k].InEffect(now)
    ensures SpecialOrMainOpen(specials[..k] + specials[k + 1..], main, now) == SpecialOrMainOpen(specials, main, now)
  {
    if k == 0 {
      assert specials[..0] + specials[1..] == specials[1..];
    } else {
      var rest := specials[1..];
      IneligibleSpecialIgnored(rest, k - 1, main, now);
      assert specials[..k] + specials[k + 1..] == [specials[0]] + (rest[..k - 1] + rest[k..]);
    }
  }

  /** Once a special schedule is in effect, special schedules listed after it
      and the main schedule are not consulted. */
  lemma {:induction false} FirstInEffectDecides(specials: seq<Schedule>, later: seq<Schedule>,
                                                 main: Schedule, otherMain: Schedule, now: Instant)
    requires !NoneInEffect(specials, now)
    ensures SpecialOrMainOpen(specials + later, otherMain, now) == SpecialOrMainOpen(specials, main, now)
  {
    assert specials != [];
    if !specials[0].InEffect(now) {
      assert (specials + later)[1..] == specials[1..] + later;
      FirstInEffectDecides(specials[1..], later, main, otherMain, now);
    }
  }

  /** A facility whose main schedule has no open times and whose only special
      schedule is a 24-hour one valid from `t0` to `t1` is open exactly from
      `t0` to `t1`, both included. */
  lemma SpecialOverridesClosedMain(f: Facility, t0: Instant, t1: Instant, now: Instant)
    requires !f.mainSchedule.twentyFourHours && f.mainSchedule.openTimes == []
    requires |f.specialSchedules| == 1
    requires f.specialSchedules[0].twentyFourHours
    requires f.specialSchedules[0].validStart == Some(t0) && f.specialSchedules[0].validEnd == Some(t1)
    ensures f.IsOpen(now) <==> t0 <= now <= t1
  {
    assert f.specialSchedules[..0] == [];
  }

  // ----- Alert -----

  /** An alert is active strictly inside the range in which a special
      schedule with the same bounds is in effect: the schedule includes both
      end instants, the alert neither. */
  lemma AlertStricterThanValidity(a: Alert, s: Schedule, now: Instant)
    requires s.validStart == Some(a.startDatetime) && s.validEnd == Some(a.endDatetime)
    ensures a.IsActive(now) <==> s.InEffect(now) && now != a.startDatetime && now != a.endDatetime
  {
  }

  /** With at least two microseconds between start and end, the alert is
      active one microsecond after its start and one before its end. */
  lemma AlertActiveJustInside(a: Alert)
    requires a.startDatetime + 1 < a.endDatetime
    ensures a.IsActive(a.startDatetime + 1) && a.IsActive(a.endDatetime - 1)
    ensures !a.IsActive(a.startDatetime) && !a.IsActive(a.endDatetime)
  {
  }
}
