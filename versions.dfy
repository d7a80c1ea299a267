/**
 * The legacy and the current models agree: a legacy open time answers as the
 * current one with the same fields, a legacy schedule as a current schedule
 * without the 24-hour flag, and a legacy facility as a current facility whose
 * special schedules run from the midnight that starts their first date to
 * the last microsecond of their last date.
 */
module Versions {
  import opened Wrappers
  import opened Calendar
  import Legacy
  import Api

  function UpgradeOpenTime(o: Legacy.OpenTime): Api.OpenTime
  {
    Api.OpenTime(o.startDay, o.endDay, o.startTime, o.endTime)
  }

  function UpgradeOpenTimes(os: seq<Legacy.OpenTime>): seq<Api.OpenTime>
  {
    seq(|os|, i requires 0 <= i < |os| => UpgradeOpenTime(os[i]))
  }

  /** The first instant of a date. */
  function StartOfDate(d: Date): Instant { d * MicrosPerDay }

  /** The last instant of a date. */
  function EndOfDate(d: Date): Instant { (d + 1) * MicrosPerDay - 1 }

  function MapOption<T, U>(o: Option<T>, f: T -> U): Option<U>
  {
    if o.Some? then Some(f(o.value)) else None
  }

  function UpgradeSchedule(s: Legacy.Schedule): Api.Schedule
  {
    Api.Schedule(s.name, MapOption(s.validStart, StartOfDate), MapOption(s.validEnd, EndOfDate),
                 false, UpgradeOpenTimes(s.openTimes))
  }

  function UpgradeSchedules(ss: seq<Legacy.Schedule>): seq<Api.Schedule>
  {
    seq(|ss|, i requires 0 <= i < |ss| => UpgradeSchedule(ss[i]))
  }

  function UpgradeFacility(f: Legacy.Facility): Api.Facility
  {
    Api.Facility(f.name, UpgradeSchedule(f.mainSchedule), UpgradeSchedules(f.specialSchedules))
  }

  /** For every weekday and time the two versions of an open time agree. */
  lemma OpenTimeVersionsAgree(o: Legacy.OpenTime, day: Weekday, time: TimeOfDay)
    ensures o.IsOpenAt(day, time) == UpgradeOpenTime(o).IsOpenAt(day, time)
  {
  }

  /** A legacy schedule answers as the current schedule with the same open
      times and no 24-hour flag. */
  lemma ScheduleVersionsAgree(s: Legacy.Schedule, now: Instant)
    ensures s.IsOpenNow(now) == UpgradeSchedule(s).IsOpenNow(now)
  {
    var us := UpgradeSchedule(s).openTimes;
    if s.IsOpenNow(now) {
      var i :| 0 <= i < |s.openTimes| && s.openTimes[i].IsOpenNow(now);
      OpenTimeVersionsAgree(s.openTimes[i], WeekdayOf(now), TimeOf(now));
      assert us[i].IsOpenNow(now);
    }
    if UpgradeSchedule(s).IsOpenNow(now) {
      var i :| 0 <= i < |us| && us[i].IsOpenNow(now);
      OpenTimeVersionsAgree(s.openTimes[i], WeekdayOf(now), TimeOf(now));
      assert s.openTimes[i].IsOpenNow(now);
    }
  }

  /** A legacy schedule is in effect on the date of `now` exactly when its
      upgrade is in effect at `now`. */
  lemma InEffectVersionsAgree(s: Legacy.Schedule, now: Instant)
    ensures s.InEffectOn(DateOf(now)) == UpgradeSchedule(s).InEffect(now)
  {
    if s.validStart.Some? && s.validEnd.Some? {
      DateRangeAsInstants(now, s.validStart.value, s.validEnd.value);
    }
  }

  /** A legacy facility answers at every instant as its upgrade. */
  lemma FacilityVersionsAgree(f: Legacy.Facility, now: Instant)
    ensures f.IsOpen(now) == UpgradeFacility(f).IsOpen(now)
  {
    SpecialsVersionsAgree(f.specialSchedules, f.mainSchedule, now);
  }

  lemma {:induction false} SpecialsVersionsAgree(specials: seq<Legacy.Schedule>, main: Legacy.Schedule, now: Instant)
    ensures Legacy.SpecialOrMainOpen(specials, main, DateOf(now), now)
         == Api.SpecialOrMainOpen(UpgradeSchedules(specials), UpgradeSchedule(main), now)
  {
    var us := UpgradeSchedules(specials);
    if specials == [] {
      ScheduleVersionsAgree(main, now);
    } else {
      InEffectVersionsAgree(specials[0], now);
      if specials[0].InEffectOn(DateOf(now)) {
        ScheduleVersionsAgree(specials[0], now);
      } else {
        SpecialsVersionsAgree(specials[1..], main, now);
        assert us[1..] == UpgradeSchedules(specials[1..]);
      }
    }
  }
}
