/**
 * The open/closed evaluation of the legacy models: schedules without a
 * 24-hour flag whose special validity range is given by whole dates, and
 * weekly open times evaluated as in the current models.
 */
module Legacy {
  import opened Wrappers
  import opened Calendar

  /** A recurring weekly open period from `startTime` on `startDay` to
      `endTime` on `endDay`, both ends included. */
  datatype OpenTime = OpenTime(startDay: int, startTime: TimeOfDay, endDay: int, endTime: TimeOfDay)
  {
    /** Whether the point (`day`, `time`) of the week lies in this period. */
    function IsOpenAt(day: Weekday, time: TimeOfDay): (open: bool)
      ensures open <==> InWeeklyWindow(WeekPosition(startDay, startTime), WeekPosition(endDay, endTime),
                                       startDay > endDay, WeekPosition(day, time))
    {
      WeekPositionOrder(startDay, startTime, day, time);
      WeekPositionOrder(day, time, endDay, endTime);
      if startDay <= endDay then
        if startDay == day && startTime > time then false
        else if startDay != day && startDay > day then false
        else if endDay == day && endTime < time then false
        else if endDay != day && endDay < day then false
        else true
      else
        if startDay == day && startTime > time then false
        else if endDay == day && endTime < time then false
        else if endDay < day < startDay then false
        else true
    }

    /** Whether this period is open at the instant `now`. */
    function IsOpenNow(now: Instant): (open: bool)
      ensures open <==> InWeeklyWindow(WeekPosition(startDay, startTime), WeekPosition(endDay, endTime),
                                       startDay > endDay, WeekPosition(WeekdayOf(now), TimeOf(now)))
    {
      IsOpenAt(WeekdayOf(now), TimeOf(now))
    }
  }

  /** Whether some open time in `openTimes` is open at `now`, trying them in
      stored order and stopping at the first that is. */
  function AnyOpenNow(openTimes: seq<OpenTime>, now: Instant): (open: bool)
    ensures open <==> exists i :: 0 <= i < |openTimes| && openTimes[i].IsOpenNow(now)
  {
    if openTimes == [] then false
    else if openTimes[0].IsOpenNow(now) then true
    else AnyOpenNow(openTimes[1..], now)
  }

  /** A named collection of open times; with both dates set, a special
      schedule in effect on every date from `validStart` to `validEnd`. */
  datatype Schedule = Schedule(
    name: string,
    validStart: Option<Date>,
    validEnd: Option<Date>,
    openTimes: seq<OpenTime>)
  {
    /** Whether the schedule is open at `now`: exactly when one of its open
        times is (there is no always-open flag). */
    function IsOpenNow(now: Instant): (open: bool)
      ensures open <==> exists i :: 0 <= i < |openTimes| && openTimes[i].IsOpenNow(now)
    {
      AnyOpenNow(openTimes, now)
    }

    /** Whether this schedule, listed as special, overrides the main schedule
        on the date `today`: both dates are set and `today` lies between them,
        inclusive. */
    function InEffectOn(today: Date): (inEffect: bool)
      ensures validStart.None? || validEnd.None? ==> !inEffect
      ensures validStart.Some? && validEnd.Some? ==> (inEffect <==> validStart.value <= today <= validEnd.value)
    {
      validStart.Some? && validEnd.Some? && validStart.value <= today <= validEnd.value
    }
  }

  /** No schedule of `schedules` is in effect on `today`. */
  predicate NoneInEffectOn(schedules: seq<Schedule>, today: Date)
  {
    forall j :: 0 <= j < |schedules| ==> !schedules[j].InEffectOn(today)
  }

  /** The answer at `now` of the first special schedule in effect on
      `today`, or, when none is, the answer of `main`. */
  function SpecialOrMainOpen(specials: seq<Schedule>, main: Schedule, today: Date, now: Instant): (open: bool)
    ensures forall i :: 0 <= i < |specials| && specials[i].InEffectOn(today) && NoneInEffectOn(specials[..i], today)
                        ==> open == specials[i].IsOpenNow(now)
    ensures NoneInEffectOn(specials, today) ==> open == main.IsOpenNow(now)
  {
    if specials == [] then main.IsOpenNow(now)
    else if specials[0].InEffectOn(today) then specials[0].IsOpenNow(now)
    else
      var rest := SpecialOrMainOpen(specials[1..], main, today, now);
      assert forall i :: 1 <= i < |specials| ==> specials[1..][..i - 1] == specials[..i][1..];
      rest
  }

  /** A dining location with a default schedule and date-bounded special
      schedules. */
  datatype Facility = Facility(
    name: string,
    facilityCategory: Option<string>,
    location: Option<string>,
    mainSchedule: Schedule,
    specialSchedules: seq<Schedule>)
  {
    /** Whether the facility is open at `now`: the first special schedule in
        effect on the date of `now` decides alone; when none is, the main
        schedule decides. */
    function IsOpen(now: Instant): (open: bool)
      ensures forall i :: 0 <= i < |specialSchedules| && specialSchedules[i].InEffectOn(DateOf(now))
                          && NoneInEffectOn(specialSchedules[..i], DateOf(now))
                          ==> open == specialSchedules[i].IsOpenNow(now)
      ensures NoneInEffectOn(specialSchedules, DateOf(now)) ==> open == mainSchedule.IsOpenNow(now)
    {
      SpecialOrMainOpen(specialSchedules, mainSchedule, DateOf(now), now)
    }
  }
}
