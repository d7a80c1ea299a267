/**
 * The open/closed evaluation of the current models: a facility's main
 * schedule, its special schedules with validity ranges, the weekly open
 * times of each schedule, and time-bounded alerts. Every clock reading of the
 * original becomes the explicit `now` argument.
 */
module Api {
  import opened Wrappers
  import opened Calendar

  /** A recurring weekly period during which a facility is open: from
      `startTime` on `startDay` to `endTime` on `endDay`, both ends included.
      It crosses the week boundary when `startDay > endDay`. */
  datatype OpenTime = OpenTime(startDay: int, endDay: int, startTime: TimeOfDay, endTime: TimeOfDay)
  {
    /** Whether the point (`day`, `time`) of the week lies in this period:
        the week positions from the opening to the closing point, wrapping
        past Sunday when the start day comes after the end day. */
    function IsOpenAt(day: Weekday, time: TimeOfDay): (open: bool)
      ensures open <==> InWeeklyWindow(WeekPosition(startDay, startTime), WeekPosition(endDay, endTime),
                                       startDay > endDay, WeekPosition(day, time))
    {
      WeekPositionOrder(startDay, startTime, day, time);
      WeekPositionOrder(day, time, endDay, endTime);
      if startDay <= endDay then
        if startDay == day && startTime > time then false
        else if startDay != day && startDay > day then false
        else if endDay == day && endTime < time then false
        else if endDay != day && endDay < day then false
        else true
      else
        if startDay == day && startTime > time then false
        else if endDay == day && endTime < time then false
        else if endDay < day < startDay then false
        else true
    }

    /** Whether this period is open at the instant `now`. */
    function IsOpenNow(now: Instant): (open: bool)
      ensures open <==> InWeeklyWindow(WeekPosition(startDay, startTime), WeekPosition(endDay, endTime),
                                       startDay > endDay, WeekPosition(WeekdayOf(now), TimeOf(now)))
    {
      IsOpenAt(WeekdayOf(now), TimeOf(now))
    }
  }

  /** Whether some open time in `openTimes` is open at `now`, trying them in
      stored order and stopping at the first that is. */
  function AnyOpenNow(openTimes: seq<OpenTime>, now: Instant): (open: bool)
    ensures open <==> exists i :: 0 <= i < |openTimes| && openTimes[i].IsOpenNow(now)
  {
    if openTimes == [] then false
    else if openTimes[0].IsOpenNow(now) then true
    else AnyOpenNow(openTimes[1..], now)
  }

  /** A named collection of open times. With both validity bounds set it is a
      special schedule, in effect from `validStart` to `validEnd` inclusive. */
  datatype Schedule = Schedule(
    name: string,
    validStart: Option<Instant>,
    validEnd: Option<Instant>,
    twentyFourHours: bool,
    openTimes: seq<OpenTime>)
  {
    /** Whether the schedule is open at `now`: always when it is a 24-hour
        schedule, otherwise exactly when one of its open times is. */
    function IsOpenNow(now: Instant): (open: bool)
      ensures twentyFourHours ==> open
      ensures !twentyFourHours ==> (open <==> exists i :: 0 <= i < |openTimes| && openTimes[i].IsOpenNow(now))
    {
      if twentyFourHours then true
      else AnyOpenNow(openTimes, now)
    }

    /** Whether this schedule, listed as special, overrides the main schedule
        at `now`: both bounds are set and `now` lies between them, inclusive. */
    function InEffect(now: Instant): (inEffect: bool)
      ensures validStart.None? || validEnd.None? ==> !inEffect
      ensures validStart.Some? && validEnd.Some? ==> (inEffect <==> validStart.value <= now <= validEnd.value)
    {
      validStart.Some? && validEnd.Some? && validStart.value <= now <= validEnd.value
    }
  }

  /** No schedule of `schedules` is in effect at `now`. */
  predicate NoneInEffect(schedules: seq<Schedule>, now: Instant)
  {
    forall j :: 0 <= j < |schedules| ==> !schedules[j].InEffect(now)
  }

  /** The answer of the first special schedule in effect at `now`, or, when
      none is, the answer of `main`. */
  function SpecialOrMainOpen(specials: seq<Schedule>, main: Schedule, now: Instant): (open: bool)
    ensures forall i :: 0 <= i < |specials| && specials[i].InEffect(now) && NoneInEffect(specials[..i], now)
                        ==> open == specials[i].IsOpenNow(now)
    ensures NoneInEffect(specials, now) ==> open == main.IsOpenNow(now)
  {
    if specials == [] then main.IsOpenNow(now)
    else if specials[0].InEffect(now) then specials[0].IsOpenNow(now)
    else
      var rest := SpecialOrMainOpen(specials[1..], main, now);
      assert forall i :: 1 <= i < |specials| ==> specials[1..][..i - 1] == specials[..i][1..];
      rest
  }

  /** A facility with a default schedule and special schedules that override
      it while they are in effect. */
  datatype Facility = Facility(facilityName: string, mainSchedule: Schedule, specialSchedules: seq<Schedule>)
  {
    /** Whether the facility is open at `now`: the first special schedule in
        effect decides alone; when none is, the main schedule decides. */
    function IsOpen(now: Instant): (open: bool)
      ensures forall i :: 0 <= i < |specialSchedules| && specialSchedules[i].InEffect(now)
                          && NoneInEffect(specialSchedules[..i], now)
                          ==> open == specialSchedules[i].IsOpenNow(now)
      ensures NoneInEffect(specialSchedules, now) ==> open == mainSchedule.IsOpenNow(now)
    {
      SpecialOrMainOpen(specialSchedules, mainSchedule, now)
    }
  }

  /** A notice shown to clients between two instants. */
  datatype Alert = Alert(
    urgencyTag: string,
    subject: string,
    body: string,
    url: string,
    startDatetime: Instant,
    endDatetime: Instant)
  {
    /** Whether the alert is being served at `now`: strictly after its start
        and strictly before its end. */
    function IsActive(now: Instant): (active: bool)
      ensures active ==> startDatetime < now < endDatetime
      ensures now == startDatetime || now == endDatetime ==> !active
      ensures startDatetime < now < endDatetime ==> active
    {
      startDatetime < now < endDatetime
    }
  }
}
