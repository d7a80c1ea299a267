# What's Open: schedule evaluation

A Dafny model of how the What's Open service decides whether a campus facility
is open at a given instant, and whether an alert is being served. The model
covers two generations of the Django models.

- **The current models** (`whats-open/api/models.py`) have four parts:
  - An `OpenTime` is a recurring weekly window from a start weekday and time to an end weekday and time. Both ends are included. The window wraps past Sunday when the start day is later in the week than the end day.
  - A `Schedule` is open when it carries the 24-hour flag. Otherwise it is open when any of its open times is.
  - A `Facility` first looks at its special schedules. The first one that has both validity bounds set and whose inclusive range contains `now` decides alone. When none qualifies, the main schedule decides.
  - An `Alert` is active strictly between its start and end instants.
- **The legacy models** (`whats_open/website/models.py`) use the same open-time logic. Their schedules have no 24-hour flag, and special schedules are valid on whole dates.

Every clock reading of the original becomes an explicit `now: Instant` argument. An instant counts microseconds since 1970-01-01 00:00 in one reference zone. The date, weekday (Monday = 0) and time of day of `now` are derived from it as Python's `datetime` derives them. Related objects become sequences in the order the database returns them. Each `for` loop that stops at the first match becomes a recursive function over that sequence.

Modules:
- `Calendar` (calendar.dfy) defines instants, dates, weekdays, times of day, and the week-position reading of a weekly window (`InWeeklyWindow`).
- `Api` (api_models.dfy) and `ApiProperties` (api_properties.dfy) hold the current models and their boundary properties.
- `Legacy` (legacy_models.dfy) and `LegacyProperties` (legacy_properties.dfy) do the same for the legacy models.
- `Versions` (versions.dfy) proves that the two generations give the same answers.
- `Wrappers` (wrappers.dfy) defines `Option`, which models nullable columns.

All operations are functions, so evaluating twice with the same data and the same `now` always gives the same answer.

## Model

| member | source | states |
|---|---|---|
| Calendar.DateOf | whats_open/website/models.py:44 | the date of `now` is the day whose midnight is the last one at or before `now` |
| Calendar.TimeOf | whats-open/api/models.py:327-334 | the time of day of `now` is what has elapsed since the midnight of its date |
| Calendar.WeekdayOf | whats-open/api/models.py:327-332 | the weekday of `now` counts days from a Thursday epoch, modulo 7 |
| Api.OpenTime.IsOpenAt | whats-open/api/models.py:322-371 | open iff the week position of (day, time) lies between opening and closing, both included; when start_day > end_day it lies at or after the opening or at or before the closing |
| Api.OpenTime.IsOpenNow | whats-open/api/models.py:322-371 | open iff the week position of the weekday and time of day of `now` lies in the (possibly week-wrapping) window, both ends included |
| Api.AnyOpenNow | whats-open/api/models.py:262-267 | the early-exit loop answers true iff some open time in the list is open at `now` |
| Api.Schedule.IsOpenNow | whats-open/api/models.py:254-267 | a 24-hour schedule is open; any other schedule is open iff one of its open times is |
| Api.Schedule.InEffect | whats-open/api/models.py:199-201 | a schedule missing either validity bound is never in effect; with both set it is in effect iff valid_start <= now <= valid_end, both ends included |
| Api.SpecialOrMainOpen | whats-open/api/models.py:197-205 | the first special schedule in effect (both bounds set, inclusive range) gives the answer; with none in effect the main schedule does |
| Api.Facility.IsOpen | whats-open/api/models.py:189-205 | the facility's answer is that of its first special schedule in effect, else that of its main schedule |
| Api.Alert.IsActive | whats-open/api/models.py:434-440 | active iff `start_datetime < now < end_datetime`: inactive before and at its start, at and after its end, and active at every instant strictly between |
| ApiProperties.NonWrapClosedBeforeStart | whats-open/api/models.py:330-340 | non-wrapping window: closed before the start day and on the start day before the start time |
| ApiProperties.NonWrapClosedAfterEnd | whats-open/api/models.py:342-350 | non-wrapping window: closed after the end day and on the end day after the end time |
| ApiProperties.NonWrapOpenAtBothEnds | whats-open/api/models.py:330-371 | non-wrapping window: open at exactly the start time and exactly the end time |
| ApiProperties.NonWrapOpenAllDayBetween | whats-open/api/models.py:330-371 | non-wrapping window: every day strictly between start and end day is open all day |
| ApiProperties.SameDayInvertedNeverOpen | whats-open/api/models.py:330-350 | a window with equal start and end day and start time after end time is never open |
| ApiProperties.WrapDays | whats-open/api/models.py:352-371 | wrapping window: closed strictly between end day and start day, open all day after the start day or before the end day |
| ApiProperties.WrapStartAndEndDays | whats-open/api/models.py:354-364 | wrapping window: on the start day open iff time >= start time; on the end day open iff time <= end time |
| ApiProperties.WeekdayWindowExamples | whats-open/api/models.py:330-371 | Monday 09:00 to Friday 17:00 is open at both exact ends and all Wednesday, and closed one second outside either end |
| ApiProperties.WeekBoundaryWindowExamples | whats-open/api/models.py:352-371 | Sunday 22:00 to Monday 02:00 is open late Sunday and early Monday, and closed just outside and on Saturday night |
| ApiProperties.TwentyFourHoursAlwaysOpen | whats-open/api/models.py:259-260 | a 24-hour schedule is open at every instant, whatever its open times |
| ApiProperties.NoOpenTimesAlwaysClosed | whats-open/api/models.py:261-267 | a schedule with no 24-hour flag and no open times is always closed |
| ApiProperties.OpenTimeOrderIrrelevant | whats-open/api/models.py:263-267 | reordering a schedule's open times does not change its answer |
| ApiProperties.MissingBoundNeverInEffect | whats-open/api/models.py:199-200 | a schedule missing valid_start or valid_end is never in effect |
| ApiProperties.IneligibleSpecialIgnored | whats-open/api/models.py:198-205 | removing a special schedule not in effect at `now` leaves the facility's answer unchanged |
| ApiProperties.FirstInEffectDecides | whats-open/api/models.py:198-205 | once a special schedule is in effect, later specials and the main schedule are not consulted |
| ApiProperties.SpecialOverridesClosedMain | whats-open/api/models.py:198-205 | with an always-closed main schedule and one 24-hour special valid from t0 to t1, the facility is open exactly on [t0, t1] |
| ApiProperties.AlertStricterThanValidity | whats-open/api/models.py:440 | an alert is active exactly where a schedule with the same bounds is in effect, minus the two end instants |
| ApiProperties.AlertActiveJustInside | whats-open/api/models.py:440 | an alert is active one microsecond inside either end and inactive at both ends |
| Legacy.OpenTime.IsOpenAt | whats_open/website/models.py:118-141 | open iff the week position lies in the (possibly week-wrapping) window, both ends included |
| Legacy.OpenTime.IsOpenNow | whats_open/website/models.py:118-141 | open iff the week position of the weekday and time of day of `now` lies in the (possibly week-wrapping) window, both ends included |
| Legacy.AnyOpenNow | whats_open/website/models.py:82-85 | the early-exit loop answers true iff some open time in the list is open at `now` |
| Legacy.Schedule.IsOpenNow | whats_open/website/models.py:80-85 | a schedule is open iff one of its open times is |
| Legacy.Schedule.InEffectOn | whats_open/website/models.py:48-49 | a schedule missing either date is never in effect; with both set it is in effect on a date iff valid_start <= date <= valid_end, both dates included |
| Legacy.SpecialOrMainOpen | whats_open/website/models.py:46-56 | the first special schedule in effect on the date gives the answer; with none in effect the main schedule does |
| Legacy.Facility.IsOpen | whats_open/website/models.py:36-56 | the answer is that of the first special schedule in effect on the date of `now`, else that of the main schedule |
| LegacyProperties.NonWrapWindow | whats_open/website/models.py:121-131 | non-wrapping window: closed before start and after end, open at both exact ends, open all day in between |
| LegacyProperties.WrapWindow | whats_open/website/models.py:132-141 | wrapping window: closed between end and start day, gated by start time and end time, open all day otherwise |
| LegacyProperties.NoOpenTimesAlwaysClosed | whats_open/website/models.py:80-85 | a schedule with no open times is always closed |
| LegacyProperties.MissingDateNeverInEffect | whats_open/website/models.py:48 | a schedule missing either date is never in effect |
| LegacyProperties.FirstInEffectDecides | whats_open/website/models.py:46-53 | the first special in effect decides even when it reports closed; later specials and the main schedule are not consulted |
| Versions.OpenTimeVersionsAgree | whats_open/website/models.py:118-141 | legacy and current open times with the same fields agree at every weekday and time |
| Versions.ScheduleVersionsAgree | whats_open/website/models.py:80-85 | a legacy schedule answers as the current schedule with the same open times and no 24-hour flag |
| Versions.InEffectVersionsAgree | whats_open/website/models.py:44-49 | date-only validity [first, last] equals instant validity from the midnight of first to the last microsecond of last |
| Versions.FacilityVersionsAgree | whats_open/website/models.py:36-56 | a legacy facility answers at every instant as the current facility with its schedules converted |

## Left out

- Clock reads: `timezone.now()` and `datetime.datetime.today()` are replaced by one `now` argument. The current `Facility.is_open` compares validity against a timezone-aware clock, while `OpenTime.is_open_now` reads a naive local clock. The model assumes both readings are the same instant in one reference zone, so it does not capture a time-zone offset between them.
- Instants are unbounded integers. Python's year range 1 to 9999 is not modelled.
- Persistence is left out: field declarations beyond the data that the evaluation reads, cascade deletes and `OpenTime.objects.filter` queries. Related open times and special schedules are sequences in the order storage returns them.
- Special-schedule order: `special_schedules.all()` returns schedules sorted by name, because of `Schedule.Meta.ordering = ["name"]` (whats-open/api/models.py:269-271, whats_open/website/models.py:77-78). That order decides which of two overlapping special schedules wins. The model takes the sequence as given and does not sort it by name, so callers must pass the specials already in name order. Open times have no declared ordering, and `ApiProperties.OpenTimeOrderIrrelevant` shows their order does not matter.
- Facility and alert fields that play no part in the evaluation are left out: slug, category and location objects, note, logo, owners, Tapingo URL, phone number, product tags, and classifier. Their `RegexValidator`, `AutoSlugField`, `TaggableManager` and `PointField` behaviour belongs to foreign libraries. `Alert` keeps its urgency tag, subject, body and URL as plain strings, and `Category` and `Location` are not modelled.
- The `__str__`/`__unicode__` string formatting is not modelled; it is `strftime` library formatting.
- OpenTime day fields are plain integers, as the database stores them. The weekday choices are enforced only by forms, so the model does not assume them.
- Serializers, views (templates, JSON export, the SHA-1 ETag), URL routing and the admin registration are not part of this model.
