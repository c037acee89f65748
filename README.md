# Custom interval timetables

A model of `custom_timetables.py`. That file holds a set of Airflow timetables. Each one
turns a calendar rule into run instants. The rules are: the last day of the month; a fixed
day of the month; a list of days of the month; the first or last day of a quarter; the
first day of the year; the n-th weekday of a fixed month; a weekday every week or every
other week; the 15th and the last day of each month; the n-th weekday of each month;
every N days; the n-th business day of each month; the last weekday of the month; and
every N hours and minutes.

Each timetable answers two questions for the scheduler:

- `infer_manual_data_interval`: which data interval a manual run at `run_after` gets;
- `next_dagrun_info`: which interval comes next, given the last automated interval and
  the DAG's time restriction (`earliest`, `latest`, `catchup`).

Each class also writes its settings to a dictionary (`serialize`), reads them back
(`deserialize`) and shows a one-line `description`.

The model works on one naive timeline. An instant is a whole number of seconds; day 0 is
0001-01-01, a Monday, so the weekday of day z is `z % 7` with Monday = 0, as pendulum
numbers them. The Gregorian calendar is written out in `civil.dfy`, with proofs that
dates and day numbers convert both ways. Each timetable is a value of one datatype,
`Rules.Timetable`, because no method of the source changes a timetable after `__init__`.

The modules follow the source's own groups:

- `Locators`: the per-period locator helpers (`_get_last_day`, `_get_nth_weekday`,
  `_get_nth_business_day`, ...). The ones that walk day by day are methods with loops,
  each proved equal to a closed form. The closed form is then proved to count
  occurrences: the n-th Tuesday really is the n-th Tuesday.
- `Periods` and `PeriodicTimetables`: the nine period-stepping classes. Each one's
  runs are numbered by period (month, quarter or year). The runs are proved strictly
  increasing. The search loop of `next_dagrun_info` is proved to return the first run
  at or after its start. `infer_manual_data_interval` is proved to return the latest run
  not after `run_after`.
- `Selectors`: `MonthlyMultipleDays` and `SemiMonthly`.
- `Weekly`: `WeeklyOnDay` and `BiweeklyOnDay`.
- `Intervals`: `EveryNDays` and `EveryNInterval`.
- `Describe`: the descriptions. Each is proved to determine exactly the settings it shows.
- `Codec`: `serialize` / `deserialize`, with the round trip, the defaults and the error
  cases.
- `Schedule`: the shared policy that picks the instant the forward search starts from,
  and the `latest` cutoff.

Two behaviours are worth stating up front:

- `infer_manual_data_interval` of four classes returns the next run, not a run covering
  `run_after`. For `MonthlyMultipleDays` and `SemiMonthly` it is the first run at or
  after `run_after`. For `BiweeklyOnDay` it is the first run strictly after
  `run_after`. For `WeeklyOnDay` the comparison as written (see "## Findings") can
  return a run earlier than `run_after` or skip today's later run. The model's weekly
  operations use the corrected comparison, which gives the first run strictly after
  `run_after`.
- Only eight classes drop a run that starts after `restriction.latest`: the five month,
  quarter and year boundary classes, `MonthlyMultipleDays`, `YearlyWeekdayOccurrence`
  and `EveryNInterval`. The weekly, biweekly, semi-monthly, every-N-days, n-th weekday,
  n-th business day and last-weekday classes never stop. `Rules.AppliesCutoff` names the
  eight, and the `next_dagrun_info` contracts state which classes always return a run.

## Model

| member | source | states |
|---|---|---|
| Schedule.SearchStart | custom_timetables.py:97-109 | the search instant is `earliest` (or now when unset), raised to now without catchup; after a previous interval it is that interval's end, raised to now when catchup is off |
| Schedule.Cutoff | custom_timetables.py:128-129 | no run exactly when the class applies the cutoff, `latest` is set and the start is after it; otherwise the interval itself |
| Schedule.HourWindow | custom_timetables.py:125-126 | the interval starts at the run and lasts one hour |
| Civil.DaysInMonth | custom_timetables.py:288-291 | month lengths lie in 28..31; only February is shorter than 30; it has 29 days exactly in leap years |
| Civil.CivilOfDayNumber | custom_timetables.py:66-74 | converting a date to its day number and back gives the date (the calendar arithmetic `datetime(...).subtract(days=1)` relies on) |
| Civil.DayNumberInjective | custom_timetables.py:66-74 | distinct dates have distinct day numbers |
| Civil.InstantParts | custom_timetables.py:1009 | `datetime(year, month, day, h, m, s)` has that date and that time of day |
| Civil.NextMonthIndex | custom_timetables.py:118-123 | stepping from December to January of the next year, or to month + 1, moves to the following month |
| Civil.PrevMonthIndex | custom_timetables.py:80-85 | stepping back from January to December of the year before, or to month - 1, moves to the preceding month |
| Civil.WeekdayNext | custom_timetables.py:1110-1116 | the weekday of the next day is one more, wrapping from Sunday to Monday |
| Rules.NewMonthlyMultipleDays | custom_timetables.py:252-255 | the stored days are strictly increasing and hold exactly the given days; with none given they are `[1]` |
| Rules.StrictlyIncreasingUnique | custom_timetables.py:255 | two strictly increasing lists with the same members are equal, so `sorted(set(days))` depends only on the set of days |
| Rules.SortedSetIdempotent | custom_timetables.py:255 | normalising an already normalised list of days changes nothing |
| Locators.LastDayOfMonth | custom_timetables.py:66-74 | the run is on the last day of (year, month), at the configured time |
| Locators.RunDateOfMonth | custom_timetables.py:171-176 | the run is in (year, month) at the configured time, on the configured day, or on the last day when the month is shorter |
| Locators.QuarterStartMonth | custom_timetables.py:389-396 | the first month of the quarter holding the month: 1, 4, 7 or 10, at most two months earlier |
| Locators.FirstDayOfQuarter | custom_timetables.py:387-397 | the run is on the 1st of that month, at the configured time |
| Locators.QuarterEndMonth | custom_timetables.py:501-509 | the last month of the quarter holding the month: 3, 6, 9 or 12, at most two months later |
| Locators.LastDayOfQuarter | custom_timetables.py:499-516 | the run is on the last day of that month, at the configured time |
| Locators.FirstDayOfYear | custom_timetables.py:626-628 | the run is on January 1st, at the configured time |
| Locators.WeekdayOnOrAfter | custom_timetables.py:1108-1116 | the first day of the weekday on or after a day: within six days, with no earlier match |
| Locators.WeekdayOnOrBefore | custom_timetables.py:1119-1130 | the last day of the weekday on or before a day: within six days, with no later match |
| Locators.WalkToNthWeekday | custom_timetables.py:1108-1116 | the forward day walk ends n - 1 weeks after the first matching day |
| Locators.WalkBackToNthWeekday | custom_timetables.py:1119-1130 | the backward day walk ends n - 1 weeks before the last matching day |
| Locators.NthWeekday | custom_timetables.py:1104-1131 | `_get_nth_weekday` returns the closed-form day at the configured time |
| Locators.NthWeekdayCounts | custom_timetables.py:1104-1131 | the day has the weekday; for n > 0 it is the n-th such day counting from the 1st; for n < 0 it is the -n-th counting back from the last day |
| Locators.NthWeekdayInMonth | custom_timetables.py:1104-1131 | for 1 <= \|n\| <= 4 the day lies inside the month |
| Locators.BusinessOnOrAfter | custom_timetables.py:1299-1307 | the first Monday-to-Friday day on or after a day: within two days, with only weekend days before it |
| Locators.BusinessOnOrBefore | custom_timetables.py:1308-1320 | the last Monday-to-Friday day on or before a day: within two days, with only weekend days after it |
| Locators.WalkToNthBusinessDay | custom_timetables.py:1299-1307 | the forward day walk ends on the closed-form n-th business day from the start |
| Locators.WalkBackToNthBusinessDay | custom_timetables.py:1308-1320 | the backward day walk ends on the closed-form n-th business day back from the end |
| Locators.BusinessForwardCounts | custom_timetables.py:1299-1307 | that day is a business day, and exactly n business days lie from the start through it |
| Locators.BusinessBackwardCounts | custom_timetables.py:1308-1320 | that day is a business day, and exactly n business days lie from it through the end |
| Locators.NthBusinessDay | custom_timetables.py:1297-1321 | `_get_nth_business_day` returns the closed-form day at the configured time |
| Locators.NthBusinessDayCounts | custom_timetables.py:1297-1321 | the day is a business day and the n-th from the 1st (n > 0), or the -n-th back from the last day (n < 0) |
| Locators.NthBusinessDayInMonth | custom_timetables.py:1297-1321 | for 1 <= \|n\| <= 20 the day lies inside the month |
| Locators.LastDayExceptWeekend | custom_timetables.py:1408-1419 | the walk back from the last day over Saturday and Sunday returns the closed-form day at the configured time |
| Locators.LastWeekdayDay | custom_timetables.py:1408-1419 | a Monday-to-Friday day at most two days before the month's end, with only weekend days after it |
| Locators.LastWeekdayIsLastBusinessDay | custom_timetables.py:1408-1419 | that day is the last business day, as `BusinessDayOfMonth(n=-1)` finds it |
| Periods.OccMonotone | custom_timetables.py:115-124 | the runs of the nine period-stepping classes strictly increase with the period |
| Periods.OccAtMonotone | custom_timetables.py:115-124 | so do their run instants |
| Periods.OccContained | custom_timetables.py:1104-1131 | for \|n\| <= 4 weekdays and \|n\| <= 20 business days (always, for the other classes) the run of a period lies inside it |
| Periods.RunsAroundInstant | custom_timetables.py:75-89 | for those configurations every earlier period's run is before an instant, and every later one's after it |
| Periods.SomeRunReaches | custom_timetables.py:115-124 | from any period on, some later run reaches any instant, so the search loop ends |
| PeriodicTimetables.Locate | custom_timetables.py:66-74 | the class's locator for the period of (year, month) returns that period's run; it dispatches to the locators listed above |
| PeriodicTimetables.StepPeriodIndex | custom_timetables.py:442-455 | next month, first month of the next quarter, or next year: the next period |
| PeriodicTimetables.PrevPeriodIndex | custom_timetables.py:403-413 | the previous month, quarter or year; the two quarterly classes step to different months of it |
| PeriodicTimetables.NextOccurrence | custom_timetables.py:112-124 | the search loop returns the first run at or after the search instant from its period on; for contained configurations it is the first run at all |
| PeriodicTimetables.ContainedNextIsFirst | custom_timetables.py:112-124 | for contained configurations no run of an earlier period reaches the search instant |
| PeriodicTimetables.NextDagrunInfo | custom_timetables.py:91-131 | the first run at or after the search instant, one hour long, dropped past `latest` by the classes that apply the cutoff and never dropped otherwise; one method for the nine copies (also lines 194-234, 419-463, 538-582, 640-674, 741-775, 1148-1176, 1339-1367, 1436-1464) |
| PeriodicTimetables.InferManualDataInterval | custom_timetables.py:75-89 | the run of the period of `run_after` if it is not later, else the previous period's run, one hour long; for contained configurations the latest run not after `run_after`; one method for the nine copies (also lines 178-192, 399-417, 518-536, 630-638, 731-739, 1132-1146, 1323-1337, 1420-1434) |
| PeriodicTimetables.LatestNotAfter | custom_timetables.py:75-89 | this period's run if it is not later than the instant, else the previous one: that is the latest run not after the instant |
| Selectors.ValidDays | custom_timetables.py:293 | exactly the configured days that exist in the month, in increasing order |
| Selectors.TwoMonthsHaveDay | custom_timetables.py:300-312 | with a configured day in 1..31, one of any two consecutive months holds it, so the month loop ends |
| Selectors.FirstRunThisMonth | custom_timetables.py:294-298 | the first valid day of the month whose run is not before `after` gives the first run at or after `after` |
| Selectors.FirstRunLaterMonth | custom_timetables.py:300-312 | after months without a valid day, the first valid day of the next month that has one gives the first run |
| Selectors.DaysNextRun | custom_timetables.py:283-312 | `_get_next_run_date` returns the first run, on a configured day that exists in its month at the configured time, at or after `after` |
| Selectors.LaterMonthRun | custom_timetables.py:300-312 | when no run of the month of `after` qualifies, the loop over the following months returns the first run |
| Selectors.DaysInferManualDataInterval | custom_timetables.py:314-316 | the next run at or after `run_after`, one hour long |
| Selectors.DaysNextDagrunInfo | custom_timetables.py:318-343 | the first run at or after the search instant, one hour long, dropped past `latest` |
| Selectors.SemiNextRunIsFirst | custom_timetables.py:1003-1034 | the earlier of the 15th and the last day that is not before `after`, else the next month's 15th, is the first semi-monthly run at or after `after` |
| Selectors.SemiInferManualDataInterval | custom_timetables.py:1036-1038 | the next semi-monthly run at or after `run_after`, one hour long |
| Selectors.SemiNextDagrunInfo | custom_timetables.py:1040-1053 | the first semi-monthly run at or after the search instant, one hour long, never dropped |
| Weekly.DaysAhead | custom_timetables.py:842 | `(weekday - day_of_week + 7) % 7` with Python's floored modulo: 0..6 days to the next day of that weekday, with no match in between |
| Weekly.WeeklyNextAsWritten | custom_timetables.py:840-845 | as written: a day of the weekday at the configured time, 0 to 7 days after `after`'s date |
| Weekly.WeeklyAsWrittenRunsEarly | custom_timetables.py:843-845 | as written, at 10:15 on the weekday with a 09:30 run, the result is before `after` |
| Weekly.WeeklyAsWrittenSkipsRun | custom_timetables.py:843-845 | as written, at 10:30:30 with a 10:30:45 run, today's run is skipped for next week's |
| Weekly.WeeklyNextRun | custom_timetables.py:840-845 | corrected: the first run of the weekday at the configured time strictly after `after`, 0 to 7 days ahead |
| Weekly.WeeklyNextIsFirst | custom_timetables.py:840-845 | the corrected comparison gives a weekly run after `after` with no weekly run between them |
| Weekly.WeeklyInferManualDataInterval | custom_timetables.py:847-849 | with the corrected comparison: the first weekly run strictly after `run_after`, one hour long |
| Weekly.WeeklyNextDagrunInfo | custom_timetables.py:851-864 | with the corrected comparison: the first weekly run strictly after the search instant, one hour long, never dropped |
| Weekly.BiweeklyFirstRun | custom_timetables.py:926-931 | the first day of the weekday on or after the anchor date, at the configured time |
| Weekly.BiweeklyNextIsFirst | custom_timetables.py:924-941 | `_get_next_biweekly` returns the first point of the fortnight grid from `first_run` that is after `after` (`first_run` itself when `after` precedes it) |
| Weekly.BiweeklyGridIsWeekly | custom_timetables.py:924-941 | every point of that grid is on the configured weekday at the configured time |
| Weekly.BiweeklyInferManualDataInterval | custom_timetables.py:943-945 | the next fortnightly run after `run_after`, one hour long |
| Weekly.BiweeklyNextDagrunInfo | custom_timetables.py:947-960 | the next fortnightly run after the search instant, one hour long, never dropped |
| Intervals.EveryNDaysInferManualDataInterval | custom_timetables.py:1222-1230 | today's run when it is not after `run_after`, else N days earlier; never after `run_after`, N days long, covering `run_after` for N >= 1 |
| Intervals.NextAtClock | custom_timetables.py:1244-1247 | the first instant at the configured time of day not before the search instant, less than a day later |
| Intervals.EveryNDaysNextDagrunInfo | custom_timetables.py:1232-1250 | that instant, with an interval N days long, never dropped |
| Intervals.FloorDiv | custom_timetables.py:1554 | Python's `//`: the quotient rounded down, for either sign of the divisor |
| Intervals.MidnightIsAnchor | custom_timetables.py:1552 | `replace(hour=0, minute=0, second=0)` is the same day at 00:00:00 |
| Intervals.AlignDown | custom_timetables.py:1552-1555 | the latest point of the day's grid not after the instant, for a positive step |
| Intervals.EveryNIntervalInferManualDataInterval | custom_timetables.py:1547-1556 | a ValueError exactly when the total is 0; for a positive total, the grid interval holding `run_after` |
| Intervals.AlignUp | custom_timetables.py:1573-1578 | for a positive total, the first point of the day's grid not before the instant |
| Intervals.EveryNIntervalNextDagrunInfo | custom_timetables.py:1558-1587 | a ValueError exactly when the total is 0; dropped exactly when past `latest`; for a positive total, the later of the previous end and the aligned baseline |
| Describe.WeekdayName | custom_timetables.py:1081 | the name at index `w` of the Monday-to-Sunday list, read as Python reads negative indices |
| Describe.WeeklyLabel | custom_timetables.py:813-819 | the weekday's name for -7..6; otherwise `str(weekday)`, which reads back as that number |
| Describe.WeeklyLabelIdentifies | custom_timetables.py:813-819 | two weekdays get the same label exactly when they name the same day or are the same number |
| Describe.Ordinal | custom_timetables.py:1080 | First to Fourth and Last for 1..4 and -1; `{n}th` otherwise |
| Describe.OrdinalInjective | custom_timetables.py:1080 | different n get different ordinal words |
| Describe.ClockText | custom_timetables.py:47 | `HH:MM` reads back as the hour and the minute |
| Describe.TailIdentifies | custom_timetables.py:47 | the ` at HH:MM (tz)` ending fixes the hour, the minute and the time zone |
| Describe.Unit | custom_timetables.py:1526-1528 | the unit word ends in `s` exactly when the count is not 1 |
| Describe.IntervalText | custom_timetables.py:1523-1529 | the EveryNInterval description; with both counts 0 it is `Every  (tz)` |
| Describe.IntervalIdentifies | custom_timetables.py:1523-1529 | equal descriptions exactly when the hours, the minutes and the time zone are equal |
| Describe.Description | custom_timetables.py:696-704 | every class has a description except YearlyWeekdayOccurrence, which sets none |
| Describe.FixedLeadIdentifies | custom_timetables.py:47 | for the six classes with a fixed text, equal descriptions exactly when the hour, the minute and the time zone are equal (also lines 368, 480, 606, 982-984, 1389) |
| Describe.MonthlyOnDayIdentifies | custom_timetables.py:150 | equal descriptions exactly when the day, the hour, the minute and the time zone are equal |
| Describe.MultipleDaysIdentifies | custom_timetables.py:260-262 | equal descriptions exactly when the printed day lists and the shown fields are equal |
| Describe.WeeklyIdentifies | custom_timetables.py:813-819 | equal descriptions exactly when the labels' weekdays and the shown fields are equal |
| Describe.BiweeklyClassIdentifies | custom_timetables.py:898-901 | equal descriptions exactly when the named weekday, the shown fields and the anchor are equal |
| Describe.OccurrenceClassIdentifies | custom_timetables.py:1080-1081 | equal descriptions exactly when n, the named weekday and the shown fields are equal |
| Describe.EveryNDaysIdentifies | custom_timetables.py:1201 | equal descriptions exactly when N and the shown fields are equal |
| Describe.BusinessDayClassIdentifies | custom_timetables.py:1275-1276 | equal descriptions exactly when n and the shown fields are equal |
| Describe.EveryNIntervalIdentifies | custom_timetables.py:1523-1529 | equal descriptions exactly when the configurations are equal |
| Describe.DescriptionIdentifies | custom_timetables.py:47 | for two timetables of one class, equal descriptions exactly when they agree on everything the description shows (all but the seconds) |
| Codec.SerializeKeys | custom_timetables.py:49-56 | `serialize` writes exactly its class's keys |
| Codec.GetInt | custom_timetables.py:61 | `data.get(key, default)`: the default when the key is missing, the stored integer otherwise, an error for another type |
| Codec.RoundTrip | custom_timetables.py:49-64 | `deserialize(serialize(t)) == t` for every class with a codec, days already normalised and anchors with four-digit years |
| Codec.MultipleDaysRoundTrip | custom_timetables.py:264-281 | the round trip holds for a strictly increasing days list |
| Codec.BiweeklyRoundTrip | custom_timetables.py:903-922 | the round trip holds, the anchor going through `YYYY-MM-DD` |
| Codec.OccurrenceRoundTrip | custom_timetables.py:1083-1102 | the round trip holds for every weekday and n |
| Codec.IntervalRoundTrip | custom_timetables.py:1531-1545 | the round trip holds for every pair of counts |
| Codec.EmptyGivesDefaults | custom_timetables.py:58-64 | an empty dictionary gives every field its constructor default |
| Codec.OtherKeysIgnored | custom_timetables.py:58-64 | keys the class does not read change nothing |
| Codec.WrongTypeFails | custom_timetables.py:60 | a `tz` that is not text is an error |
| Codec.DeserializedDaysSorted | custom_timetables.py:274-281 | a deserialised `MonthlyMultipleDays` has strictly increasing days, whatever list was stored |
| Codec.DateRoundTrip | custom_timetables.py:926 | a date with a four-digit year, written `YYYY-MM-DD`, parses back to itself |
| Codec.DefaultAnchorParses | custom_timetables.py:921 | the default anchor `2024-01-01` is January 1st, 2024 |
| Text.IntToStringRoundTrip | custom_timetables.py:150 | `int(str(n)) == n` for every integer |
| Text.Pad2RoundTrip | custom_timetables.py:47 | a two-digit `{n:02d}` field reads back as n |

## Left out

- Time zones and daylight saving time: every instant sits on one naive timeline. `tz` is carried only as text, for the codec and the descriptions.
- `pendulum.now` / `datetime.now` become a `now` parameter of every `next_dagrun_info`.
- Microseconds: the source zeroes them in every run. The model counts whole seconds.
- `CronTimetable` (lines 1466-1498) and the plugin registration (lines 1589-1608) are not part of this model.
- `YearlyWeekdayOccurrence` has no `serialize` / `deserialize` of its own. The model gives it no codec.
- `pendulum.parse` of the anchor is modelled as a strict `YYYY-MM-DD` reader. The anchor is held as a date, and its description prints that date as `YYYY-MM-DD`. The source prints the stored text verbatim, which differs for other spellings.
- `deserialize` with a value of the wrong type, or an anchor that is not a date, is an error in the model. The source stores the value and fails later, when a method uses it.
- `datetime` and `replace` raise ValueError for an hour, minute or second out of range, a day of 0 or less, or a month outside 1..12 for YearlyWeekdayOccurrence (lines 708 and 721). These, and the walks that never stop (n = 0, a weekday outside 0..6, no day of the list in 1..31), are preconditions (`Rules.WellFormed`).
- Rules.WellFormed: the month range for YearlyWeekdayOccurrence is stricter than the source. With month 0 and n < 0, the source runs without error (`datetime(year, 1, 1)` at line 721) and gives the last matching weekday of the previous December. The model requires 1..12, the range the class documents.
- Intervals.EveryNIntervalInferManualDataInterval, Intervals.AlignUp, Intervals.EveryNIntervalNextDagrunInfo: a negative total is computed as written (Python's floored `//` at lines 1554 and 1575, which can put the start after `run_after` and the end before the start), but the contracts pin the start only for a positive total. For a negative one they state only the interval length, the `latest` condition and the lower bounds.
- Describe.Description: requires a weekday in -7..6 for BiweeklyOnDay and MonthlyWeekdayOccurrence, whose constructors index the weekday list to build the description. Outside that range the source raises IndexError when the timetable is built.
- Describe.Description: YearlyWeekdayOccurrence sets no description of its own, and the model gives `None` for it. Whatever default the host's `Timetable` base class supplies is not part of this model.
- Intervals.EveryNDaysInferManualDataInterval: requires N >= 1 or today's run not after `run_after`, because otherwise the source's loop never ends.
- The proofs that the search returns the first run from the period of `after` on hold for every configuration. They become "first run at all" and "latest run not after" only for contained configurations (n-th weekday with |n| <= 4, n-th business day with |n| <= 20). Beyond those, a run can fall outside its own month.
- Weekly.WeeklyInferManualDataInterval: uses the corrected `Weekly.WeeklyNextRun` instead of the hour-and-minute test at line 843, so it never returns a run before `run_after` and never skips today's later run, unlike the source (see "## Findings").
- Weekly.WeeklyNextDagrunInfo: uses the corrected `Weekly.WeeklyNextRun` instead of the test at line 843, so it differs from the source on the same inputs.
- Years are unbounded integers. Python's `datetime` raises ValueError outside years 1..9999, for example `datetime(year + 1, 1, 1)` at line 69 for an `after` in December 9999. The model returns a run there instead.
- Describe.DescriptionIdentifies: requires a clock in range and a four-digit anchor year (`Describe.Describable`). Outside those, `HH:MM` and `YYYY-MM-DD` change width.

## Findings

| source | as written | input that shows it | evidently intended | confidence | as-written member | corrected member |
|---|---|---|---|---|---|---|
| custom_timetables.py:843-845 | `WeeklyOnDay._get_next_weekday` skips to next week only when `after.hour >= hour and after.minute >= minute`, comparing the hour and the minute on their own and ignoring the seconds | on the configured weekday, run 09:30 and `after` 10:15: the minute test fails, so it returns today 09:30, before `after`. Run 10:30:45 and `after` 10:30:30: both tests pass, so today's later run is skipped for next week's | compare the whole time of day, returning the first weekly run after `after` | not executed | Weekly.WeeklyAsWrittenRunsEarly | Weekly.WeeklyNextIsFirst |

`Weekly.WeeklyNextAsWritten` models the comparison as written. `Weekly.WeeklyAsWrittenSkipsRun` exhibits the second input. `Weekly.WeeklyNextRun` is the corrected locator, which the weekly `infer_manual_data_interval` and `next_dagrun_info` use.
