/** `next_dagrun_info` and `infer_manual_data_interval` of the nine period-stepping
    timetables.  Their nine copies in the source differ only in the locator they call
    and in how they step from one period to the next, so one method each covers them,
    dispatching on the configuration. */
module PeriodicTimetables {
  import opened Civil
  import opened Schedule
  import opened Locators
  import opened Rules
  import opened Periods

  /** The class's locator for the period holding month (y, m). */
  method Locate(t: Timetable, y: int, m: int) returns (r: int)
    requires Periodic(t) && WellFormed(t) && 1 <= m <= 12
    ensures r == OccAt(t, PeriodOfMonth(t, y, m))
  {
    PeriodOfMonthParts(t, y, m);
    match t {
      case MonthlyLastDay(c, _) =>
        FirstDayOfNextMonth(y, m);
        r := LastDayOfMonth(y, m, c);
      case MonthlyOnDay(day, c, _) =>
        r := RunDateOfMonth(y, m, day, c);
      case MonthlyWeekdayOccurrence(w, n, c, _) =>
        r := NthWeekday(y, m, w, n, c);
      case BusinessDayOfMonth(n, c, _) =>
        r := NthBusinessDay(y, m, n, c);
      case MonthlyLastDayExceptWeekend(c, _) =>
        r := LastDayExceptWeekend(y, m, c);
      case QuarterlyFirstDay(c, _) =>
        r := FirstDayOfQuarter(y, m, c);
      case QuarterlyLastDay(c, _) =>
        FirstDayOfNextMonth(y, QuarterEndMonth(m));
        r := LastDayOfQuarter(y, m, c);
      case YearlyFirstDay(c, _) =>
        r := FirstDayOfYear(y, c);
      case YearlyWeekdayOccurrence(month, w, n, c, _) =>
        r := NthWeekday(y, month, w, n, c);
    }
  }

  /** How `next_dagrun_info` moves (year, month) to the next period: the next month;
      the first month of the next quarter; the next year. */
  function StepPeriod(t: Timetable, y: int, m: int): (int, int) {
    if Quarterly(t) then
      if m <= 3 then (y, 4) else if m <= 6 then (y, 7) else if m <= 9 then (y, 10) else (y + 1, 1)
    else if Yearly(t) then (y + 1, m)
    else NextMonth(y, m)
  }

  /** How `infer_manual_data_interval` moves (year, month) to the previous period;
      the two quarterly classes pick different months of the previous quarter. */
  function PrevPeriod(t: Timetable, y: int, m: int): (int, int) {
    if t.QuarterlyFirstDay? then
      if m <= 3 then (y - 1, 10) else if m <= 6 then (y, 1) else if m <= 9 then (y, 4) else (y, 7)
    else if t.QuarterlyLastDay? then
      if m <= 3 then (y - 1, 12) else if m <= 6 then (y, 3) else if m <= 9 then (y, 6) else (y, 9)
    else if Yearly(t) then (y - 1, m)
    else PrevMonth(y, m)
  }

  lemma StepPeriodIndex(t: Timetable, y: int, m: int)
    requires 1 <= m <= 12
    ensures 1 <= StepPeriod(t, y, m).1 <= 12
    ensures PeriodOfMonth(t, StepPeriod(t, y, m).0, StepPeriod(t, y, m).1) == PeriodOfMonth(t, y, m) + 1
  {
    NextMonthIndex(y, m);
  }

  lemma PrevPeriodIndex(t: Timetable, y: int, m: int)
    requires 1 <= m <= 12
    ensures 1 <= PrevPeriod(t, y, m).1 <= 12
    ensures PeriodOfMonth(t, PrevPeriod(t, y, m).0, PrevPeriod(t, y, m).1) == PeriodOfMonth(t, y, m) - 1
  {
    PrevMonthIndex(y, m);
  }

  /** s is the first run at or after `after`, searching from the period of `after` on. */
  ghost predicate IsNextOccurrence(t: Timetable, after: int, s: int)
    requires Periodic(t) && WellFormed(t)
  {
    s >= after
    && (exists k :: k >= PeriodOfInstant(t, after) && s == OccAt(t, k))
    && (forall j :: j >= PeriodOfInstant(t, after) && OccAt(t, j) >= after ==> s <= OccAt(t, j))
  }

  /** For contained configurations no run of an earlier period reaches `after`, so the
      first run from the period of `after` on is the first run at all. */
  lemma ContainedNextIsFirst(t: Timetable, after: int, s: int)
    requires Periodic(t) && WellFormed(t) && Contained(t) && IsNextOccurrence(t, after, s)
    ensures forall j :: OccAt(t, j) >= after ==> s <= OccAt(t, j)
  {
    RunsAroundInstant(t, after);
  }

  /** The search loop of `next_dagrun_info`: from the year and month of `after`, call
      the locator and step one period until the run is at or after `after`. */
  method NextOccurrence(t: Timetable, after: int) returns (start: int)
    requires Periodic(t) && WellFormed(t)
    ensures IsNextOccurrence(t, after, start)
    ensures Contained(t) ==> forall j :: OccAt(t, j) >= after ==> start <= OccAt(t, j)
  {
    var d := DateOf(after);
    var year, month := d.year, d.month;
    ghost var k0 := PeriodOfMonth(t, year, month);
    ghost var k := k0;
    ghost var bound := SomeRunReaches(t, k0, after);
    var occ := 0;
    while true
      invariant 1 <= month <= 12 && k == PeriodOfMonth(t, year, month) && k0 <= k <= bound
      invariant forall j :: k0 <= j < k ==> OccAt(t, j) < after
      decreases bound - k
    {
      occ := Locate(t, year, month);
      if occ >= after {
        break;
      }
      SearchStep(t, after, k0, k, bound);
      StepPeriodIndex(t, year, month);
      var next := StepPeriod(t, year, month);
      year, month := next.0, next.1;
      k := k + 1;
    }
    start := occ;
    FirstFromPeriod(t, after, k, start);
    if Contained(t) {
      ContainedNextIsFirst(t, after, start);
    }
  }

  /** A run before `after` is not yet the bound, and extends the periods known to run
      before `after` by one. */
  lemma SearchStep(t: Timetable, after: int, k0: int, k: int, bound: int)
    requires Periodic(t) && WellFormed(t) && k <= bound && OccAt(t, bound) >= after && OccAt(t, k) < after
    requires forall j :: k0 <= j < k ==> OccAt(t, j) < after
    ensures k + 1 <= bound
    ensures forall j :: k0 <= j < k + 1 ==> OccAt(t, j) < after
  {
  }

  /** What the search loop leaves behind: a run at or after `after`, every run of the
      periods searched before it earlier than `after`. */
  lemma FirstFromPeriod(t: Timetable, after: int, k: int, s: int)
    requires Periodic(t) && WellFormed(t)
    requires k >= PeriodOfInstant(t, after) && s == OccAt(t, k) && s >= after
    requires forall j :: PeriodOfInstant(t, after) <= j < k ==> OccAt(t, j) < after
    ensures IsNextOccurrence(t, after, s)
  {
    forall j | j >= PeriodOfInstant(t, after) && OccAt(t, j) >= after ensures s <= OccAt(t, j) {
      if k < j {
        OccAtMonotone(t, k, j);
      }
    }
  }

  /** next_dagrun_info of the period-stepping classes: the first run at or after the
      search instant, a one-hour interval, dropped past `restriction.latest` by the
      classes that apply that cutoff. */
  method NextDagrunInfo(t: Timetable, last: Option<DataInterval>, restriction: TimeRestriction, now: int)
    returns (info: Option<DataInterval>)
    requires Periodic(t) && WellFormed(t)
    ensures exists s :: (IsNextOccurrence(t, SearchStart(restriction, last, now), s)
      && info == Cutoff(restriction, HourWindow(s), AppliesCutoff(t)))
    ensures info.Some? ==> (IsNextOccurrence(t, SearchStart(restriction, last, now), info.value.start)
      && info.value.end == info.value.start + SecondsPerHour)
    ensures !AppliesCutoff(t) ==> info.Some?
  {
    var after := SearchStart(restriction, last, now);
    var start := NextOccurrence(t, after);
    info := Cutoff(restriction, HourWindow(start), AppliesCutoff(t));
  }

  /** infer_manual_data_interval of the period-stepping classes: the run of the period
      of `run_after` if it is not later than `run_after`, else the run of the previous
      period; for contained configurations that is the latest run not after
      `run_after`. */
  method InferManualDataInterval(t: Timetable, runAfter: int) returns (r: DataInterval)
    requires Periodic(t) && WellFormed(t)
    ensures r.end == r.start + SecondsPerHour
    ensures r.start == OccAt(t, PeriodOfInstant(t, runAfter)) || r.start == OccAt(t, PeriodOfInstant(t, runAfter) - 1)
    ensures OccAt(t, PeriodOfInstant(t, runAfter)) <= runAfter ==> r.start == OccAt(t, PeriodOfInstant(t, runAfter))
    ensures runAfter < OccAt(t, PeriodOfInstant(t, runAfter)) ==> r.start == OccAt(t, PeriodOfInstant(t, runAfter) - 1)
    ensures Contained(t) ==> r.start <= runAfter
    ensures Contained(t) ==> forall j :: OccAt(t, j) <= runAfter ==> OccAt(t, j) <= r.start
  {
    var year := DateOf(runAfter).year;
    var month := DateOf(runAfter).month;
    ghost var k0 := PeriodOfMonth(t, year, month);
    var occ := Locate(t, year, month);
    if runAfter < occ {
      PrevPeriodIndex(t, year, month);
      year, month := PrevPeriod(t, year, month).0, PrevPeriod(t, year, month).1;
      occ := Locate(t, year, month);
    }
    r := DataInterval(occ, occ + SecondsPerHour);
    if Contained(t) {
      LatestNotAfter(t, runAfter, occ);
    }
  }

  /** The inference step for contained configurations: the run of the period of x if it
      is not later than x, else the previous period's run, is the latest run not after x. */
  lemma LatestNotAfter(t: Timetable, x: int, s: int)
    requires Periodic(t) && WellFormed(t) && Contained(t)
    requires var k0 := PeriodOfInstant(t, x);
      (OccAt(t, k0) <= x && s == OccAt(t, k0)) || (x < OccAt(t, k0) && s == OccAt(t, k0 - 1))
    ensures s <= x
    ensures forall j :: OccAt(t, j) <= x ==> OccAt(t, j) <= s
  {
    var k0 := PeriodOfInstant(t, x);
    RunsAroundInstant(t, x);
    var before, here := OccAt(t, k0 - 1), OccAt(t, k0);
    OccAtMonotone(t, k0 - 1, k0);
    forall j | OccAt(t, j) <= x ensures OccAt(t, j) <= s {
      if j < k0 - 1 {
        OccAtMonotone(t, j, k0 - 1);
        assert OccAt(t, j) < before;
      } else if j == k0 - 1 {
        assert OccAt(t, j) == before;
      } else if j == k0 {
        assert OccAt(t, j) == here;
      }
    }
  }
}
