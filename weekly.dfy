/** WeeklyOnDay and BiweeklyOnDay: a configured weekday at a configured time of day,
    every week, or every other week counted from an anchor date. */
module Weekly {
  import opened Civil
  import opened Schedule
  import opened Rules

  /** A run of a weekly rule: weekday `w` (taken modulo 7, as Python's `%` does for
      any integer) at time of day c. */
  predicate IsWeeklyRun(w: int, c: Clock, s: int) {
    ClockOf(s) == c && Weekday(DayOf(s)) == w % 7
  }

  /** r is the first run strictly after `after`. */
  predicate IsNextWeeklyRun(w: int, c: Clock, after: int, r: int) {
    r > after && IsWeeklyRun(w, c, r) && forall s :: s > after && IsWeeklyRun(w, c, s) ==> r <= s
  }

  /** `(self.weekday - after.day_of_week + 7) % 7`: the days from day z to the next day
      (z itself included) of weekday w. */
  function DaysAhead(w: int, z: int): (n: int)
    ensures 0 <= n < 7 && Weekday(z + n) == w % 7
    ensures forall d :: z <= d < z + n ==> Weekday(d) != w % 7
  {
    var n := (w - Weekday(z) + 7) % 7;
    DaysAheadCases(w, z);
    WeekdayAdd(z, n);
    forall d | z <= d < z + n ensures Weekday(d) != w % 7 {
      WeekdayAdd(z, d - z);
    }
    n
  }

  /** The instant at time c, 0 to 7 days after day z, that DaysAhead or a week
      later gives, is a run of weekday w. */
  lemma WeekdayRun(w: int, z: int, ahead: int, c: Clock)
    requires ValidClock(c)
    requires ahead == DaysAhead(w, z) || (ahead == 7 && DaysAhead(w, z) == 0)
    ensures IsWeeklyRun(w, c, At(z + ahead, c)) && DayOf(At(z + ahead, c)) == z + ahead
  {
    WeekdayAhead(w, z, ahead);
    RunOnDay(w, z + ahead, c);
  }

  lemma WeekdayAhead(w: int, z: int, ahead: int)
    requires ahead == DaysAhead(w, z) || (ahead == 7 && DaysAhead(w, z) == 0)
    ensures Weekday(z + ahead) == w % 7
  {
    if ahead == 7 {
      WeekLater(z);
    }
  }

  /** Time c on a day of weekday w is a run. */
  lemma RunOnDay(w: int, z: int, c: Clock)
    requires ValidClock(c) && Weekday(z) == w % 7
    ensures IsWeeklyRun(w, c, At(z, c)) && DayOf(At(z, c)) == z
  {
    AtParts(z, c);
  }

  /** The six days after day z have weekdays other than z's. */
  lemma OtherDaysOfWeek(z: int, d: int)
    ensures z < d < z + 7 ==> Weekday(d) != Weekday(z)
  {
    if z < d < z + 7 {
      WeekdayAdd(z, d - z);
    }
  }

  /** A week later, and whole weeks later, the weekday is the same. */
  lemma WeekLater(z: int)
    ensures Weekday(z + 7) == Weekday(z)
  {
  }

  lemma WeeksLater(z: int, q: int)
    ensures Weekday(z + 7 * q) == Weekday(z)
  {
    assert z + 7 * q == 7 * (z / 7 + q) + z % 7;
  }

  /** A grid point is a whole number of fortnights after the start of the grid. */
  lemma FortnightSteps(first: int, s: int) returns (q: int)
    requires OnFortnightGrid(first, s)
    ensures q >= 0 && s == first + q * 1209600
  {
    q := (s - first) / 1209600;
  }

  lemma DaysAheadCases(w: int, z: int)
    ensures (w - Weekday(z) + 7) % 7 == if w % 7 >= Weekday(z) then w % 7 - Weekday(z) else w % 7 - Weekday(z) + 7
  {
    var q, wm := w / 7, w % 7;
    assert w == 7 * q + wm;
    assert w - Weekday(z) + 7 == 7 * (q + 1) + (wm - Weekday(z));
  }

  lemma WeekdayAdd(z: int, i: int)
    requires 0 <= i < 7
    ensures Weekday(z + i) == if Weekday(z) + i < 7 then Weekday(z) + i else Weekday(z) + i - 7
  {
    var q := z / 7;
    assert z == 7 * q + Weekday(z);
    if Weekday(z) + i < 7 {
      assert z + i == 7 * q + (Weekday(z) + i);
    } else {
      assert z + i == 7 * (q + 1) + (Weekday(z) + i - 7);
    }
  }

  /** WeeklyOnDay._get_next_weekday as written: the week is skipped when the hour and
      the minute of `after` are each at least the configured ones; the seconds are
      not compared. */
  function WeeklyNextAsWritten(w: int, c: Clock, after: int): (r: int)
    requires ValidClock(c)
    ensures IsWeeklyRun(w, c, r)
    ensures DayOf(after) <= DayOf(r) <= DayOf(after) + 7
  {
    var z := DayOf(after);
    var n := DaysAhead(w, z);
    var a := ClockOf(after);
    var ahead := if n == 0 && a.hour >= c.hour && a.minute >= c.minute then 7 else n;
    WeekdayRun(w, z, ahead, c);
    At(z + ahead, c)
  }

  /** Day number 738885, 2024-01-01, is a Monday. */
  lemma FirstMonday2024()
    ensures DayNumber(Date(2024, 1, 1)) == 738885 && Weekday(738885) == 0
  {
  }

  /** A day is zero days ahead of its own weekday. */
  lemma TodayAhead(z: int)
    ensures Weekday(z) % 7 == Weekday(z) && DaysAhead(Weekday(z), z) == 0
  {
  }

  /** On any day (Monday 2024-01-01 among them) at 10:15, a rule for that weekday at
      09:30 is given 09:30 of the same day: a run before `after`, because 15 < 30
      keeps the week. */
  lemma WeeklyAsWrittenRunsEarly(z: int)
    ensures WeeklyNextAsWritten(Weekday(z), Clock(9, 30, 0), At(z, Clock(10, 15, 0))) < At(z, Clock(10, 15, 0))
  {
    var after := At(z, Clock(10, 15, 0));
    TodayAhead(z);
    AtParts(z, Clock(10, 15, 0));
    AsWrittenSameDay(Weekday(z), Clock(9, 30, 0), after);
    AtOrder(z, Clock(9, 30, 0), z, Clock(10, 15, 0));
  }

  /** When today is the configured weekday and either the hour or the minute of
      `after` is below the configured one, the rule as written keeps today's run. */
  lemma AsWrittenSameDay(w: int, c: Clock, after: int)
    requires ValidClock(c) && DaysAhead(w, DayOf(after)) == 0
    requires !(ClockOf(after).hour >= c.hour && ClockOf(after).minute >= c.minute)
    ensures WeeklyNextAsWritten(w, c, after) == At(DayOf(after), c)
  {
  }

  /** When today is the configured weekday and both the hour and the minute of `after`
      are at least the configured ones, the rule as written moves a week ahead. */
  lemma AsWrittenNextWeek(w: int, c: Clock, after: int)
    requires ValidClock(c) && DaysAhead(w, DayOf(after)) == 0
    requires ClockOf(after).hour >= c.hour && ClockOf(after).minute >= c.minute
    ensures WeeklyNextAsWritten(w, c, after) == At(DayOf(after) + 7, c)
  {
  }

  /** On the same day at 10:30:30, a 10:30:45 rule is sent a week ahead, skipping the
      run fifteen seconds later. */
  lemma WeeklyAsWrittenSkipsRun(z: int)
    ensures IsWeeklyRun(Weekday(z), Clock(10, 30, 45), At(z, Clock(10, 30, 45)))
    ensures At(z, Clock(10, 30, 30)) < At(z, Clock(10, 30, 45))
    ensures WeeklyNextAsWritten(Weekday(z), Clock(10, 30, 45), At(z, Clock(10, 30, 30))) == At(z + 7, Clock(10, 30, 45))
  {
    var after := At(z, Clock(10, 30, 30));
    TodayAhead(z);
    RunOnDay(Weekday(z), z, Clock(10, 30, 45));
    AtParts(z, Clock(10, 30, 30));
    AsWrittenNextWeek(Weekday(z), Clock(10, 30, 45), after);
  }

  /** WeeklyOnDay._get_next_weekday with the time of day compared as a whole: the
      configured weekday and time 0 to 7 days after `after`'s date, a full week ahead
      only when today's run is not after `after`. */
  function WeeklyNextRun(w: int, c: Clock, after: int): (r: int)
    requires ValidClock(c)
    ensures IsNextWeeklyRun(w, c, after, r)
    ensures DayOf(after) <= DayOf(r) <= DayOf(after) + 7
  {
    var ahead := DaysAhead(w, DayOf(after));
    var ahead := if ahead == 0 && SecondsOfClock(ClockOf(after)) >= SecondsOfClock(c) then 7 else ahead;
    var r := At(DayOf(after) + ahead, c);
    WeeklyNextIsFirst(w, c, after, ahead, r);
    r
  }

  /** On day numbers: a day of weekday w that is not before day z, and is z itself only
      when today's run is still ahead (`!passed`), is at least `ahead` days after z. */
  lemma WeeklyDayBound(w: int, z: int, passed: bool, ahead: int, d: int)
    requires ahead == (if DaysAhead(w, z) == 0 && passed then 7 else DaysAhead(w, z))
    requires Weekday(d) == w % 7 && d >= z && (d == z ==> !passed)
    ensures d >= z + ahead
  {
    OtherDaysOfWeek(z, d);
  }

  /** A run strictly after `after` is not before the one WeeklyNextRun picks. */
  lemma WeeklyNotBefore(w: int, c: Clock, after: int, ahead: int, s: int)
    requires ValidClock(c)
    requires ahead == (if DaysAhead(w, DayOf(after)) == 0 && SecondsOfClock(ClockOf(after)) >= SecondsOfClock(c)
                       then 7 else DaysAhead(w, DayOf(after)))
    requires s > after && IsWeeklyRun(w, c, s)
    ensures At(DayOf(after) + ahead, c) <= s
  {
    var z, d := DayOf(after), DayOf(s);
    RunDayAfter(c, after, s);
    WeeklyDayBound(w, z, SecondsOfClock(ClockOf(after)) >= SecondsOfClock(c), ahead, d);
    AtOrder(d, c, z + ahead, c);
  }

  /** A run at time c strictly after `after` falls on `after`'s day or later, and on
      that day only when c is later in the day than `after`. */
  lemma RunDayAfter(c: Clock, after: int, s: int)
    requires ValidClock(c) && ClockOf(s) == c && s > after
    ensures s == At(DayOf(s), c)
    ensures DayOf(s) >= DayOf(after)
    ensures DayOf(s) == DayOf(after) ==> SecondsOfClock(c) > SecondsOfClock(ClockOf(after))
  {
    RunIsAt(c, s);
    CompareWithInstant(DayOf(s), c, after);
  }

  lemma RunIsAt(c: Clock, s: int)
    requires ClockOf(s) == c
    ensures s == At(DayOf(s), c)
  {
    SplitInstant(s);
  }

  lemma WeeklyNextIsFirst(w: int, c: Clock, after: int, ahead: int, r: int)
    requires ValidClock(c)
    requires ahead == (if DaysAhead(w, DayOf(after)) == 0 && SecondsOfClock(ClockOf(after)) >= SecondsOfClock(c)
                       then 7 else DaysAhead(w, DayOf(after)))
    requires r == At(DayOf(after) + ahead, c)
    ensures IsNextWeeklyRun(w, c, after, r)
    ensures DayOf(after) <= DayOf(r) <= DayOf(after) + 7
  {
    var z := DayOf(after);
    WeekdayRun(w, z, ahead, c);
    CompareWithInstant(z + ahead, c, after);
    forall s | s > after && IsWeeklyRun(w, c, s) ensures r <= s {
      WeeklyNotBefore(w, c, after, ahead, s);
    }
  }

  /** WeeklyOnDay.infer_manual_data_interval: the hour from the next run after
      `run_after`. */
  function WeeklyInferManualDataInterval(t: Timetable, runAfter: int): (r: DataInterval)
    requires t.WeeklyOnDay? && WellFormed(t)
    ensures IsNextWeeklyRun(t.weekday, t.clock, runAfter, r.start)
    ensures r.end == r.start + SecondsPerHour
  {
    HourWindow(WeeklyNextRun(t.weekday, t.clock, runAfter))
  }

  /** WeeklyOnDay.next_dagrun_info: the hour from the next run after the search start;
      no `latest` cutoff. */
  function WeeklyNextDagrunInfo(t: Timetable, last: Option<DataInterval>, restriction: TimeRestriction, now: int)
    : (info: Option<DataInterval>)
    requires t.WeeklyOnDay? && WellFormed(t)
    ensures info.Some?
    ensures IsNextWeeklyRun(t.weekday, t.clock, SearchStart(restriction, last, now), info.value.start)
    ensures info.value.end == info.value.start + SecondsPerHour
  {
    Some(HourWindow(WeeklyNextRun(t.weekday, t.clock, SearchStart(restriction, last, now))))
  }

  // ----- BiweeklyOnDay -----

  /** `first_run`: weekday w, 0 to 6 days on or after the anchor date, at time c. */
  function BiweeklyFirstRun(w: int, c: Clock, anchor: Date): (r: int)
    requires ValidDate(anchor) && ValidClock(c)
    ensures IsWeeklyRun(w, c, r)
    ensures DayNumber(anchor) <= DayOf(r) < DayNumber(anchor) + 7
    ensures forall z :: DayNumber(anchor) <= z < DayOf(r) ==> Weekday(z) != w % 7
  {
    var a := DayNumber(anchor);
    var n := DaysAhead(w, a);
    WeekdayRun(w, a, n, c);
    At(a + n, c)
  }

  /** BiweeklyOnDay._get_next_biweekly: `first_run` when `after` precedes it; otherwise
      the cycle count from the whole days elapsed, one cycle more when `after` is past
      the first fourteen days, and one more still when that run is not after `after`. */
  function BiweeklyNextRun(w: int, c: Clock, anchor: Date, after: int): (r: int)
    requires ValidDate(anchor) && ValidClock(c)
  {
    var first := BiweeklyFirstRun(w, c, anchor);
    if after < first then first
    else
      var deltaDays := (after - first) / 86400;
      var cycles := deltaDays / 14 + (if after <= first + 13 * 86400 + 23 * 3600 + 59 * 60 + 59 then 0 else 1);
      var next := first + cycles * 1209600;
      if next <= after then next + 1209600 else next
  }

  /** s is a point of the fourteen-day grid that starts at `first`. */
  predicate OnFortnightGrid(first: int, s: int) {
    s >= first && (s - first) % 1209600 == 0
  }

  /** r is the first grid point strictly after `after`: the grid point before it is
      not after `after`, or r is the start of the grid. */
  predicate IsNextBiweeklyRun(first: int, after: int, r: int) {
    OnFortnightGrid(first, r) && r > after && (r == first || r - 1209600 <= after)
  }

  /** The result is the first point strictly after `after` of the fourteen-day grid
      that starts at `first_run`. */
  lemma BiweeklyNextIsFirst(w: int, c: Clock, anchor: Date, after: int)
    requires ValidDate(anchor) && ValidClock(c)
    ensures IsNextBiweeklyRun(BiweeklyFirstRun(w, c, anchor), after, BiweeklyNextRun(w, c, anchor, after))
  {
    var first := BiweeklyFirstRun(w, c, anchor);
    if after >= first {
      var deltaDays := (after - first) / 86400;
      assert deltaDays * 86400 <= after - first < deltaDays * 86400 + 86400;
      var q := deltaDays / 14;
      assert 14 * q <= deltaDays < 14 * q + 14;
      if after <= first + 1209599 {
        assert q == 0;
      } else {
        var r := first + (q + 1) * 1209600;
        assert r > after;
        assert (r - first) % 1209600 == 0;
      }
    }
  }

  /** The grid points are the runs of `first_run`'s weekday and time on or after it
      whose distance from it is a whole number of fortnights. */
  lemma BiweeklyGridIsWeekly(w: int, c: Clock, anchor: Date, s: int)
    requires ValidDate(anchor) && ValidClock(c)
    requires OnFortnightGrid(BiweeklyFirstRun(w, c, anchor), s)
    ensures IsWeeklyRun(w, c, s)
  {
    var first := BiweeklyFirstRun(w, c, anchor);
    var z := DayOf(first);
    var q := FortnightSteps(first, s);
    RunIsAt(c, first);
    FortnightsAt(z, c, q);
    RunFortnightsLater(w, c, z, q);
  }

  /** q fortnights after time c on day z is time c on day z + 14q. */
  lemma FortnightsAt(z: int, c: Clock, q: int)
    ensures At(z, c) + q * 1209600 == At(z + 14 * q, c)
  {
  }

  /** Time c on a day 14q days after a day of weekday w is a run of w. */
  lemma RunFortnightsLater(w: int, c: Clock, z: int, q: int)
    requires ValidClock(c) && Weekday(z) == w % 7
    ensures IsWeeklyRun(w, c, At(z + 14 * q, c))
  {
    WeeksLater(z, 2 * q);
    assert z + 7 * (2 * q) == z + 14 * q;
    RunOnDay(w, z + 14 * q, c);
  }

  /** BiweeklyOnDay.infer_manual_data_interval: the hour from the next run after
      `run_after`. */
  function BiweeklyInferManualDataInterval(t: Timetable, runAfter: int): (r: DataInterval)
    requires t.BiweeklyOnDay? && WellFormed(t)
    ensures IsNextBiweeklyRun(BiweeklyFirstRun(t.weekday, t.clock, t.anchor), runAfter, r.start)
    ensures IsWeeklyRun(t.weekday, t.clock, r.start)
    ensures r.end == r.start + SecondsPerHour
  {
    var start := BiweeklyNextRun(t.weekday, t.clock, t.anchor, runAfter);
    BiweeklyNextIsFirst(t.weekday, t.clock, t.anchor, runAfter);
    BiweeklyGridIsWeekly(t.weekday, t.clock, t.anchor, start);
    HourWindow(start)
  }

  /** BiweeklyOnDay.next_dagrun_info: the hour from the next run after the search
      start; no `latest` cutoff. */
  function BiweeklyNextDagrunInfo(t: Timetable, last: Option<DataInterval>, restriction: TimeRestriction, now: int)
    : (info: Option<DataInterval>)
    requires t.BiweeklyOnDay? && WellFormed(t)
    ensures info.Some?
    ensures IsNextBiweeklyRun(BiweeklyFirstRun(t.weekday, t.clock, t.anchor), SearchStart(restriction, last, now),
                              info.value.start)
    ensures IsWeeklyRun(t.weekday, t.clock, info.value.start)
    ensures info.value.end == info.value.start + SecondsPerHour
  {
    var after := SearchStart(restriction, last, now);
    var start := BiweeklyNextRun(t.weekday, t.clock, t.anchor, after);
    BiweeklyNextIsFirst(t.weekday, t.clock, t.anchor, after);
    BiweeklyGridIsWeekly(t.weekday, t.clock, t.anchor, start);
    Some(HourWindow(start))
  }
}
