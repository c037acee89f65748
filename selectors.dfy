/** The two timetables that pick days of a month by their number: MonthlyMultipleDays
    (a configured list of days) and SemiMonthly (the 15th and the last day).  Both
    search forward from an instant for the first such day at the configured time; a
    run is characterised by the date and time of day it falls on. */
module Selectors {
  import opened Civil
  import opened Schedule
  import opened Rules

  // ----- instants ordered by month and day -----

  /** The month index of the calendar month holding instant x. */
  function MonthOf(x: int): int {
    MonthIndex(DateOf(x).year, DateOf(x).month)
  }

  /** The length of the month with index k. */
  function MonthLen(k: int): int {
    DaysInMonth(YearOfIndex(k), MonthOfIndex(k))
  }

  /** Month j follows month k: it starts the day after k ends, and k ends no earlier
      than it starts. */
  lemma MonthAfter(k: int, j: int)
    requires j == k + 1
    ensures FirstDay(YearOfIndex(j), MonthOfIndex(j)) == LastDay(YearOfIndex(k), MonthOfIndex(k)) + 1
    ensures FirstDay(YearOfIndex(k), MonthOfIndex(k)) <= LastDay(YearOfIndex(k), MonthOfIndex(k))
  {
    MonthStep(k);
  }

  lemma {:induction false} MonthsApart(k: int, k': int)
    requires k < k'
    ensures LastDay(YearOfIndex(k), MonthOfIndex(k)) < FirstDay(YearOfIndex(k'), MonthOfIndex(k'))
    decreases k' - k
  {
    var j := k' - 1;
    MonthAfter(j, k');
    if k < j {
      MonthsApart(k, j);
      MonthAfter(j - 1, j);
    }
  }

  lemma DayBeforeDay(x: int, y: int)
    requires DayOf(x) < DayOf(y)
    ensures x < y
  {
    SplitInstant(x);
    SplitInstant(y);
  }

  /** An instant in an earlier month is earlier; within one month, at one time of
      day, an earlier day of the month is earlier. */
  lemma MonthOrder(x: int, y: int)
    ensures MonthOf(x) < MonthOf(y) ==> x < y
    ensures MonthOf(x) == MonthOf(y) ==> DateOf(x).year == DateOf(y).year && DateOf(x).month == DateOf(y).month
    ensures MonthOf(x) == MonthOf(y) && ClockOf(x) == ClockOf(y) && DateOf(x).day < DateOf(y).day ==> x < y
  {
    var dx, dy := DateOf(x), DateOf(y);
    MonthIndexRoundTrip(dx.year, dx.month);
    MonthIndexRoundTrip(dy.year, dy.month);
    if MonthOf(x) < MonthOf(y) {
      MonthsApart(MonthOf(x), MonthOf(y));
      DayBeforeDay(x, y);
    }
    if MonthOf(x) == MonthOf(y) && dx.day < dy.day {
      DayBeforeDay(x, y);
    }
  }

  /** The calendar month of instant x is its month index decoded. */
  lemma MonthOfParts(x: int)
    ensures YearOfIndex(MonthOf(x)) == DateOf(x).year && MonthOfIndex(MonthOf(x)) == DateOf(x).month
    ensures 1 <= DateOf(x).day <= MonthLen(MonthOf(x))
  {
    MonthIndexRoundTrip(DateOf(x).year, DateOf(x).month);
  }

  /** The instant at day d of month (y, m), time c, as its parts. */
  lemma RunParts(y: int, m: int, d: int, c: Clock)
    requires 1 <= m <= 12 && 1 <= d <= DaysInMonth(y, m) && ValidClock(c)
    ensures DateOf(Instant(Date(y, m, d), c)) == Date(y, m, d)
    ensures ClockOf(Instant(Date(y, m, d), c)) == c
    ensures MonthOf(Instant(Date(y, m, d), c)) == MonthIndex(y, m)
  {
    InstantParts(Date(y, m, d), c);
  }

  // ----- MonthlyMultipleDays -----

  /** `[d for d in self.days if 1 <= d <= last_day]`. */
  function ValidDays(days: seq<int>, lastDay: int): (r: seq<int>)
    ensures forall x :: x in r <==> x in days && 1 <= x <= lastDay
    ensures StrictlyIncreasing(days) ==> StrictlyIncreasing(r)
  {
    if |days| == 0 then []
    else
      var rest := ValidDays(days[1..], lastDay);
      assert forall x :: x in days <==> x == days[0] || x in days[1..];
      if 1 <= days[0] <= lastDay then
        var r := [days[0]] + rest;
        assert StrictlyIncreasing(days) ==> StrictlyIncreasing(r) by {
          if StrictlyIncreasing(days) {
            assert StrictlyIncreasing(days[1..]);
            forall a, b | 0 <= a < b < |r| ensures r[a] < r[b] {
              assert r[b] == rest[b - 1] && rest[b - 1] in rest;
              if a > 0 {
                assert r[a] == rest[a - 1];
              } else {
                var j :| 0 <= j < |days[1..]| && days[1..][j] == r[b];
                assert days[j + 1] == r[b];
              }
            }
          }
        }
        r
      else rest
  }

  /** Whether the month with index k has one of the days. */
  predicate HasDayIn(days: seq<int>, k: int) {
    exists d :: d in days && 1 <= d <= MonthLen(k)
  }

  /** A run of MonthlyMultipleDays: one of the days at the configured time. */
  predicate IsDaysRun(days: seq<int>, c: Clock, s: int) {
    ClockOf(s) == c && DateOf(s).day in days
  }

  /** r is the first run at or after `after`. */
  predicate IsFirstDaysRun(days: seq<int>, c: Clock, after: int, r: int) {
    r >= after && IsDaysRun(days, c, r)
    && forall s :: s >= after && IsDaysRun(days, c, s) ==> r <= s
  }

  /** Two consecutive months cannot both miss every day: a month shorter than a day
      d <= 31 is followed by a 31-day month. */
  lemma TwoMonthsHaveDay(days: seq<int>, k: int)
    requires exists d :: d in days && 1 <= d <= 31
    ensures HasDayIn(days, k) || HasDayIn(days, k + 1)
  {
    var d :| d in days && 1 <= d <= 31;
    var y, m := YearOfIndex(k), MonthOfIndex(k);
    if MonthLen(k) < d {
      ShortMonthThenLong(y, m);
      NextMonthIndex(y, m);
      IndexMonthRoundTrip(k);
      MonthIndexRoundTrip(NextMonth(y, m).0, NextMonth(y, m).1);
      assert MonthLen(k + 1) == 31;
    }
  }

  /** An instant at time c in month (y, m) is the run on its own day of the month. */
  lemma SameMonthRun(y: int, m: int, c: Clock, s: int)
    requires 1 <= m <= 12 && ValidClock(c)
    requires ClockOf(s) == c && MonthOf(s) == MonthIndex(y, m)
    ensures DateOf(s).year == y && DateOf(s).month == m
    ensures 1 <= DateOf(s).day <= DaysInMonth(y, m)
    ensures s == Instant(Date(y, m, DateOf(s).day), c)
  {
    MonthOfParts(s);
    MonthIndexRoundTrip(y, m);
    RunParts(y, m, DateOf(s).day, c);
    InstantDetermined(s, Instant(Date(y, m, DateOf(s).day), c));
  }

  /** A month whose valid days are none has none of the days. */
  lemma NoDayIn(days: seq<int>, y: int, m: int)
    requires 1 <= m <= 12 && ValidDays(days, DaysInMonth(y, m)) == []
    ensures !HasDayIn(days, MonthIndex(y, m))
  {
    MonthIndexRoundTrip(y, m);
    assert forall d :: d in days && 1 <= d <= DaysInMonth(y, m) ==> d in ValidDays(days, DaysInMonth(y, m));
  }

  /** When every valid day of month (y, m) gives a run before `after`, every
      configured day in range does. */
  lemma AllRunsBefore(days: seq<int>, c: Clock, after: int, y: int, m: int, valid: seq<int>)
    requires 1 <= m <= 12 && valid == ValidDays(days, DaysInMonth(y, m))
    requires forall j :: 0 <= j < |valid| ==> Instant(Date(y, m, valid[j]), c) < after
    ensures forall d :: d in days && 1 <= d <= DaysInMonth(y, m) ==> Instant(Date(y, m, d), c) < after
  {
    forall d | d in days && 1 <= d <= DaysInMonth(y, m) ensures Instant(Date(y, m, d), c) < after {
      assert d in valid;
    }
  }

  /** A run found among the days of the month of `after` is the first one. */
  lemma FirstRunThisMonth(days: seq<int>, c: Clock, after: int, y: int, m: int, valid: seq<int>, i: int)
    requires ValidClock(c) && 1 <= m <= 12 && MonthOf(after) == MonthIndex(y, m)
    requires valid == ValidDays(days, DaysInMonth(y, m)) && StrictlyIncreasing(valid)
    requires 0 <= i < |valid|
    requires forall j :: 0 <= j < i ==> Instant(Date(y, m, valid[j]), c) < after
    requires Instant(Date(y, m, valid[i]), c) >= after
    ensures IsFirstDaysRun(days, c, after, Instant(Date(y, m, valid[i]), c))
  {
    var r := Instant(Date(y, m, valid[i]), c);
    assert valid[i] in valid;
    RunParts(y, m, valid[i], c);
    forall s | s >= after && IsDaysRun(days, c, s) ensures r <= s {
      MonthOrder(s, after);
      if MonthOf(s) == MonthOf(after) {
        SameMonthNotEarlier(days, c, after, y, m, valid, i, s);
      } else {
        MonthOrder(r, s);
      }
    }
  }

  /** A run in the month of `after`, not before it, is on a valid day from the i-th on. */
  lemma SameMonthNotEarlier(days: seq<int>, c: Clock, after: int, y: int, m: int, valid: seq<int>, i: int, s: int)
    requires ValidClock(c) && 1 <= m <= 12
    requires valid == ValidDays(days, DaysInMonth(y, m)) && StrictlyIncreasing(valid)
    requires 0 <= i < |valid| && 1 <= valid[i] <= DaysInMonth(y, m)
    requires forall j :: 0 <= j < i ==> Instant(Date(y, m, valid[j]), c) < after
    requires s >= after && IsDaysRun(days, c, s) && MonthOf(s) == MonthIndex(y, m)
    ensures Instant(Date(y, m, valid[i]), c) <= s
  {
    SameMonthRun(y, m, c, s);
    var d := DateOf(s).day;
    assert d in valid;
    var j :| 0 <= j < |valid| && valid[j] == d;
    assert i <= j;
    if valid[i] < d {
      var r := Instant(Date(y, m, valid[i]), c);
      RunParts(y, m, valid[i], c);
      MonthOrder(r, s);
    }
  }

  /** A run found as the first day of a later month (y, m), all months in between
      having none of the days and every run of the month (y0, m0) of `after` being
      earlier than `after`, is the first one. */
  lemma FirstRunLaterMonth(days: seq<int>, c: Clock, after: int, y0: int, m0: int, y: int, m: int, valid: seq<int>)
    requires ValidClock(c) && 1 <= m0 <= 12 && 1 <= m <= 12
    requires MonthOf(after) == MonthIndex(y0, m0) < MonthIndex(y, m)
    requires forall j :: MonthIndex(y0, m0) < j < MonthIndex(y, m) ==> !HasDayIn(days, j)
    requires forall d :: d in days && 1 <= d <= DaysInMonth(y0, m0) ==> Instant(Date(y0, m0, d), c) < after
    requires valid == ValidDays(days, DaysInMonth(y, m)) && StrictlyIncreasing(valid) && |valid| > 0
    ensures IsFirstDaysRun(days, c, after, Instant(Date(y, m, valid[0]), c))
  {
    var r := Instant(Date(y, m, valid[0]), c);
    assert valid[0] in valid;
    RunParts(y, m, valid[0], c);
    MonthOrder(after, r);
    forall s | s >= after && IsDaysRun(days, c, s) ensures r <= s {
      MonthOrder(s, after);
      MonthOrder(r, s);
      if MonthOf(s) == MonthOf(after) {
        SameMonthRun(y0, m0, c, s);
      } else if MonthOf(s) < MonthIndex(y, m) {
        MonthOfParts(s);
        assert HasDayIn(days, MonthOf(s));
      } else if MonthOf(s) == MonthIndex(y, m) {
        SameMonthRun(y, m, c, s);
        var d := DateOf(s).day;
        assert d in valid;
        var j :| 0 <= j < |valid| && valid[j] == d;
      }
    }
  }

  /** MonthlyMultipleDays._get_next_run_date: the configured days of the month of
      `after` are tried in order; failing those, the months that follow are tried
      until one has a configured day, whose first such day is taken. */
  method DaysNextRun(days: seq<int>, c: Clock, after: int) returns (r: int)
    requires ValidClock(c) && StrictlyIncreasing(days)
    requires exists d :: d in days && 1 <= d <= 31
    ensures IsFirstDaysRun(days, c, after, r)
  {
    var year, month := DateOf(after).year, DateOf(after).month;
    assert MonthOf(after) == MonthIndex(year, month);
    var valid := ValidDays(days, DaysInMonth(year, month));
    var i := 0;
    while i < |valid|
      invariant 0 <= i <= |valid|
      invariant forall j :: 0 <= j < i ==> Instant(Date(year, month, valid[j]), c) < after
    {
      var candidate := Instant(Date(year, month, valid[i]), c);
      if candidate >= after {
        FirstRunThisMonth(days, c, after, year, month, valid, i);
        return candidate;
      }
      i := i + 1;
    }
    AllRunsBefore(days, c, after, year, month, valid);
    r := LaterMonthRun(days, c, after, year, month);
  }

  /** The month walk of MonthlyMultipleDays._get_next_run_date, once no configured
      day of the month (y0, m0) of `after` gives a run at or after it: the first day
      of the first later month that has one. */
  method LaterMonthRun(days: seq<int>, c: Clock, after: int, y0: int, m0: int) returns (r: int)
    requires ValidClock(c) && StrictlyIncreasing(days) && 1 <= m0 <= 12
    requires exists d :: d in days && 1 <= d <= 31
    requires MonthOf(after) == MonthIndex(y0, m0)
    requires forall d :: d in days && 1 <= d <= DaysInMonth(y0, m0) ==> Instant(Date(y0, m0, d), c) < after
    ensures IsFirstDaysRun(days, c, after, r)
  {
    var year, month := y0, m0;
    ghost var k0 := MonthIndex(year, month);
    ghost var k := k0;
    while true
      invariant 1 <= month <= 12 && k == MonthIndex(year, month) && k0 <= k <= k0 + 1
      invariant forall j :: k0 < j <= k ==> !HasDayIn(days, j)
      decreases k0 + 2 - k
    {
      NextMonthIndex(year, month);
      year, month := NextMonth(year, month).0, NextMonth(year, month).1;
      k := k + 1;
      var valid := ValidDays(days, DaysInMonth(year, month));
      if |valid| > 0 {
        FirstRunLaterMonth(days, c, after, y0, m0, year, month, valid);
        return Instant(Date(year, month, valid[0]), c);
      }
      NoDayIn(days, year, month);
      TwoMonthsHaveDay(days, k - 1);
    }
  }

  /** MonthlyMultipleDays.infer_manual_data_interval: the hour from the first run at
      or after `run_after`. */
  method DaysInferManualDataInterval(t: Timetable, runAfter: int) returns (r: DataInterval)
    requires t.MonthlyMultipleDays? && WellFormed(t)
    ensures IsFirstDaysRun(t.days, t.clock, runAfter, r.start)
    ensures r.end == r.start + SecondsPerHour
  {
    var start := DaysNextRun(t.days, t.clock, runAfter);
    r := HourWindow(start);
  }

  /** MonthlyMultipleDays.next_dagrun_info: the first run from the search start, unless
      it lies after `restriction.latest`. */
  method DaysNextDagrunInfo(t: Timetable, last: Option<DataInterval>, restriction: TimeRestriction, now: int)
    returns (info: Option<DataInterval>)
    requires t.MonthlyMultipleDays? && WellFormed(t)
    ensures exists s :: (IsFirstDaysRun(t.days, t.clock, SearchStart(restriction, last, now), s)
      && info == Cutoff(restriction, HourWindow(s), true))
    ensures info.Some? ==> IsFirstDaysRun(t.days, t.clock, SearchStart(restriction, last, now), info.value.start)
  {
    var after := SearchStart(restriction, last, now);
    var start := DaysNextRun(t.days, t.clock, after);
    info := Cutoff(restriction, HourWindow(start), true);
  }

  // ----- SemiMonthly -----

  /** A run of SemiMonthly: the 15th or the last day of a month, at the configured
      time. */
  predicate IsSemiRun(c: Clock, s: int) {
    ClockOf(s) == c && (DateOf(s).day == 15 || DateOf(s).day == DaysInMonth(DateOf(s).year, DateOf(s).month))
  }

  predicate IsFirstSemiRun(c: Clock, after: int, r: int) {
    r >= after && IsSemiRun(c, r) && forall s :: s >= after && IsSemiRun(c, s) ==> r <= s
  }

  /** SemiMonthly._get_next_run_date: the earlier of this month's 15th and last day
      that is not before `after`, otherwise the 15th of the next month (its
      `while True` returns on the first pass). */
  function SemiNextRun(c: Clock, after: int): (r: int)
    requires ValidClock(c)
  {
    var year, month := DateOf(after).year, DateOf(after).month;
    var fifteenth := Instant(Date(year, month, 15), c);
    var last := Instant(Date(year, month, DaysInMonth(year, month)), c);
    if fifteenth >= after then fifteenth
    else if last >= after then last
    else
      var next := NextMonth(year, month);
      Instant(Date(next.0, next.1, 15), c)
  }

  /** The 15th or the last day of the month of `after`, when not before `after` (and
      the 15th is, if the last day is taken), is the first run. */
  lemma SemiThisMonth(c: Clock, after: int, y: int, m: int, d: int)
    requires ValidClock(c) && 1 <= m <= 12 && MonthOf(after) == MonthIndex(y, m)
    requires d == 15 || d == DaysInMonth(y, m)
    requires Instant(Date(y, m, d), c) >= after
    requires d != 15 ==> Instant(Date(y, m, 15), c) < after
    ensures IsFirstSemiRun(c, after, Instant(Date(y, m, d), c))
  {
    var r := Instant(Date(y, m, d), c);
    RunParts(y, m, d, c);
    forall s | s >= after && IsSemiRun(c, s) ensures r <= s {
      MonthOrder(s, after);
      if MonthOf(s) == MonthOf(after) {
        SemiSameMonthNotEarlier(c, after, y, m, d, s);
      } else {
        MonthOrder(r, s);
      }
    }
  }

  /** A run of the month of `after`, not before it, is not before the day d chosen. */
  lemma SemiSameMonthNotEarlier(c: Clock, after: int, y: int, m: int, d: int, s: int)
    requires ValidClock(c) && 1 <= m <= 12
    requires d == 15 || d == DaysInMonth(y, m)
    requires d != 15 ==> Instant(Date(y, m, 15), c) < after
    requires s >= after && IsSemiRun(c, s) && MonthOf(s) == MonthIndex(y, m)
    ensures Instant(Date(y, m, d), c) <= s
  {
    SameMonthRun(y, m, c, s);
    var e := DateOf(s).day;
    if d < e {
      var r := Instant(Date(y, m, d), c);
      RunParts(y, m, d, c);
      MonthOrder(r, s);
    }
  }

  /** When both runs of the month (y, m) of `after` are before it, no run at or
      after `after` precedes the 15th of the next month. */
  lemma SemiNotBeforeNextMonth(c: Clock, after: int, y: int, m: int, s: int)
    requires ValidClock(c) && 1 <= m <= 12 && MonthOf(after) == MonthIndex(y, m)
    requires Instant(Date(y, m, 15), c) < after && Instant(Date(y, m, DaysInMonth(y, m)), c) < after
    requires s >= after && IsSemiRun(c, s)
    ensures Instant(Date(NextMonth(y, m).0, NextMonth(y, m).1, 15), c) <= s
  {
    var y', m' := NextMonth(y, m).0, NextMonth(y, m).1;
    NextMonthIndex(y, m);
    var r := Instant(Date(y', m', 15), c);
    RunParts(y', m', 15, c);
    MonthOrder(s, after);
    if MonthOf(s) == MonthOf(after) {
      SameMonthRun(y, m, c, s);
    } else if MonthOf(s) == MonthIndex(y', m') {
      SemiFifteenthFirst(c, y', m', s);
    } else {
      MonthOrder(r, s);
    }
  }

  /** No run of a month comes before its 15th. */
  lemma SemiFifteenthFirst(c: Clock, y: int, m: int, s: int)
    requires ValidClock(c) && 1 <= m <= 12 && IsSemiRun(c, s) && MonthOf(s) == MonthIndex(y, m)
    ensures Instant(Date(y, m, 15), c) <= s
  {
    SameMonthRun(y, m, c, s);
    if DateOf(s).day != 15 {
      var r := Instant(Date(y, m, 15), c);
      RunParts(y, m, 15, c);
      MonthOrder(r, s);
    }
  }

  /** When both runs of the month of `after` are before it, the 15th of the next
      month is the first run. */
  lemma SemiNextMonth(c: Clock, after: int, y: int, m: int)
    requires ValidClock(c) && 1 <= m <= 12 && MonthOf(after) == MonthIndex(y, m)
    requires Instant(Date(y, m, 15), c) < after && Instant(Date(y, m, DaysInMonth(y, m)), c) < after
    ensures IsFirstSemiRun(c, after, Instant(Date(NextMonth(y, m).0, NextMonth(y, m).1, 15), c))
  {
    var y', m' := NextMonth(y, m).0, NextMonth(y, m).1;
    NextMonthIndex(y, m);
    var r := Instant(Date(y', m', 15), c);
    RunParts(y', m', 15, c);
    MonthOrder(after, r);
    forall s | s >= after && IsSemiRun(c, s) ensures r <= s {
      SemiNotBeforeNextMonth(c, after, y, m, s);
    }
  }

  /** The run SemiNextRun finds is the first one at or after `after`. */
  lemma SemiNextRunIsFirst(c: Clock, after: int)
    requires ValidClock(c)
    ensures IsFirstSemiRun(c, after, SemiNextRun(c, after))
  {
    var y, m := DateOf(after).year, DateOf(after).month;
    MonthIndexRoundTrip(y, m);
    if Instant(Date(y, m, 15), c) >= after {
      SemiThisMonth(c, after, y, m, 15);
    } else if Instant(Date(y, m, DaysInMonth(y, m)), c) >= after {
      SemiThisMonth(c, after, y, m, DaysInMonth(y, m));
    } else {
      SemiNextMonth(c, after, y, m);
    }
  }

  /** SemiMonthly.infer_manual_data_interval: the hour from the first run at or after
      `run_after`. */
  function SemiInferManualDataInterval(t: Timetable, runAfter: int): (r: DataInterval)
    requires t.SemiMonthly? && WellFormed(t)
    ensures IsFirstSemiRun(t.clock, runAfter, r.start)
    ensures r.end == r.start + SecondsPerHour
  {
    SemiNextRunIsFirst(t.clock, runAfter);
    HourWindow(SemiNextRun(t.clock, runAfter))
  }

  /** SemiMonthly.next_dagrun_info: the first run from the search start; this class
      applies no `latest` cutoff. */
  function SemiNextDagrunInfo(t: Timetable, last: Option<DataInterval>, restriction: TimeRestriction, now: int)
    : (info: Option<DataInterval>)
    requires t.SemiMonthly? && WellFormed(t)
    ensures info.Some?
    ensures IsFirstSemiRun(t.clock, SearchStart(restriction, last, now), info.value.start)
    ensures info.value.end == info.value.start + SecondsPerHour
  {
    var after := SearchStart(restriction, last, now);
    SemiNextRunIsFirst(t.clock, after);
    Some(HourWindow(SemiNextRun(t.clock, after)))
  }
}
