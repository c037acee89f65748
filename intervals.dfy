/** EveryNDays and EveryNInterval: the fixed cadences, whose data interval is the gap
    to the next run (N days, or N minutes) rather than the one-hour window. */
module Intervals {
  import opened Civil
  import opened Schedule
  import opened Rules
  import opened Arith

  // ----- EveryNDays -----

  /** r is the first instant at or after `after` whose time of day is c. */
  predicate IsFirstAtClock(c: Clock, after: int, r: int) {
    r >= after && ClockOf(r) == c && forall s :: s >= after && ClockOf(s) == c ==> r <= s
  }

  /** An instant whose time of day is c is time c on its own day. */
  lemma AtOwnDay(c: Clock, s: int)
    requires ClockOf(s) == c
    ensures s == At(DayOf(s), c)
  {
    SplitInstant(s);
  }

  /** Time c on x's day, moved back k whole days, is time c on the day k days before. */
  lemma DaysBack(x: int, c: Clock, k: int)
    requires ValidClock(c)
    ensures ReplaceClock(x, c) - k * 86400 == At(DayOf(x) - k, c)
    ensures ClockOf(At(DayOf(x) - k, c)) == c
  {
    AtParts(DayOf(x) - k, c);
  }

  /** `run_after.replace(hour, minute, second)`, stepped back `interval_days` days while
      it lies after `run_after`: start is time c on run_after's day when that is not
      after run_after, otherwise one interval earlier; the loop never runs twice. */
  method EveryNDaysInferManualDataInterval(t: Timetable, runAfter: int) returns (r: DataInterval)
    requires t.EveryNDays? && WellFormed(t)
    requires t.intervalDays >= 1 || ReplaceClock(runAfter, t.clock) <= runAfter
    ensures r.start <= runAfter && ClockOf(r.start) == t.clock
    ensures ReplaceClock(runAfter, t.clock) <= runAfter ==> r.start == ReplaceClock(runAfter, t.clock)
    ensures ReplaceClock(runAfter, t.clock) > runAfter ==>
              r.start == ReplaceClock(runAfter, t.clock) - t.intervalDays * 86400
    ensures r.end == r.start + t.intervalDays * 86400
    ensures t.intervalDays >= 1 ==> runAfter < r.end
  {
    var n, c := t.intervalDays, t.clock;
    var first := ReplaceClock(runAfter, c);
    DaysBack(runAfter, c, 0);
    DaysBack(runAfter, c, n);
    DayBeforeIsEarlier(runAfter, c, n);
    var base := first;
    while base > runAfter
      invariant base == first || (first > runAfter && base == first - n * 86400)
      invariant n >= 1 || base <= runAfter
      decreases base - runAfter
    {
      base := base - n * 86400;
    }
    r := DataInterval(base, base + n * 86400);
  }

  /** Time c on x's day is less than a day after x and not before x's midnight, so
      N ≥ 1 whole days before it is not after x. */
  lemma DayBeforeIsEarlier(x: int, c: Clock, n: int)
    requires ValidClock(c)
    ensures n >= 1 ==> ReplaceClock(x, c) - n * 86400 <= x
    ensures x - 86400 < ReplaceClock(x, c) < x + 86400
  {
    ClockSeconds(c);
    assert x == DayOf(x) * 86400 + x % 86400;
  }

  /** `aligned = next_run.replace(...)`, a day later when that is before `next_run`:
      the first instant at or after `after` with time of day c. */
  function NextAtClock(c: Clock, after: int): (r: int)
    requires ValidClock(c)
    ensures IsFirstAtClock(c, after, r)
    ensures r < after + 86400
  {
    var z := DayOf(after);
    var aligned := ReplaceClock(after, c);
    if aligned < after then
      NextDayIsFirst(c, after);
      At(z + 1, c)
    else
      SameDayIsFirst(c, after);
      aligned
  }

  /** When time c on `after`'s day is not before `after`, it is the first such instant. */
  lemma SameDayIsFirst(c: Clock, after: int)
    requires ValidClock(c) && ReplaceClock(after, c) >= after
    ensures IsFirstAtClock(c, after, ReplaceClock(after, c))
    ensures ReplaceClock(after, c) < after + 86400
  {
    var z := DayOf(after);
    AtParts(z, c);
    AtOrder(z, c, z + 1, c);
    DayBeforeIsEarlier(after, c, 1);
    forall s | s >= after && ClockOf(s) == c ensures ReplaceClock(after, c) <= s {
      LaterAtClock(c, after, s);
    }
  }

  /** When time c on `after`'s day is before `after`, time c on the next day is the
      first such instant, and less than a day after `after`. */
  lemma NextDayIsFirst(c: Clock, after: int)
    requires ValidClock(c) && ReplaceClock(after, c) < after
    ensures IsFirstAtClock(c, after, At(DayOf(after) + 1, c))
    ensures At(DayOf(after) + 1, c) < after + 86400
  {
    var z := DayOf(after);
    AtParts(z + 1, c);
    DayOrder(z + 1, c, after);
    assert At(z + 1, c) == ReplaceClock(after, c) + 86400;
    forall s | s >= after && ClockOf(s) == c ensures At(z + 1, c) <= s {
      LaterAtClock(c, after, s);
    }
  }

  /** An instant with time of day c at or after `after` is ReplaceClock(after, c) itself,
      or on a later day and so not before time c on the next day. */
  lemma LaterAtClock(c: Clock, after: int, s: int)
    requires ValidClock(c) && s >= after && ClockOf(s) == c
    ensures s == ReplaceClock(after, c) || s >= At(DayOf(after) + 1, c)
  {
    AtOwnDay(c, s);
    DayOrder(DayOf(s), c, after);
    AtOrder(DayOf(after) + 1, c, DayOf(s), c);
  }

  /** EveryNDays.next_dagrun_info: the first instant at the configured time of day
      at or after the search start, with an interval of `interval_days` days; no
      `latest` cutoff. */
  function EveryNDaysNextDagrunInfo(t: Timetable, last: Option<DataInterval>, restriction: TimeRestriction, now: int)
    : (info: Option<DataInterval>)
    requires t.EveryNDays? && WellFormed(t)
    ensures info.Some?
    ensures IsFirstAtClock(t.clock, SearchStart(restriction, last, now), info.value.start)
    ensures info.value.start < SearchStart(restriction, last, now) + 86400
    ensures info.value.end == info.value.start + t.intervalDays * 86400
  {
    var start := NextAtClock(t.clock, SearchStart(restriction, last, now));
    Some(DataInterval(start, start + t.intervalDays * 86400))
  }

  // ----- EveryNInterval -----

  const ZeroIntervalMessage := "At least one of interval_minutes or interval_hours must be > 0"

  /** `interval_hours * 60 + interval_minutes`. */
  function TotalMinutes(t: Timetable): int
    requires t.EveryNInterval?
  {
    t.intervalHours * 60 + t.intervalMinutes
  }

  /** Python's `a // b`: the floor of a / b for either sign of b. */
  function FloorDiv(a: int, b: int): (q: int)
    requires b != 0
    ensures b > 0 ==> b * q <= a < b * q + b
    ensures b < 0 ==> b * q >= a > b * q + b
  {
    if b > 0 then a / b else (-a) / (-b)
  }

  /** `anchor = x.replace(hour=0, minute=0, second=0)`. */
  function Midnight(x: int): (m: int)
    ensures m <= x < m + 86400
  {
    x - x % 86400
  }

  /** Midnight is the start of x's own day: its day is x's and its time of day is
      00:00:00. */
  lemma MidnightIsAnchor(x: int)
    ensures DayOf(Midnight(x)) == DayOf(x) && ClockOf(Midnight(x)) == Clock(0, 0, 0)
  {
    assert Midnight(x) == DayOf(x) * 86400;
    DivModUnique(Midnight(x), DayOf(x), 0);
  }

  /** s is a point of x's day grid: a whole number of steps of `step` seconds on or
      after x's midnight. */
  predicate OnDayGrid(step: int, x: int, s: int) {
    step > 0 && s >= Midnight(x) && (s - Midnight(x)) % step == 0
  }

  /** The grid alignment: the whole minutes since midnight, rounded down (Python `//`)
      to a multiple of `total`, added to midnight.  For a positive total this is the
      last point of the day grid at or before x. */
  function AlignDown(total: int, x: int): (r: int)
    requires total != 0
    ensures total > 0 ==> OnDayGrid(total * 60, x, r) && r <= x < r + total * 60
  {
    var m := Midnight(x);
    var minutes := (x - m) / 60;
    var q := FloorDiv(minutes, total);
    AlignDownBounds(m, x, minutes, total, q);
    m + (q * total) * 60
  }

  lemma AlignDownBounds(m: int, x: int, minutes: int, total: int, q: int)
    requires m == Midnight(x) && minutes == (x - m) / 60 && total != 0
    requires total > 0 ==> total * q <= minutes < total * q + total
    ensures total > 0 ==> OnDayGrid(total * 60, x, m + (q * total) * 60)
    ensures total > 0 ==> m + (q * total) * 60 <= x < m + (q * total) * 60 + total * 60
  {
    if total > 0 {
      ProductSigns(q, total);
      assert (q * total) * 60 == q * (total * 60);
      DivModOf(q * (total * 60), total * 60, q, 0);
    }
  }

  /** EveryNInterval.infer_manual_data_interval: the grid step of `run_after`'s day
      that contains it; ValueError on a zero total. */
  function EveryNIntervalInferManualDataInterval(t: Timetable, runAfter: int): (r: Outcome<DataInterval>)
    requires t.EveryNInterval?
    ensures r.Failure? <==> TotalMinutes(t) == 0
    ensures r.Failure? ==> r.message == ZeroIntervalMessage
    ensures r.Ok? ==> r.value.end == r.value.start + TotalMinutes(t) * 60
    ensures r.Ok? && TotalMinutes(t) > 0 ==>
              OnDayGrid(TotalMinutes(t) * 60, runAfter, r.value.start) && r.value.start <= runAfter < r.value.end
  {
    var total := TotalMinutes(t);
    if total == 0 then Failure(ZeroIntervalMessage)
    else
      var start := AlignDown(total, runAfter);
      Ok(DataInterval(start, start + total * 60))
  }

  /** The grid alignment moved one step forward when it lies before x: for a positive
      total, the first point of x's day grid at or after x. */
  function AlignUp(total: int, x: int): (r: int)
    requires total != 0
    ensures total > 0 ==> OnDayGrid(total * 60, x, r) && r >= x && r - total * 60 < x
  {
    var aligned := AlignDown(total, x);
    if aligned < x then
      var r := aligned + total * 60;
      assert total > 0 ==> OnDayGrid(total * 60, x, r) by {
        if total > 0 {
          var p, a := total * 60, aligned - Midnight(x);
          DivModOf(a + p, p, a / p + 1, 0);
        }
      }
      r
    else aligned
  }

  /** EveryNInterval.next_dagrun_info: the first grid point of the baseline's day at or
      after the baseline (`earliest` or now, raised to now without catch-up), or the end
      of the last interval when that is later; None past `latest`; ValueError on a zero
      total. */
  function EveryNIntervalNextDagrunInfo(t: Timetable, last: Option<DataInterval>, restriction: TimeRestriction, now: int)
    : (r: Outcome<Option<DataInterval>>)
    requires t.EveryNInterval?
    ensures r.Failure? <==> TotalMinutes(t) == 0
    ensures r.Failure? ==> r.message == ZeroIntervalMessage
    ensures r.Ok? ==>
              (r.value.None? <==>
                 restriction.latest.Some? &&
                 (if last.Some? then Max(last.value.end, AlignUp(TotalMinutes(t), SearchStart(restriction, None, now)))
                  else AlignUp(TotalMinutes(t), SearchStart(restriction, None, now))) > restriction.latest.value)
    ensures r.Ok? && r.value.Some? ==> r.value.value.end == r.value.value.start + TotalMinutes(t) * 60
    ensures r.Ok? && r.value.Some? && last.Some? ==> r.value.value.start >= last.value.end
    ensures r.Ok? && r.value.Some? ==> r.value.value.start >= AlignUp(TotalMinutes(t), SearchStart(restriction, None, now))
    ensures r.Ok? && r.value.Some? && TotalMinutes(t) > 0 ==>
              r.value.value.start >= SearchStart(restriction, None, now) &&
              (last.None? || r.value.value.start > last.value.end ==>
                 OnDayGrid(TotalMinutes(t) * 60, SearchStart(restriction, None, now), r.value.value.start) &&
                 r.value.value.start - TotalMinutes(t) * 60 < SearchStart(restriction, None, now))
    ensures r.Ok? && r.value.Some? && TotalMinutes(t) > 0 && !restriction.catchup ==> r.value.value.start >= now
  {
    var total := TotalMinutes(t);
    if total == 0 then Failure(ZeroIntervalMessage)
    else
      var baseline := SearchStart(restriction, None, now);
      var aligned := AlignUp(total, baseline);
      var nextStart := if last.Some? then Max(last.value.end, aligned) else aligned;
      Ok(Cutoff(restriction, DataInterval(nextStart, nextStart + total * 60), true))
  }
}
