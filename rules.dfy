/** The fifteen schedule families as immutable configurations: what each timetable
    class stores in `__init__`, and the conditions under which its methods run to
    completion (the source raises ValueError from `datetime`/`replace` for an
    out-of-range time of day, and its day walks never stop for n = 0 or for a weekday
    outside 0..6). */
module Rules {
  import opened Civil
  import opened Schedule

  const DefaultTz := "America/New_York"

  /** One timetable configuration.  `clock` is the (hour, minute, second) the class
      stores; `tz` is carried verbatim for the codec and the descriptions. */
  datatype Timetable =
    | MonthlyLastDay(clock: Clock, tz: string)
    | MonthlyOnDay(day: int, clock: Clock, tz: string)
    | MonthlyMultipleDays(days: seq<int>, clock: Clock, tz: string)
    | QuarterlyFirstDay(clock: Clock, tz: string)
    | QuarterlyLastDay(clock: Clock, tz: string)
    | YearlyFirstDay(clock: Clock, tz: string)
    | YearlyWeekdayOccurrence(month: int, weekday: int, n: int, clock: Clock, tz: string)
    | WeeklyOnDay(weekday: int, clock: Clock, tz: string)
    | BiweeklyOnDay(weekday: int, clock: Clock, tz: string, anchor: Date)
    | SemiMonthly(clock: Clock, tz: string)
    | MonthlyWeekdayOccurrence(weekday: int, n: int, clock: Clock, tz: string)
    | EveryNDays(intervalDays: int, clock: Clock, tz: string)
    | BusinessDayOfMonth(n: int, clock: Clock, tz: string)
    | MonthlyLastDayExceptWeekend(clock: Clock, tz: string)
    | EveryNInterval(intervalMinutes: int, intervalHours: int, tz: string)

  predicate StrictlyIncreasing(s: seq<int>) {
    forall i, j :: 0 <= i < j < |s| ==> s[i] < s[j]
  }

  /** Insert x into a strictly increasing sequence, keeping it strictly increasing. */
  function Insert(x: int, s: seq<int>): (r: seq<int>)
    requires StrictlyIncreasing(s)
    ensures StrictlyIncreasing(r)
    ensures forall y :: y in r <==> y == x || y in s
  {
    if |s| == 0 then [x]
    else if x < s[0] then [x] + s
    else if x == s[0] then s
    else
      var rest := Insert(x, s[1..]);
      assert forall y :: y in s <==> y == s[0] || y in s[1..];
      ConsIncreasing(s[0], rest);
      [s[0]] + rest
  }

  /** A value below every element of a strictly increasing sequence can go in front. */
  lemma ConsIncreasing(a: int, r: seq<int>)
    requires StrictlyIncreasing(r) && forall y :: y in r ==> a < y
    ensures StrictlyIncreasing([a] + r)
  {
    var s := [a] + r;
    forall i, j | 0 <= i < j < |s| ensures s[i] < s[j] {
      assert s[j] == r[j - 1] && r[j - 1] in r;
      if i > 0 {
        assert s[i] == r[i - 1];
      } else {
        assert s[i] == a;
      }
    }
  }

  /** Python's `sorted(set(days))`. */
  function SortedSet(days: seq<int>): (r: seq<int>)
    ensures StrictlyIncreasing(r)
    ensures forall x :: x in r <==> x in days
  {
    if |days| == 0 then []
    else
      var r := Insert(days[|days| - 1], SortedSet(days[..|days| - 1]));
      assert forall x :: x in days <==> x == days[|days| - 1] || x in days[..|days| - 1];
      r
  }

  /** A strictly increasing sequence is determined by its elements. */
  lemma {:induction false} StrictlyIncreasingUnique(a: seq<int>, b: seq<int>)
    requires StrictlyIncreasing(a) && StrictlyIncreasing(b)
    requires forall x :: x in a <==> x in b
    ensures a == b
    decreases |a|
  {
    if |a| > 0 {
      assert a[0] in a;
    }
    if |b| > 0 {
      assert b[0] in b;
    }
    if |a| > 0 {
      assert a[0] == b[0] by {
        assert a[0] in a && b[0] in b;
        assert b[0] in a && a[0] in b;
      }
      forall x ensures x in a[1..] <==> x in b[1..] {
        if x in a[1..] {
          assert x in b && x != b[0];
        }
        if x in b[1..] {
          assert x in a && x != a[0];
        }
      }
      StrictlyIncreasingUnique(a[1..], b[1..]);
      assert a == [a[0]] + a[1..];
      assert b == [b[0]] + b[1..];
    }
  }

  /** Normalising an already normalised list changes nothing. */
  lemma SortedSetIdempotent(days: seq<int>)
    ensures SortedSet(SortedSet(days)) == SortedSet(days)
  {
    StrictlyIncreasingUnique(SortedSet(SortedSet(days)), SortedSet(days));
  }

  /** MonthlyMultipleDays.__init__: `days` defaults to [1] and is stored as
      `sorted(set(days))`. */
  function NewMonthlyMultipleDays(days: Option<seq<int>>, clock: Clock, tz: string): (t: Timetable)
    ensures t.MonthlyMultipleDays? && t.clock == clock && t.tz == tz
    ensures StrictlyIncreasing(t.days)
    ensures days.Some? ==> forall x :: x in t.days <==> x in days.value
    ensures days.None? ==> t.days == [1]
  {
    match days
    case None => MonthlyMultipleDays(SortedSet([1]), clock, tz)
    case Some(ds) => MonthlyMultipleDays(SortedSet(ds), clock, tz)
  }

  /** The classes whose `next_dagrun_info` drops a run that starts after
      `restriction.latest`. */
  predicate AppliesCutoff(t: Timetable) {
    t.MonthlyLastDay? || t.MonthlyOnDay? || t.MonthlyMultipleDays? || t.QuarterlyFirstDay?
    || t.QuarterlyLastDay? || t.YearlyFirstDay? || t.YearlyWeekdayOccurrence? || t.EveryNInterval?
  }

  /** The configurations whose methods the source runs to completion. */
  predicate WellFormed(t: Timetable) {
    match t
    case MonthlyLastDay(clock, _) => ValidClock(clock)
    case MonthlyOnDay(day, clock, _) => day >= 1 && ValidClock(clock)
    case MonthlyMultipleDays(days, clock, _) =>
      ValidClock(clock) && StrictlyIncreasing(days) && exists d :: d in days && 1 <= d <= 31
    case QuarterlyFirstDay(clock, _) => ValidClock(clock)
    case QuarterlyLastDay(clock, _) => ValidClock(clock)
    case YearlyFirstDay(clock, _) => ValidClock(clock)
    case YearlyWeekdayOccurrence(month, weekday, n, clock, _) =>
      1 <= month <= 12 && 0 <= weekday < 7 && n != 0 && ValidClock(clock)
    case WeeklyOnDay(_, clock, _) => ValidClock(clock)
    case BiweeklyOnDay(weekday, clock, _, anchor) =>
      -7 <= weekday < 7 && ValidClock(clock) && ValidDate(anchor)
    case SemiMonthly(clock, _) => ValidClock(clock)
    case MonthlyWeekdayOccurrence(weekday, n, clock, _) => 0 <= weekday < 7 && n != 0 && ValidClock(clock)
    case EveryNDays(_, clock, _) => ValidClock(clock)
    case BusinessDayOfMonth(n, clock, _) => n != 0 && ValidClock(clock)
    case MonthlyLastDayExceptWeekend(clock, _) => ValidClock(clock)
    case EveryNInterval(_, _, _) => true
  }
}
