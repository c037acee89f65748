/** The per-period locators of the calendar timetables: the day (and instant) of the
    run inside a given month, quarter or year.  Those the source computes by walking
    day by day are methods proved equal to a closed-form day function; the
    counting lemmas say what that day is. */
module Locators {
  import opened Civil
  import opened Counting

  // ----- straight-line locators -----

  /** The day before the first of the next month is the last day of the month. */
  lemma DayBeforeNextMonth(y: int, m: int, c: Clock)
    requires 1 <= m <= 12 && ValidClock(c)
    ensures DateOf(At(FirstDay(NextMonth(y, m).0, NextMonth(y, m).1) - 1, c)) == Date(y, m, DaysInMonth(y, m))
    ensures ClockOf(At(FirstDay(NextMonth(y, m).0, NextMonth(y, m).1) - 1, c)) == c
  {
    FirstDayOfNextMonth(y, m);
    InstantParts(Date(y, m, DaysInMonth(y, m)), c);
  }

  /** MonthlyLastDay._get_last_day: the first of the next month, one day back, at time c. */
  function LastDayOfMonth(y: int, m: int, c: Clock): (r: int)
    requires 1 <= m <= 12 && ValidClock(c)
    ensures DateOf(r) == Date(y, m, DaysInMonth(y, m)) && ClockOf(r) == c
  {
    DayBeforeNextMonth(y, m, c);
    At(FirstDay(NextMonth(y, m).0, NextMonth(y, m).1) - 1, c)
  }

  /** MonthlyOnDay._get_run_date: the configured day, clamped to the month's length. */
  function RunDateOfMonth(y: int, m: int, day: int, c: Clock): (r: int)
    requires 1 <= m <= 12 && day >= 1 && ValidClock(c)
    ensures DateOf(r).year == y && DateOf(r).month == m && ClockOf(r) == c
    ensures day <= DaysInMonth(y, m) ==> DateOf(r).day == day
    ensures day > DaysInMonth(y, m) ==> r == LastDayOfMonth(y, m, c)
  {
    var lastDay := DaysInMonth(y, m);
    var d := if day < lastDay then day else lastDay;
    InstantParts(Date(y, m, d), c);
    var r := Instant(Date(y, m, d), c);
    if day > lastDay then
      var last := LastDayOfMonth(y, m, c);
      InstantDetermined(r, last);
      r
    else
      r
  }

  /** The first month of the quarter holding month m. */
  function QuarterStartMonth(m: int): (r: int)
    requires 1 <= m <= 12
    ensures r % 3 == 1 && r <= m < r + 3 && 1 <= r <= 10
  {
    if m <= 3 then 1 else if m <= 6 then 4 else if m <= 9 then 7 else 10
  }

  /** The last month of the quarter holding month m. */
  function QuarterEndMonth(m: int): (r: int)
    requires 1 <= m <= 12
    ensures r % 3 == 0 && r - 3 < m <= r && 3 <= r <= 12
  {
    if m <= 3 then 3 else if m <= 6 then 6 else if m <= 9 then 9 else 12
  }

  /** QuarterlyFirstDay._get_first_day_of_quarter. */
  function FirstDayOfQuarter(y: int, m: int, c: Clock): (r: int)
    requires 1 <= m <= 12 && ValidClock(c)
    ensures DateOf(r) == Date(y, QuarterStartMonth(m), 1) && ClockOf(r) == c
  {
    InstantParts(Date(y, QuarterStartMonth(m), 1), c);
    Instant(Date(y, QuarterStartMonth(m), 1), c)
  }

  /** QuarterlyLastDay._get_last_day_of_quarter: the day before the first of the month
      after the quarter's last month. */
  function LastDayOfQuarter(y: int, m: int, c: Clock): (r: int)
    requires 1 <= m <= 12 && ValidClock(c)
    ensures DateOf(r) == Date(y, QuarterEndMonth(m), DaysInMonth(y, QuarterEndMonth(m)))
    ensures ClockOf(r) == c
  {
    var lastMonth := QuarterEndMonth(m);
    DayBeforeNextMonth(y, lastMonth, c);
    At(FirstDay(NextMonth(y, lastMonth).0, NextMonth(y, lastMonth).1) - 1, c)
  }

  /** YearlyFirstDay._get_first_day_of_year. */
  function FirstDayOfYear(y: int, c: Clock): (r: int)
    requires ValidClock(c)
    ensures DateOf(r) == Date(y, 1, 1) && ClockOf(r) == c
  {
    InstantParts(Date(y, 1, 1), c);
    Instant(Date(y, 1, 1), c)
  }

  // ----- the n-th weekday of a month -----

  /** The first day on or after z whose weekday is w. */
  function WeekdayOnOrAfter(z: int, w: int): (r: int)
    requires 0 <= w < 7
    ensures z <= r <= z + 6 && Weekday(r) == w
    ensures forall d :: z <= d < r ==> Weekday(d) != w
  {
    var ahead := (w - Weekday(z) + 7) % 7;
    SmallMod(w - Weekday(z) + 7);
    ShiftValue(z, ahead);
    forall d | z <= d < z + ahead ensures Weekday(d) != w {
      ShiftValue(z, d - z);
    }
    z + ahead
  }

  /** The last day on or before z whose weekday is w. */
  function WeekdayOnOrBefore(z: int, w: int): (r: int)
    requires 0 <= w < 7
    ensures z - 6 <= r <= z && Weekday(r) == w
    ensures forall d :: r < d <= z ==> Weekday(d) != w
  {
    var back := (Weekday(z) - w + 7) % 7;
    SmallMod(Weekday(z) - w + 7);
    var r := z - back;
    ShiftValue(r, back);
    forall d | r < d <= z ensures Weekday(d) != w {
      ShiftValue(r, d - r);
    }
    r
  }

  /** The n-th day of weekday w of the month spanning day numbers first..last: counted
      from `first` when n > 0, back from `last` when n < 0. */
  function NthWeekdayIn(first: int, last: int, w: int, n: int): (r: int)
    requires 0 <= w < 7 && n != 0
    ensures n > 0 ==> first + 7 * (n - 1) <= r <= first + 7 * (n - 1) + 6
    ensures n < 0 ==> last - 7 * (-n - 1) - 6 <= r <= last - 7 * (-n - 1)
  {
    if n > 0 then WeekdayOnOrAfter(first, w) + 7 * (n - 1)
    else WeekdayOnOrBefore(last, w) - 7 * (-n - 1)
  }

  lemma NthWeekdayForward(first: int, w: int, n: int)
    requires 0 <= w < 7 && n > 0
    ensures Weekday(WeekdayOnOrAfter(first, w) + 7 * (n - 1)) == w
    ensures CountIn({w}, first, WeekdayOnOrAfter(first, w) + 7 * (n - 1) + 1) == n
  {
    var g := WeekdayOnOrAfter(first, w);
    var r := g + 7 * (n - 1);
    CountNone({w}, first, g);
    WeekdayWeeks(g, n - 1);
    WeeksHaveOne(w, g, n - 1);
    CountSplit({w}, first, g, r + 1);
    CountSplit({w}, g, r, r + 1);
    CountOne({w}, r);
  }

  lemma NthWeekdayBackward(last: int, w: int, n: int)
    requires 0 <= w < 7 && n > 0
    ensures Weekday(WeekdayOnOrBefore(last, w) - 7 * (n - 1)) == w
    ensures CountIn({w}, WeekdayOnOrBefore(last, w) - 7 * (n - 1), last + 1) == n
  {
    var g := WeekdayOnOrBefore(last, w);
    var r := g - 7 * (n - 1);
    CountNone({w}, g + 1, last + 1);
    WeekdayWeeks(r, n - 1);
    assert r + 7 * (n - 1) == g;
    WeeksHaveOne(w, r + 1, n - 1);
    assert r + 1 + 7 * (n - 1) == g + 1;
    CountSplit({w}, r, g + 1, last + 1);
    CountSplit({w}, r, r + 1, g + 1);
    CountOne({w}, r);
  }

  lemma NthWeekdayInCounts(first: int, last: int, w: int, n: int)
    requires 0 <= w < 7 && n != 0
    ensures Weekday(NthWeekdayIn(first, last, w, n)) == w
    ensures n > 0 ==> CountIn({w}, first, NthWeekdayIn(first, last, w, n) + 1) == n
    ensures n < 0 ==> CountIn({w}, NthWeekdayIn(first, last, w, n), last + 1) == -n
  {
    if n > 0 {
      NthWeekdayForward(first, w, n);
    } else {
      NthWeekdayBackward(last, w, -n);
    }
  }

  /** Day number of the n-th weekday w of month (y, m). */
  function NthWeekdayDay(y: int, m: int, w: int, n: int): int
    requires 1 <= m <= 12 && 0 <= w < 7 && n != 0
  {
    NthWeekdayIn(FirstDay(y, m), LastDay(y, m), w, n)
  }

  /** The day found is a weekday w, and exactly n (resp. |n|) weekdays w lie between
      the month's first day (resp. last day) and it, both ends included. */
  lemma NthWeekdayCounts(y: int, m: int, w: int, n: int)
    requires 1 <= m <= 12 && 0 <= w < 7 && n != 0
    ensures Weekday(NthWeekdayDay(y, m, w, n)) == w
    ensures n > 0 ==> CountIn({w}, FirstDay(y, m), NthWeekdayDay(y, m, w, n) + 1) == n
    ensures n < 0 ==> CountIn({w}, NthWeekdayDay(y, m, w, n), LastDay(y, m) + 1) == -n
  {
    NthWeekdayInCounts(FirstDay(y, m), LastDay(y, m), w, n);
  }

  lemma MonthSpan(y: int, m: int)
    requires 1 <= m <= 12
    ensures LastDay(y, m) == FirstDay(y, m) + DaysInMonth(y, m) - 1
  {
  }

  /** For 1 <= |n| <= 4 the n-th weekday lies inside the month. */
  lemma NthWeekdayInMonth(y: int, m: int, w: int, n: int)
    requires 1 <= m <= 12 && 0 <= w < 7 && (1 <= n <= 4 || -4 <= n <= -1)
    ensures FirstDay(y, m) <= NthWeekdayDay(y, m, w, n) <= LastDay(y, m)
  {
    MonthSpan(y, m);
  }

  lemma CountGrowsBack(S: set<int>, a: int, b: int, hi: int)
    requires a < b <= hi && Weekday(a) in S
    ensures CountIn(S, a, hi) >= CountIn(S, b, hi) + 1
  {
    CountSplit(S, a, a + 1, hi);
    CountSplit(S, a + 1, b, hi);
  }

  /** The forward walk of _get_nth_weekday: from `first`, count days of weekday w until
      the n-th. */
  method WalkToNthWeekday(first: int, w: int, n: int) returns (dt: int)
    requires 0 <= w < 7 && n > 0
    ensures dt == WeekdayOnOrAfter(first, w) + 7 * (n - 1)
  {
    ghost var target := WeekdayOnOrAfter(first, w) + 7 * (n - 1);
    NthWeekdayForward(first, w, n);
    dt := first;
    var count := 0;
    while true
      invariant first <= dt <= target
      invariant count == CountIn({w}, first, dt) && count < n
      decreases target - dt
    {
      WeekdayNext(dt);
      if Weekday(dt) == w {
        count := count + 1;
        if count == n {
          break;
        }
      }
      dt := dt + 1;
    }
    if dt < target {
      CountGrows({w}, first, dt + 1, target);
    }
  }

  /** The backward walk of _get_nth_weekday: from `last`, count days of weekday w back
      until the n-th from the end. */
  method WalkBackToNthWeekday(last: int, w: int, n: int) returns (dt: int)
    requires 0 <= w < 7 && n > 0
    ensures dt == WeekdayOnOrBefore(last, w) - 7 * (n - 1)
  {
    ghost var target := WeekdayOnOrBefore(last, w) - 7 * (n - 1);
    NthWeekdayBackward(last, w, n);
    dt := last;
    var count := -1;
    while true
      invariant target <= dt <= last
      invariant CountIn({w}, dt + 1, last + 1) == -count - 1 && count >= -n
      decreases dt - target
    {
      WeekdayNext(dt - 1);
      CountSplit({w}, dt, dt + 1, last + 1);
      if Weekday(dt) == w {
        if -n == count {
          break;
        }
        count := count - 1;
      }
      dt := dt - 1;
    }
    if target < dt {
      CountGrowsBack({w}, target, dt, last + 1);
    }
  }

  /** _get_nth_weekday (MonthlyWeekdayOccurrence, YearlyWeekdayOccurrence): walk day by
      day from the 1st (n > 0) or from the last day (n < 0) counting weekdays w, then set
      the time of day.  n = 0 never stops in the source; it is excluded here. */
  method NthWeekday(y: int, m: int, w: int, n: int, c: Clock) returns (r: int)
    requires 1 <= m <= 12 && 0 <= w < 7 && n != 0
    ensures r == At(NthWeekdayDay(y, m, w, n), c)
  {
    var dt;
    if n > 0 {
      dt := WalkToNthWeekday(FirstDay(y, m), w, n);
    } else {
      dt := WalkBackToNthWeekday(LastDay(y, m), w, -n);
    }
    r := At(dt, c);
  }

  // ----- the n-th business day of a month -----

  /** The nearest business day on or after z. */
  function BusinessOnOrAfter(z: int): (r: int)
    ensures z <= r <= z + 2 && Weekday(r) < 5
    ensures forall d :: z <= d < r ==> Weekday(d) >= 5
  {
    ShiftValue(z, 1);
    ShiftValue(z, 2);
    z + (if Weekday(z) == 5 then 2 else if Weekday(z) == 6 then 1 else 0)
  }

  /** The nearest business day on or before z. */
  function BusinessOnOrBefore(z: int): (r: int)
    ensures z - 2 <= r <= z && Weekday(r) < 5
    ensures forall d :: r < d <= z ==> Weekday(d) >= 5
  {
    ShiftValue(z - 1, 1);
    ShiftValue(z - 2, 2);
    z - (if Weekday(z) == 5 then 1 else if Weekday(z) == 6 then 2 else 0)
  }

  /** The n-th business day (n >= 1) counted from day `first`. */
  function NthBusinessForward(first: int, n: int): (r: int)
    requires n > 0
    ensures first + 7 * ((n - 1) / 5) + (n - 1) % 5 <= r <= first + 7 * ((n - 1) / 5) + (n - 1) % 5 + 4
  {
    var start := BusinessOnOrAfter(first);
    var k := n - 1;
    start + 7 * (k / 5) + k % 5 + (if Weekday(start) + k % 5 > 4 then 2 else 0)
  }

  /** The n-th business day (n >= 1) counted back from day `last`. */
  function NthBusinessBackward(last: int, n: int): (r: int)
    requires n > 0
    ensures last - 7 * ((n - 1) / 5) - (n - 1) % 5 - 4 <= r <= last - 7 * ((n - 1) / 5) - (n - 1) % 5
  {
    var end := BusinessOnOrBefore(last);
    var k := n - 1;
    end - 7 * (k / 5) - k % 5 - (if Weekday(end) < k % 5 then 2 else 0)
  }

  /** Day number of the n-th business day of month (y, m), counted from the 1st when
      n > 0 and back from the last day when n < 0. */
  function NthBusinessDayDay(y: int, m: int, n: int): int
    requires 1 <= m <= 12 && n != 0
  {
    if n > 0 then NthBusinessForward(FirstDay(y, m), n)
    else NthBusinessBackward(LastDay(y, m), -n)
  }

  /** From business day g, j more business days forward (j < 5) skip at most one weekend. */
  lemma {:induction false} BusinessAhead(g: int, j: int)
    requires Weekday(g) < 5 && 0 <= j <= 4
    ensures Weekday(g + j + (if Weekday(g) + j > 4 then 2 else 0)) < 5
    ensures CountIn(Business, g, g + j + (if Weekday(g) + j > 4 then 2 else 0) + 1) == j + 1
    decreases j
  {
    if j == 0 {
      CountOne(Business, g);
    } else {
      BusinessAhead(g, j - 1);
      var e' := g + j - 1 + (if Weekday(g) + j - 1 > 4 then 2 else 0);
      var e := g + j + (if Weekday(g) + j > 4 then 2 else 0);
      if Weekday(g) + j == 5 {
        assert e == e' + 3;
        ShiftValue(g, j - 1);
        ShiftValue(e', 1);
        ShiftValue(e', 2);
        ShiftValue(e', 3);
        CountSplit(Business, g, e' + 1, e + 1);
        CountSplit(Business, e' + 1, e, e + 1);
        CountNone(Business, e' + 1, e);
        CountOne(Business, e);
      } else {
        assert e == e' + 1;
        ShiftValue(g, e - g);
        CountSplit(Business, g, e, e + 1);
        CountOne(Business, e);
      }
    }
  }

  /** From business day g, j more business days backward (j < 5) skip at most one weekend. */
  lemma {:induction false} BusinessBehind(g: int, j: int)
    requires Weekday(g) < 5 && 0 <= j <= 4
    ensures Weekday(g - j - (if Weekday(g) < j then 2 else 0)) < 5
    ensures CountIn(Business, g - j - (if Weekday(g) < j then 2 else 0), g + 1) == j + 1
    decreases j
  {
    if j == 0 {
      CountOne(Business, g);
    } else {
      BusinessBehind(g, j - 1);
      var e' := g - (j - 1) - (if Weekday(g) < j - 1 then 2 else 0);
      var e := g - j - (if Weekday(g) < j then 2 else 0);
      if Weekday(g) == j - 1 {
        assert e == e' - 3;
        ShiftValue(e', g - e');
        ShiftValue(e, 1);
        ShiftValue(e, 2);
        ShiftValue(e, 3);
        CountSplit(Business, e, e + 1, g + 1);
        CountSplit(Business, e + 1, e', g + 1);
        CountNone(Business, e + 1, e');
        CountOne(Business, e);
      } else {
        assert e == e' - 1;
        ShiftValue(e, g - e);
        CountSplit(Business, e, e + 1, g + 1);
        CountOne(Business, e);
      }
    }
  }

  /** A count over three adjacent spans is the sum of their counts. */
  lemma SpansAddUp(S: set<int>, a: int, b: int, c: int, d: int, x: int, y: int, z: int)
    requires a <= b <= c <= d
    requires CountIn(S, a, b) == x && CountIn(S, b, c) == y && CountIn(S, c, d) == z
    ensures CountIn(S, a, d) == x + y + z
  {
    CountSplit(S, a, b, d);
    CountSplit(S, b, c, d);
  }

  lemma BusinessForwardCounts(first: int, n: int)
    requires n > 0
    ensures Weekday(NthBusinessForward(first, n)) < 5
    ensures CountIn(Business, first, NthBusinessForward(first, n) + 1) == n
  {
    var r := NthBusinessForward(first, n);
    var start := BusinessOnOrAfter(first);
    var k := n - 1;
    var q, j := k / 5, k % 5;
    assert k == 5 * q + j && 0 <= j < 5 && q >= 0;
    var g := start + 7 * q;
    CountNone(Business, first, start);
    WeekdayWeeks(start, q);
    WeeksHaveFive(start, q);
    BusinessAhead(g, j);
    assert r == g + j + (if Weekday(g) + j > 4 then 2 else 0);
    SpansAddUp(Business, first, start, g, r + 1, 0, 5 * q, j + 1);
  }

  lemma BusinessBackwardCounts(last: int, n: int)
    requires n > 0
    ensures Weekday(NthBusinessBackward(last, n)) < 5
    ensures CountIn(Business, NthBusinessBackward(last, n), last + 1) == n
  {
    var r := NthBusinessBackward(last, n);
    var end := BusinessOnOrBefore(last);
    var k := n - 1;
    var q, j := k / 5, k % 5;
    assert k == 5 * q + j && 0 <= j < 5 && q >= 0;
    var g := end - 7 * q;
    CountNone(Business, end + 1, last + 1);
    WeekdayWeeks(g, q);
    assert g + 7 * q == end;
    WeeksHaveFive(g + 1, q);
    assert g + 1 + 7 * q == end + 1;
    BusinessBehind(g, j);
    assert r == g - j - (if Weekday(g) < j then 2 else 0);
    SpansAddUp(Business, r, g + 1, end + 1, last + 1, j + 1, 5 * q, 0);
  }

  /** The day found is a business day, and exactly n (resp. |n|) business days lie between
      the month's first day (resp. last day) and it, both ends included. */
  lemma NthBusinessDayCounts(y: int, m: int, n: int)
    requires 1 <= m <= 12 && n != 0
    ensures Weekday(NthBusinessDayDay(y, m, n)) < 5
    ensures n > 0 ==> CountIn(Business, FirstDay(y, m), NthBusinessDayDay(y, m, n) + 1) == n
    ensures n < 0 ==> CountIn(Business, NthBusinessDayDay(y, m, n), LastDay(y, m) + 1) == -n
  {
    if n > 0 {
      BusinessForwardCounts(FirstDay(y, m), n);
    } else {
      BusinessBackwardCounts(LastDay(y, m), -n);
    }
  }

  lemma BusinessForwardWithin(first: int, n: int)
    requires 1 <= n <= 20
    ensures NthBusinessForward(first, n) <= first + 27
  {
    var start := BusinessOnOrAfter(first);
    var k := n - 1;
    if k == 19 {
      ShiftValue(first, start - first);
    }
  }

  lemma BusinessBackwardWithin(last: int, n: int)
    requires 1 <= n <= 20
    ensures last - 27 <= NthBusinessBackward(last, n)
  {
    var end := BusinessOnOrBefore(last);
    var k := n - 1;
    if k == 19 {
      ShiftValue(end, last - end);
    }
  }

  /** For 1 <= |n| <= 20 the n-th business day lies inside the month. */
  lemma NthBusinessDayInMonth(y: int, m: int, n: int)
    requires 1 <= m <= 12 && (1 <= n <= 20 || -20 <= n <= -1)
    ensures FirstDay(y, m) <= NthBusinessDayDay(y, m, n) <= LastDay(y, m)
  {
    MonthSpan(y, m);
    if n > 0 {
      BusinessForwardWithin(FirstDay(y, m), n);
    } else {
      BusinessBackwardWithin(LastDay(y, m), -n);
    }
  }

  /** The forward walk of _get_nth_business_day: from `first`, count days with
      day_of_week < 5 until the n-th. */
  method WalkToNthBusinessDay(first: int, n: int) returns (dt: int)
    requires n > 0
    ensures dt == NthBusinessForward(first, n)
  {
    ghost var target := NthBusinessForward(first, n);
    BusinessForwardCounts(first, n);
    dt := first;
    var count := 0;
    while true
      invariant first <= dt <= target
      invariant count == CountIn(Business, first, dt) && count < n
      decreases target - dt
    {
      WeekdayNext(dt);
      if Weekday(dt) < 5 {
        count := count + 1;
        if count == n {
          break;
        }
      }
      dt := dt + 1;
    }
    if dt < target {
      CountGrows(Business, first, dt + 1, target);
    }
  }

  /** The backward walk of _get_nth_business_day: from `last`, count days with
      day_of_week < 5 back until the n-th from the end. */
  method WalkBackToNthBusinessDay(last: int, n: int) returns (dt: int)
    requires n > 0
    ensures dt == NthBusinessBackward(last, n)
  {
    ghost var target := NthBusinessBackward(last, n);
    BusinessBackwardCounts(last, n);
    dt := last;
    var count := -1;
    while true
      invariant target <= dt <= last
      invariant CountIn(Business, dt + 1, last + 1) == -count - 1 && count >= -n
      decreases dt - target
    {
      WeekdayNext(dt - 1);
      CountSplit(Business, dt, dt + 1, last + 1);
      if Weekday(dt) < 5 {
        if -n == count {
          break;
        }
        count := count - 1;
      }
      dt := dt - 1;
    }
    if target < dt {
      CountGrowsBack(Business, target, dt, last + 1);
    }
  }

  /** BusinessDayOfMonth._get_nth_business_day: walk day by day from the 1st (n > 0) or
      from the last day (n < 0) counting days with day_of_week < 5, then set the time of
      day.  n = 0 never stops in the source; it is excluded here. */
  method NthBusinessDay(y: int, m: int, n: int, c: Clock) returns (r: int)
    requires 1 <= m <= 12 && n != 0
    ensures r == At(NthBusinessDayDay(y, m, n), c)
  {
    var dt;
    if n > 0 {
      dt := WalkToNthBusinessDay(FirstDay(y, m), n);
    } else {
      dt := WalkBackToNthBusinessDay(LastDay(y, m), -n);
    }
    r := At(dt, c);
  }

  // ----- the last day of a month, moved off the weekend -----

  /** Day number of the month's last day, or of the Friday before it when it falls on a
      weekend: the last business day of the month. */
  function LastWeekdayDay(y: int, m: int): (r: int)
    requires 1 <= m <= 12
    ensures Weekday(r) < 5 && LastDay(y, m) - 2 <= r <= LastDay(y, m)
    ensures forall z :: r < z <= LastDay(y, m) ==> Weekday(z) >= 5
  {
    BusinessOnOrBefore(LastDay(y, m))
  }

  /** Moving the last day off the weekend gives the month's last business day (n = -1). */
  lemma LastWeekdayIsLastBusinessDay(y: int, m: int)
    requires 1 <= m <= 12
    ensures LastWeekdayDay(y, m) == NthBusinessDayDay(y, m, -1)
  {
  }

  /** MonthlyLastDayExceptWeekend._get_last_day: from the month's last day, step back one
      day at a time while the day is a Saturday or Sunday. */
  method LastDayExceptWeekend(y: int, m: int, c: Clock) returns (r: int)
    requires 1 <= m <= 12
    ensures r == At(LastWeekdayDay(y, m), c)
  {
    var last := LastDay(y, m);
    var dt := last;
    while Weekday(dt) > 4
      invariant LastWeekdayDay(y, m) <= dt <= last
      invariant forall z :: dt < z <= last ==> Weekday(z) >= 5
      decreases dt - LastWeekdayDay(y, m)
    {
      dt := dt - 1;
    }
    r := At(dt, c);
  }
}
