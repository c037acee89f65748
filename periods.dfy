/** The nine period-stepping timetables (month, quarter and year families) seen as one
    sequence of occurrences: period k of a rule has exactly one run, at `OccAt(t, k)`.
    Months are numbered by `MonthIndex`, quarters by 4 * year + quarter, years by
    the year itself.  The lemmas here say that occurrences strictly increase with the
    period, and that for the usual configurations each lies inside its own period. */
module Periods {
  import opened Civil
  import opened Counting
  import opened Locators
  import opened Rules

  predicate Periodic(t: Timetable) {
    t.MonthlyLastDay? || t.MonthlyOnDay? || t.MonthlyWeekdayOccurrence? || t.BusinessDayOfMonth?
    || t.MonthlyLastDayExceptWeekend? || t.QuarterlyFirstDay? || t.QuarterlyLastDay?
    || t.YearlyFirstDay? || t.YearlyWeekdayOccurrence?
  }

  predicate Quarterly(t: Timetable) {
    t.QuarterlyFirstDay? || t.QuarterlyLastDay?
  }

  predicate Yearly(t: Timetable) {
    t.YearlyFirstDay? || t.YearlyWeekdayOccurrence?
  }

  /** The index of the period that holds month (y, m). */
  function PeriodOfMonth(t: Timetable, y: int, m: int): int
    requires 1 <= m <= 12
  {
    if Quarterly(t) then 4 * y + (m - 1) / 3
    else if Yearly(t) then y
    else MonthIndex(y, m)
  }

  /** The index of the period that holds instant x. */
  function PeriodOfInstant(t: Timetable, x: int): int {
    PeriodOfMonth(t, DateOf(x).year, DateOf(x).month)
  }

  /** The year of period k. */
  function PeriodYear(t: Timetable, k: int): int {
    if Quarterly(t) then k / 4 else if Yearly(t) then k else YearOfIndex(k)
  }

  /** The first month of period k. */
  function PeriodMonth(t: Timetable, k: int): (r: int)
    ensures 1 <= r <= 12
    ensures Quarterly(t) ==> r <= 10
  {
    if Quarterly(t) then 3 * (k % 4) + 1 else if Yearly(t) then 1 else MonthOfIndex(k)
  }

  /** The last month of period k. */
  function PeriodEndMonth(t: Timetable, k: int): (r: int)
    ensures 1 <= r <= 12
  {
    if Quarterly(t) then PeriodMonth(t, k) + 2 else if Yearly(t) then 12 else PeriodMonth(t, k)
  }

  /** Day numbers of the first and the last day of period k. */
  function PeriodFirst(t: Timetable, k: int): int {
    FirstDay(PeriodYear(t, k), PeriodMonth(t, k))
  }

  function PeriodLast(t: Timetable, k: int): int {
    LastDay(PeriodYear(t, k), PeriodEndMonth(t, k))
  }

  function Min(a: int, b: int): int {
    if a < b then a else b
  }

  /** Day number of the run of period k: what the class's locator returns for the
      period, as a closed form. */
  function OccDay(t: Timetable, k: int): int
    requires Periodic(t) && WellFormed(t)
  {
    var y := PeriodYear(t, k);
    var m := PeriodMonth(t, k);
    match t
    case MonthlyLastDay(_, _) => LastDay(y, m)
    case MonthlyOnDay(day, _, _) => FirstDay(y, m) + Min(day, DaysInMonth(y, m)) - 1
    case MonthlyWeekdayOccurrence(w, n, _, _) => NthWeekdayDay(y, m, w, n)
    case BusinessDayOfMonth(n, _, _) => NthBusinessDayDay(y, m, n)
    case MonthlyLastDayExceptWeekend(_, _) => LastWeekdayDay(y, m)
    case QuarterlyFirstDay(_, _) => FirstDay(y, m)
    case QuarterlyLastDay(_, _) => LastDay(y, m + 2)
    case YearlyFirstDay(_, _) => FirstDay(y, 1)
    case YearlyWeekdayOccurrence(month, w, n, _, _) => NthWeekdayDay(y, month, w, n)
    case _ => 0
  }

  /** The run instant of period k. */
  function OccAt(t: Timetable, k: int): int
    requires Periodic(t) && WellFormed(t)
  {
    At(OccDay(t, k), t.clock)
  }

  /** The configurations whose every run lies inside its own period: the n-th weekday
      for |n| <= 4 and the n-th business day for |n| <= 20 (larger n can run past the
      month end), everything else always. */
  predicate Contained(t: Timetable) {
    match t
    case MonthlyWeekdayOccurrence(_, n, _, _) => -4 <= n <= 4
    case BusinessDayOfMonth(n, _, _) => -20 <= n <= 20
    case YearlyWeekdayOccurrence(_, _, n, _, _) => -4 <= n <= 4
    case _ => true
  }

  // ----- the calendar shape of periods -----

  /** Months a..b of one year: the first day of a is no later, the last day of b no
      earlier, than those of m. */
  lemma MonthsWithin(y: int, a: int, m: int, b: int)
    requires 1 <= a <= m <= b <= 12
    ensures FirstDay(y, a) <= FirstDay(y, m)
    ensures LastDay(y, m) <= LastDay(y, b)
  {
    if a < m {
      MonthsOrdered(y, a, m);
    }
    if m < b {
      MonthsOrdered(y, m, b);
    }
  }

  lemma QuarterStep(k: int)
    ensures FirstDay((k + 1) / 4, 3 * ((k + 1) % 4) + 1) == LastDay(k / 4, 3 * (k % 4) + 3) + 1
  {
    var y, q := k / 4, k % 4;
    FirstDayOfNextMonth(y, 3 * q + 3);
    if q < 3 {
      assert (k + 1) / 4 == y && (k + 1) % 4 == q + 1;
    } else {
      assert (k + 1) / 4 == y + 1 && (k + 1) % 4 == 0;
    }
  }

  /** Consecutive periods are adjacent, and every period spans at least 28 days. */
  lemma PeriodChain(t: Timetable, k: int)
    ensures PeriodFirst(t, k + 1) == PeriodLast(t, k) + 1
    ensures PeriodFirst(t, k) + 27 <= PeriodLast(t, k)
  {
    var y, m := PeriodYear(t, k), PeriodMonth(t, k);
    MonthSpan(y, m);
    MonthsWithin(y, m, m, PeriodEndMonth(t, k));
    if Quarterly(t) {
      QuarterStep(k);
    } else if Yearly(t) {
      FirstDayOfNextMonth(k, 12);
    } else {
      MonthStep(k);
    }
  }

  /** The same month one year later starts and ends at least 365 days later. */
  lemma SameMonthNextYear(y: int, m: int)
    requires 1 <= m <= 12
    ensures FirstDay(y + 1, m) >= FirstDay(y, m) + 365
    ensures LastDay(y + 1, m) >= LastDay(y, m) + 365
  {
    YearLength(y);
  }

  /** Consecutive months start, and end, at least 28 days apart. */
  lemma MonthlyShift(t: Timetable, k: int)
    requires !Quarterly(t) && !Yearly(t)
    ensures FirstDay(PeriodYear(t, k + 1), PeriodMonth(t, k + 1)) >= FirstDay(PeriodYear(t, k), PeriodMonth(t, k)) + 28
    ensures LastDay(PeriodYear(t, k + 1), PeriodMonth(t, k + 1)) >= LastDay(PeriodYear(t, k), PeriodMonth(t, k)) + 28
    ensures FirstDay(PeriodYear(t, k + 1), PeriodMonth(t, k + 1)) == LastDay(PeriodYear(t, k), PeriodMonth(t, k)) + 1
  {
    PeriodChain(t, k);
    PeriodChain(t, k + 1);
  }

  /** The n-th weekday of a window moves later when both ends move 28 days or more. */
  lemma ShiftedWeekday(f: int, l: int, f2: int, l2: int, w: int, n: int)
    requires 0 <= w < 7 && n != 0 && f2 >= f + 28 && l2 >= l + 28
    ensures NthWeekdayIn(f, l, w, n) < NthWeekdayIn(f2, l2, w, n)
  {
  }

  lemma ShiftedBusiness(y: int, m: int, y2: int, m2: int, n: int)
    requires 1 <= m <= 12 && 1 <= m2 <= 12 && n != 0
    requires FirstDay(y2, m2) >= FirstDay(y, m) + 28 && LastDay(y2, m2) >= LastDay(y, m) + 28
    ensures NthBusinessDayDay(y, m, n) < NthBusinessDayDay(y2, m2, n)
  {
  }

  lemma ShiftedLastWeekday(y: int, m: int, y2: int, m2: int)
    requires 1 <= m <= 12 && 1 <= m2 <= 12 && LastDay(y2, m2) >= LastDay(y, m) + 28
    ensures LastWeekdayDay(y, m) < LastWeekdayDay(y2, m2)
  {
  }

  lemma WeekdayOccIncreasing(t: Timetable, k: int)
    requires t.MonthlyWeekdayOccurrence? && WellFormed(t)
    ensures OccDay(t, k) < OccDay(t, k + 1)
  {
    var y, m := PeriodYear(t, k), PeriodMonth(t, k);
    var y', m' := PeriodYear(t, k + 1), PeriodMonth(t, k + 1);
    MonthlyShift(t, k);
    ShiftedWeekday(FirstDay(y, m), LastDay(y, m), FirstDay(y', m'), LastDay(y', m'), t.weekday, t.n);
  }

  lemma BusinessOccIncreasing(t: Timetable, k: int)
    requires t.BusinessDayOfMonth? && WellFormed(t)
    ensures OccDay(t, k) < OccDay(t, k + 1)
  {
    MonthlyShift(t, k);
    ShiftedBusiness(PeriodYear(t, k), PeriodMonth(t, k), PeriodYear(t, k + 1), PeriodMonth(t, k + 1), t.n);
  }

  lemma LastWeekdayOccIncreasing(t: Timetable, k: int)
    requires t.MonthlyLastDayExceptWeekend? && WellFormed(t)
    ensures OccDay(t, k) < OccDay(t, k + 1)
  {
    MonthlyShift(t, k);
    ShiftedLastWeekday(PeriodYear(t, k), PeriodMonth(t, k), PeriodYear(t, k + 1), PeriodMonth(t, k + 1));
  }

  lemma YearlyWeekdayOccIncreasing(t: Timetable, k: int)
    requires t.YearlyWeekdayOccurrence? && WellFormed(t)
    ensures OccDay(t, k) < OccDay(t, k + 1)
  {
    SameMonthNextYear(k, t.month);
    ShiftedWeekday(FirstDay(k, t.month), LastDay(k, t.month), FirstDay(k + 1, t.month), LastDay(k + 1, t.month),
                   t.weekday, t.n);
  }

  lemma OnDayOccIncreasing(t: Timetable, k: int)
    requires (t.MonthlyLastDay? || t.MonthlyOnDay?) && WellFormed(t)
    ensures OccDay(t, k) < OccDay(t, k + 1)
  {
    MonthlyShift(t, k);
    MonthSpan(PeriodYear(t, k), PeriodMonth(t, k));
  }

  /** The quarter and year boundaries: the run is the period's first or last day. */
  lemma BoundaryOccIncreasing(t: Timetable, k: int)
    requires (Quarterly(t) || t.YearlyFirstDay?) && WellFormed(t)
    ensures OccDay(t, k) < OccDay(t, k + 1)
  {
    PeriodChain(t, k);
    PeriodChain(t, k + 1);
  }

  /** Runs of consecutive periods are strictly ordered. */
  lemma OccIncreasing(t: Timetable, k: int)
    requires Periodic(t) && WellFormed(t)
    ensures OccDay(t, k) < OccDay(t, k + 1)
  {
    if t.MonthlyWeekdayOccurrence? {
      WeekdayOccIncreasing(t, k);
    } else if t.BusinessDayOfMonth? {
      BusinessOccIncreasing(t, k);
    } else if t.MonthlyLastDayExceptWeekend? {
      LastWeekdayOccIncreasing(t, k);
    } else if t.YearlyWeekdayOccurrence? {
      YearlyWeekdayOccIncreasing(t, k);
    } else if t.MonthlyLastDay? || t.MonthlyOnDay? {
      OnDayOccIncreasing(t, k);
    } else {
      BoundaryOccIncreasing(t, k);
    }
  }

  lemma {:induction false} OccMonotone(t: Timetable, i: int, j: int)
    requires Periodic(t) && WellFormed(t) && i < j
    ensures OccDay(t, i) < OccDay(t, j)
    decreases j - i
  {
    OccIncreasing(t, j - 1);
    if i < j - 1 {
      OccMonotone(t, i, j - 1);
    }
  }

  /** Run instants strictly increase with the period. */
  lemma OccAtMonotone(t: Timetable, i: int, j: int)
    requires Periodic(t) && WellFormed(t) && i < j
    ensures OccAt(t, i) < OccAt(t, j)
  {
    OccMonotone(t, i, j);
    AtOrder(OccDay(t, i), t.clock, OccDay(t, j), t.clock);
  }

  /** For contained configurations every run lies inside its own period. */
  lemma OccContained(t: Timetable, k: int)
    requires Periodic(t) && WellFormed(t) && Contained(t)
    ensures PeriodFirst(t, k) <= OccDay(t, k) <= PeriodLast(t, k)
  {
    var y, m := PeriodYear(t, k), PeriodMonth(t, k);
    MonthSpan(y, m);
    match t
    case MonthlyWeekdayOccurrence(w, n, _, _) =>
      NthWeekdayInMonth(y, m, w, n);
    case BusinessDayOfMonth(n, _, _) =>
      NthBusinessDayInMonth(y, m, n);
    case QuarterlyLastDay(_, _) =>
      MonthsWithin(y, m, m + 2, m + 2);
    case YearlyFirstDay(_, _) =>
      MonthsWithin(y, 1, 1, 12);
    case YearlyWeekdayOccurrence(month, w, n, _, _) =>
      NthWeekdayInMonth(y, month, w, n);
      MonthsWithin(y, 1, month, 12);
    case _ =>
  }

  /** The period of month (y, m) starts in year y at the month the source's locator
      uses. */
  lemma PeriodOfMonthParts(t: Timetable, y: int, m: int)
    requires 1 <= m <= 12
    ensures PeriodYear(t, PeriodOfMonth(t, y, m)) == y
    ensures Quarterly(t) ==> PeriodMonth(t, PeriodOfMonth(t, y, m)) == QuarterStartMonth(m)
    ensures Yearly(t) ==> PeriodMonth(t, PeriodOfMonth(t, y, m)) == 1
    ensures !Quarterly(t) && !Yearly(t) ==> PeriodMonth(t, PeriodOfMonth(t, y, m)) == m
  {
    if Quarterly(t) {
      var q := (m - 1) / 3;
      assert 0 <= q < 4;
      assert (4 * y + q) / 4 == y && (4 * y + q) % 4 == q;
    } else if !Yearly(t) {
      MonthIndexRoundTrip(y, m);
    }
  }

  /** Every instant lies inside the period the source starts from: the period of its
      own year and month. */
  lemma InstantInPeriod(t: Timetable, x: int)
    ensures PeriodFirst(t, PeriodOfInstant(t, x)) <= DayOf(x) <= PeriodLast(t, PeriodOfInstant(t, x))
  {
    var d := DateOf(x);
    var k := PeriodOfInstant(t, x);
    PeriodOfMonthParts(t, d.year, d.month);
    assert DayOf(x) == DayNumber(d);
    MonthSpan(d.year, d.month);
    MonthsWithin(d.year, PeriodMonth(t, k), d.month, PeriodEndMonth(t, k));
  }

  /** For contained configurations the runs of earlier periods lie before period k ... */
  lemma EarlierPeriodsBefore(t: Timetable, k: int)
    requires Periodic(t) && WellFormed(t) && Contained(t)
    ensures forall j :: j < k ==> OccDay(t, j) < PeriodFirst(t, k)
  {
    forall j | j < k ensures OccDay(t, j) < PeriodFirst(t, k) {
      PeriodChain(t, k - 1);
      OccContained(t, k - 1);
      if j < k - 1 {
        OccMonotone(t, j, k - 1);
      }
    }
  }

  /** ... and the runs of later periods after it. */
  lemma LaterPeriodsAfter(t: Timetable, k: int)
    requires Periodic(t) && WellFormed(t) && Contained(t)
    ensures forall j :: j > k ==> OccDay(t, j) > PeriodLast(t, k)
  {
    forall j | j > k ensures OccDay(t, j) > PeriodLast(t, k) {
      PeriodChain(t, k);
      OccContained(t, k + 1);
      if j > k + 1 {
        OccMonotone(t, k + 1, j);
      }
    }
  }

  /** For contained configurations the runs of periods before that of x come before x,
      the runs of later periods after x. */
  lemma RunsAroundInstant(t: Timetable, x: int)
    requires Periodic(t) && WellFormed(t) && Contained(t)
    ensures forall j :: j < PeriodOfInstant(t, x) ==> OccAt(t, j) < x
    ensures forall j :: j > PeriodOfInstant(t, x) ==> OccAt(t, j) > x
  {
    var k0 := PeriodOfInstant(t, x);
    InstantInPeriod(t, x);
    EarlierPeriodsBefore(t, k0);
    LaterPeriodsAfter(t, k0);
    forall j | j != k0 ensures (j < k0 ==> OccAt(t, j) < x) && (j > k0 ==> OccAt(t, j) > x) {
      DayOrder(OccDay(t, j), t.clock, x);
    }
  }

  /** Runs grow by at least one second per period, so some period's run reaches any
      given instant. */
  lemma {:induction false} OccAtGrows(t: Timetable, i: int, j: int)
    requires Periodic(t) && WellFormed(t) && i <= j
    ensures OccAt(t, j) >= OccAt(t, i) + (j - i)
    decreases j - i
  {
    if i < j {
      OccAtGrows(t, i, j - 1);
      OccAtMonotone(t, j - 1, j);
    }
  }

  lemma SomeRunReaches(t: Timetable, k: int, x: int) returns (K: int)
    requires Periodic(t) && WellFormed(t)
    ensures K >= k
    ensures OccAt(t, K) >= x
  {
    ghost var a := OccAt(t, k);
    K := if x > a then k + (x - a) else k;
    OccAtGrows(t, k, K);
  }
}
