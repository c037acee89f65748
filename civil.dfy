/** Proleptic Gregorian calendar arithmetic on one naive local timeline.

    A day number counts days from 0001-01-01 (day 0, a Monday), so the weekday of a
    day number is its remainder modulo 7 with Monday = 0 ... Sunday = 6, the
    convention the timetables use.  An instant is a whole number of seconds since
    0001-01-01T00:00:00 on the same timeline. */
module Civil {

  /** A calendar date; `ValidDate` says when it names a real day. */
  datatype Date = Date(year: int, month: int, day: int)

  /** A time of day; `ValidClock` says when its fields are in range. */
  datatype Clock = Clock(hour: int, minute: int, second: int)

  const SecondsPerDay := 86400
  const DaysPer400Years := 146097

  predicate IsLeap(y: int) {
    y % 4 == 0 && (y % 100 != 0 || y % 400 == 0)
  }

  function DaysInYear(y: int): int {
    if IsLeap(y) then 366 else 365
  }

  function DaysInMonth(y: int, m: int): (r: int)
    requires 1 <= m <= 12
    ensures 28 <= r <= 31
    ensures r < 30 <==> m == 2
    ensures r == 29 <==> m == 2 && IsLeap(y)
  {
    if m == 2 then (if IsLeap(y) then 29 else 28)
    else if m == 4 || m == 6 || m == 9 || m == 11 then 30
    else 31
  }

  predicate ValidDate(d: Date) {
    1 <= d.month <= 12 && 1 <= d.day <= DaysInMonth(d.year, d.month)
  }

  predicate ValidClock(c: Clock) {
    0 <= c.hour < 24 && 0 <= c.minute < 60 && 0 <= c.second < 60
  }

  /** Seconds from midnight to the given time of day. */
  function SecondsOfClock(c: Clock): int {
    c.hour * 3600 + c.minute * 60 + c.second
  }

  /** Day number of January 1st of year `y`. */
  function YearStart(y: int): int {
    365 * (y - 1) + (y - 1) / 4 - (y - 1) / 100 + (y - 1) / 400
  }

  /** Days of year `y` that precede the first of month `m`. */
  function DaysBeforeMonth(y: int, m: int): int
    requires 1 <= m <= 12
  {
    [0, 31, 59, 90, 120, 151, 181, 212, 243, 273, 304, 334][m - 1]
    + (if m > 2 && IsLeap(y) then 1 else 0)
  }

  function DayNumber(d: Date): int
    requires 1 <= d.month <= 12
  {
    YearStart(d.year) + DaysBeforeMonth(d.year, d.month) + d.day - 1
  }

  lemma FloorStep4(y: int)
    ensures y / 4 - (y - 1) / 4 == if y % 4 == 0 then 1 else 0
  {
    var q, r := (y - 1) / 4, (y - 1) % 4;
    assert y == 4 * q + r + 1;
    if r == 3 {
      assert y == 4 * (q + 1) + 0;
    }
  }

  lemma FloorStep100(y: int)
    ensures y / 100 - (y - 1) / 100 == if y % 100 == 0 then 1 else 0
  {
    var q, r := (y - 1) / 100, (y - 1) % 100;
    assert y == 100 * q + r + 1;
    if r == 99 {
      assert y == 100 * (q + 1) + 0;
    }
  }

  lemma FloorStep400(y: int)
    ensures y / 400 - (y - 1) / 400 == if y % 400 == 0 then 1 else 0
  {
    var q, r := (y - 1) / 400, (y - 1) % 400;
    assert y == 400 * q + r + 1;
    if r == 399 {
      assert y == 400 * (q + 1) + 0;
    }
  }

  lemma YearLength(y: int)
    ensures YearStart(y + 1) == YearStart(y) + DaysInYear(y)
  {
    FloorStep4(y);
    FloorStep100(y);
    FloorStep400(y);
    if y % 400 == 0 {
      assert y % 100 == 0 && y % 4 == 0;
    } else if y % 100 == 0 {
      assert y % 4 == 0;
    }
  }

  lemma YearStartCycle(q: int)
    ensures YearStart(400 * q + 1) == DaysPer400Years * q
  {
  }

  lemma {:induction false} YearStartMonotone(a: int, b: int)
    requires a < b
    ensures YearStart(a + 1) <= YearStart(b)
    decreases b - a
  {
    if a + 1 < b {
      YearStartMonotone(a + 1, b);
      YearLength(a + 1);
    }
  }

  lemma MonthLength(y: int, m: int)
    requires 1 <= m < 12
    ensures DaysBeforeMonth(y, m + 1) == DaysBeforeMonth(y, m) + DaysInMonth(y, m)
  {
  }

  lemma DecemberLength(y: int)
    ensures DaysBeforeMonth(y, 12) + DaysInMonth(y, 12) == DaysInYear(y)
  {
  }

  lemma MonthsOrdered(y: int, m: int, m': int)
    requires 1 <= m < m' <= 12
    ensures DaysBeforeMonth(y, m) + DaysInMonth(y, m) <= DaysBeforeMonth(y, m')
  {
  }

  /** The year whose day range holds day number `z`, found by stepping up from year `y`. */
  function FindYear(z: int, y: int): (r: int)
    requires YearStart(y) <= z
    ensures YearStart(r) <= z < YearStart(r + 1)
    decreases z - YearStart(y)
  {
    YearLength(y);
    if YearStart(y + 1) <= z then FindYear(z, y + 1) else y
  }

  /** The month of year `y` that holds the `off`-th day of that year (0-based). */
  function FindMonth(y: int, off: int, m: int): (r: int)
    requires 1 <= m <= 12
    requires DaysBeforeMonth(y, m) <= off < DaysInYear(y)
    ensures 1 <= r <= 12
    ensures DaysBeforeMonth(y, r) <= off < DaysBeforeMonth(y, r) + DaysInMonth(y, r)
    decreases 12 - m
  {
    if m < 12 && DaysBeforeMonth(y, m + 1) <= off then FindMonth(y, off, m + 1)
    else
      DecemberLength(y);
      if m < 12 then MonthLength(y, m); m else m
  }

  /** The calendar date of day number `z`. */
  function CivilOfDay(z: int): (r: Date)
    ensures ValidDate(r) && DayNumber(r) == z
  {
    var q := z / DaysPer400Years;
    YearStartCycle(q);
    var y := FindYear(z, 400 * q + 1);
    YearLength(y);
    var off := z - YearStart(y);
    var m := FindMonth(y, off, 1);
    Date(y, m, off - DaysBeforeMonth(y, m) + 1)
  }

  lemma DayNumberInYear(d: Date)
    requires ValidDate(d)
    ensures YearStart(d.year) <= DayNumber(d) < YearStart(d.year + 1)
  {
    YearLength(d.year);
    if d.month < 12 {
      MonthsOrdered(d.year, d.month, 12);
    }
    DecemberLength(d.year);
  }

  /** Day numbers name valid dates one-to-one: converting back gives the date. */
  lemma CivilOfDayNumber(d: Date)
    requires ValidDate(d)
    ensures CivilOfDay(DayNumber(d)) == d
  {
    var z := DayNumber(d);
    var r := CivilOfDay(z);
    DayNumberInYear(d);
    DayNumberInYear(r);
    if r.year < d.year {
      YearStartMonotone(r.year, d.year);
    } else if d.year < r.year {
      YearStartMonotone(d.year, r.year);
    }
    assert r.year == d.year;
    if r.month < d.month {
      MonthsOrdered(d.year, r.month, d.month);
    } else if d.month < r.month {
      MonthsOrdered(d.year, d.month, r.month);
    }
  }

  lemma DayNumberInjective(d: Date, e: Date)
    requires ValidDate(d) && ValidDate(e) && DayNumber(d) == DayNumber(e)
    ensures d == e
  {
    CivilOfDayNumber(d);
    CivilOfDayNumber(e);
  }

  /** Monday = 0 ... Sunday = 6. */
  function Weekday(z: int): (r: int)
    ensures 0 <= r < 7
  {
    z % 7
  }

  lemma WeekdayNext(z: int)
    ensures Weekday(z + 1) == (Weekday(z) + 1) % 7
  {
  }

  // ----- months as consecutive indices -----

  /** Months numbered consecutively: January of year 0 is month index 0. */
  function MonthIndex(y: int, m: int): int {
    12 * y + m - 1
  }

  function YearOfIndex(k: int): int {
    k / 12
  }

  function MonthOfIndex(k: int): (r: int)
    ensures 1 <= r <= 12
  {
    k % 12 + 1
  }

  lemma MonthIndexRoundTrip(y: int, m: int)
    requires 1 <= m <= 12
    ensures YearOfIndex(MonthIndex(y, m)) == y && MonthOfIndex(MonthIndex(y, m)) == m
  {
  }

  lemma IndexMonthRoundTrip(k: int)
    ensures MonthIndex(YearOfIndex(k), MonthOfIndex(k)) == k
  {
  }

  /** The month after (y, m), as the timetables step it. */
  function NextMonth(y: int, m: int): (int, int) {
    if m == 12 then (y + 1, 1) else (y, m + 1)
  }

  /** The month before (y, m), as the timetables step it. */
  function PrevMonth(y: int, m: int): (int, int) {
    if m == 1 then (y - 1, 12) else (y, m - 1)
  }

  lemma NextMonthIndex(y: int, m: int)
    requires 1 <= m <= 12
    ensures 1 <= NextMonth(y, m).1 <= 12
    ensures MonthIndex(NextMonth(y, m).0, NextMonth(y, m).1) == MonthIndex(y, m) + 1
  {
  }

  lemma PrevMonthIndex(y: int, m: int)
    requires 1 <= m <= 12
    ensures 1 <= PrevMonth(y, m).1 <= 12
    ensures MonthIndex(PrevMonth(y, m).0, PrevMonth(y, m).1) == MonthIndex(y, m) - 1
  {
  }

  /** Day number of the first day of month (y, m). */
  function FirstDay(y: int, m: int): int
    requires 1 <= m <= 12
  {
    DayNumber(Date(y, m, 1))
  }

  /** Day number of the last day of month (y, m). */
  function LastDay(y: int, m: int): int
    requires 1 <= m <= 12
  {
    DayNumber(Date(y, m, DaysInMonth(y, m)))
  }

  /** The first day of the following month comes right after the last day of this one. */
  lemma FirstDayOfNextMonth(y: int, m: int)
    requires 1 <= m <= 12
    ensures FirstDay(NextMonth(y, m).0, NextMonth(y, m).1) == LastDay(y, m) + 1
  {
    if m < 12 {
      MonthLength(y, m);
    } else {
      DecemberLength(y);
      YearLength(y);
    }
  }

  /** The same for months numbered by index. */
  lemma MonthStep(k: int)
    ensures FirstDay(YearOfIndex(k + 1), MonthOfIndex(k + 1))
      == LastDay(YearOfIndex(k), MonthOfIndex(k)) + 1
  {
    var y, m := YearOfIndex(k), MonthOfIndex(k);
    IndexMonthRoundTrip(k);
    NextMonthIndex(y, m);
    MonthIndexRoundTrip(NextMonth(y, m).0, NextMonth(y, m).1);
    FirstDayOfNextMonth(y, m);
  }

  /** Of two consecutive months at least one has 31 days. */
  lemma ShortMonthThenLong(y: int, m: int)
    requires 1 <= m <= 12
    requires DaysInMonth(y, m) < 31
    ensures DaysInMonth(NextMonth(y, m).0, NextMonth(y, m).1) == 31
  {
  }

  // ----- instants -----

  /** The instant at time of day `c` on day number `z`. */
  function At(z: int, c: Clock): int {
    z * 86400 + SecondsOfClock(c)
  }

  function DayOf(t: int): int {
    t / 86400
  }

  function ClockOf(t: int): (c: Clock)
    ensures ValidClock(c)
  {
    var s := t % 86400;
    Clock(s / 3600, (s % 3600) / 60, s % 60)
  }

  function DateOf(t: int): (d: Date)
    ensures ValidDate(d)
  {
    CivilOfDay(DayOf(t))
  }

  /** The instant at date `d` and time `c` (Python's datetime(y, m, d, hh, mm, ss)). */
  function Instant(d: Date, c: Clock): int
    requires 1 <= d.month <= 12
  {
    At(DayNumber(d), c)
  }

  /** Keep the day of `t`, set its time of day to `c` (Python's replace(hour=.., minute=.., second=..)). */
  function ReplaceClock(t: int, c: Clock): int {
    At(DayOf(t), c)
  }

  lemma ClockSeconds(c: Clock)
    requires ValidClock(c)
    ensures 0 <= SecondsOfClock(c) < SecondsPerDay
    ensures SecondsOfClock(c) / 3600 == c.hour
    ensures (SecondsOfClock(c) % 3600) / 60 == c.minute
    ensures SecondsOfClock(c) % 60 == c.second
  {
  }

  lemma DivModUnique(t: int, q: int, r: int)
    requires t == q * SecondsPerDay + r && 0 <= r < SecondsPerDay
    ensures t / SecondsPerDay == q && t % SecondsPerDay == r
  {
  }

  /** An instant built from a day and a valid time of day gives both back. */
  lemma AtParts(z: int, c: Clock)
    requires ValidClock(c)
    ensures DayOf(At(z, c)) == z
    ensures ClockOf(At(z, c)) == c
    ensures z * 86400 <= At(z, c) < z * 86400 + 86400
  {
    ClockSeconds(c);
    DivModUnique(At(z, c), z, SecondsOfClock(c));
  }

  /** The time of day of t, in seconds, is t's remainder modulo a day. */
  lemma ClockOfSeconds(t: int)
    ensures SecondsOfClock(ClockOf(t)) == t % 86400
  {
    var s := t % 86400;
    assert s == (s / 3600) * 3600 + ((s % 3600) / 60) * 60 + s % 60;
  }

  /** Time c on x's own day is after x exactly when c is later in the day than x. */
  lemma SameDayCompare(c: Clock, x: int)
    requires ValidClock(c)
    ensures At(DayOf(x), c) > x <==> SecondsOfClock(c) > SecondsOfClock(ClockOf(x))
  {
    ClockOfSeconds(x);
    assert x == DayOf(x) * 86400 + x % 86400;
  }

  /** Time c on day z is after x exactly when z is a later day, or x's day with c
      later in the day. */
  lemma CompareWithInstant(z: int, c: Clock, x: int)
    requires ValidClock(c)
    ensures At(z, c) > x <==> z > DayOf(x) || (z == DayOf(x) && SecondsOfClock(c) > SecondsOfClock(ClockOf(x)))
  {
    if z == DayOf(x) {
      SameDayCompare(c, x);
    } else {
      DayOrder(z, c, x);
    }
  }

  /** Every instant splits into its day and its time of day. */
  lemma SplitInstant(t: int)
    ensures At(DayOf(t), ClockOf(t)) == t
    ensures DayOf(t) * 86400 <= t < DayOf(t) * 86400 + 86400
  {
  }

  lemma AtOrder(z: int, c: Clock, z': int, c': Clock)
    requires ValidClock(c) && ValidClock(c')
    ensures z < z' ==> At(z, c) < At(z', c')
    ensures z == z' ==> (At(z, c) < At(z', c') <==> SecondsOfClock(c) < SecondsOfClock(c'))
  {
    ClockSeconds(c);
    ClockSeconds(c');
  }

  /** An instant on an earlier (later) day than x is earlier (later) than x. */
  lemma DayOrder(z: int, c: Clock, x: int)
    requires ValidClock(c)
    ensures z < DayOf(x) ==> At(z, c) < x
    ensures z > DayOf(x) ==> At(z, c) > x
  {
    var d := DayOf(x);
    assert 0 <= SecondsOfClock(c) < SecondsPerDay;
    assert d * SecondsPerDay <= x < (d + 1) * SecondsPerDay;
    if z < d {
      assert (z + 1) * SecondsPerDay <= d * SecondsPerDay;
    }
    if z > d {
      assert (d + 1) * SecondsPerDay <= z * SecondsPerDay;
    }
  }

  /** An instant is determined by its date and its time of day. */
  lemma InstantDetermined(t: int, t': int)
    requires DateOf(t) == DateOf(t') && ClockOf(t) == ClockOf(t')
    ensures t == t'
  {
    SplitInstant(t);
    SplitInstant(t');
  }

  lemma InstantParts(d: Date, c: Clock)
    requires ValidDate(d) && ValidClock(c)
    ensures DateOf(Instant(d, c)) == d && ClockOf(Instant(d, c)) == c
  {
    AtParts(DayNumber(d), c);
    CivilOfDayNumber(d);
  }
}
