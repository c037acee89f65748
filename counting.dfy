/** Counting days of given weekdays in a range of day numbers: the meaning of
    "the n-th Monday" and "the n-th business day". */
module Counting {
  import opened Civil
  import opened Arith

  /** Monday to Friday (day_of_week < 5). */
  const Business: set<int> := {0, 1, 2, 3, 4}

  /** The number of days z with lo <= z < hi whose weekday is in S. */
  function CountIn(S: set<int>, lo: int, hi: int): nat
    decreases hi - lo
  {
    if hi <= lo then 0 else CountIn(S, lo, hi - 1) + (if Weekday(hi - 1) in S then 1 else 0)
  }

  lemma WeekdayShift(z: int, i: int)
    ensures Weekday(z + i) == (Weekday(z) + i) % 7
  {
  }

  lemma CountOne(S: set<int>, d: int)
    ensures CountIn(S, d, d + 1) == if Weekday(d) in S then 1 else 0
  {
  }

  lemma {:induction false} CountSplit(S: set<int>, lo: int, mid: int, hi: int)
    requires lo <= mid <= hi
    ensures CountIn(S, lo, hi) == CountIn(S, lo, mid) + CountIn(S, mid, hi)
    decreases hi - mid
  {
    if mid < hi {
      CountSplit(S, lo, mid, hi - 1);
    }
  }

  lemma {:induction false} CountNone(S: set<int>, lo: int, hi: int)
    requires lo <= hi
    requires forall z :: lo <= z < hi ==> Weekday(z) !in S
    ensures CountIn(S, lo, hi) == 0
    decreases hi - lo
  {
    if lo < hi {
      CountNone(S, lo, hi - 1);
    }
  }

  /** A day in S after position a raises the count past everything before a. */
  lemma CountGrows(S: set<int>, lo: int, a: int, b: int)
    requires lo <= a <= b && Weekday(b) in S
    ensures CountIn(S, lo, b + 1) >= CountIn(S, lo, a) + 1
  {
    CountSplit(S, lo, a, b + 1);
    CountSplit(S, a, b, b + 1);
  }

  /** The count over [lo, hi) written day by day for a span of seven days. */
  lemma SevenDays(S: set<int>, lo: int)
    ensures CountIn(S, lo, lo + 7) ==
      (if Weekday(lo) in S then 1 else 0) + (if Weekday(lo + 1) in S then 1 else 0)
      + (if Weekday(lo + 2) in S then 1 else 0) + (if Weekday(lo + 3) in S then 1 else 0)
      + (if Weekday(lo + 4) in S then 1 else 0) + (if Weekday(lo + 5) in S then 1 else 0)
      + (if Weekday(lo + 6) in S then 1 else 0)
  {
    assert CountIn(S, lo, lo + 1) == (if Weekday(lo) in S then 1 else 0);
    assert CountIn(S, lo, lo + 2) == CountIn(S, lo, lo + 1) + (if Weekday(lo + 1) in S then 1 else 0);
    assert CountIn(S, lo, lo + 3) == CountIn(S, lo, lo + 2) + (if Weekday(lo + 2) in S then 1 else 0);
    assert CountIn(S, lo, lo + 4) == CountIn(S, lo, lo + 3) + (if Weekday(lo + 3) in S then 1 else 0);
    assert CountIn(S, lo, lo + 5) == CountIn(S, lo, lo + 4) + (if Weekday(lo + 4) in S then 1 else 0);
    assert CountIn(S, lo, lo + 6) == CountIn(S, lo, lo + 5) + (if Weekday(lo + 5) in S then 1 else 0);
  }

  /** The weekday i days on, with the wrap past Sunday written out. */
  lemma ShiftValue(z: int, i: int)
    requires 0 <= i < 7
    ensures Weekday(z + i) == if Weekday(z) + i < 7 then Weekday(z) + i else Weekday(z) + i - 7
  {
    WeekdayShift(z, i);
  }

  /** A remainder modulo 7 of a value below 14. */
  lemma SmallMod(v: int)
    requires 0 <= v < 14
    ensures v % 7 == if v < 7 then v else v - 7
  {
    if v < 7 {
      DivModOf(v, 7, 0, v);
    } else {
      DivModOf(v, 7, 1, v - 7);
    }
  }

  /** Whole weeks later the weekday is the same. */
  lemma WeekdayWeeks(z: int, q: int)
    ensures Weekday(z + 7 * q) == Weekday(z)
  {
    var a := z / 7;
    assert z + 7 * q == (a + q) * 7 + z % 7;
    DivModOf(z + 7 * q, 7, a + q, z % 7);
  }

  /** The weekdays of seven consecutive days, from that of the first. */
  lemma WeekValues(lo: int)
    ensures var a := Weekday(lo);
      && Weekday(lo + 1) == (if a + 1 < 7 then a + 1 else a - 6)
      && Weekday(lo + 2) == (if a + 2 < 7 then a + 2 else a - 5)
      && Weekday(lo + 3) == (if a + 3 < 7 then a + 3 else a - 4)
      && Weekday(lo + 4) == (if a + 4 < 7 then a + 4 else a - 3)
      && Weekday(lo + 5) == (if a + 5 < 7 then a + 5 else a - 2)
      && Weekday(lo + 6) == (if a + 6 < 7 then a + 6 else a - 1)
  {
    ShiftValue(lo, 1);
    ShiftValue(lo, 2);
    ShiftValue(lo, 3);
    ShiftValue(lo, 4);
    ShiftValue(lo, 5);
    ShiftValue(lo, 6);
  }

  /** Every seven consecutive days hold one day of each weekday ... */
  lemma WeekHasOne(w: int, lo: int)
    requires 0 <= w < 7
    ensures CountIn({w}, lo, lo + 7) == 1
  {
    SevenDays({w}, lo);
    WeekValues(lo);
  }

  /** ... and five business days. */
  lemma WeekHasFive(lo: int)
    ensures CountIn(Business, lo, lo + 7) == 5
  {
    SevenDays(Business, lo);
    WeekValues(lo);
  }

  lemma {:induction false} WeeksHaveOne(w: int, lo: int, q: nat)
    requires 0 <= w < 7
    ensures CountIn({w}, lo, lo + 7 * q) == q
    decreases q
  {
    if q > 0 {
      WeeksHaveOne(w, lo, q - 1);
      CountSplit({w}, lo, lo + 7 * (q - 1), lo + 7 * q);
      WeekHasOne(w, lo + 7 * (q - 1));
    }
  }

  lemma {:induction false} WeeksHaveFive(lo: int, q: nat)
    ensures CountIn(Business, lo, lo + 7 * q) == 5 * q
    decreases q
  {
    if q > 0 {
      WeeksHaveFive(lo, q - 1);
      CountSplit(Business, lo, lo + 7 * (q - 1), lo + 7 * q);
      WeekHasFive(lo + 7 * (q - 1));
    }
  }
}
