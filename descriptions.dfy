/** The `description` text of each class: the schedule in words, its hour and minute
    as `HH:MM` and the time zone in parentheses.  The renderers are the weekday names,
    the ordinal words, the `str(list)` of MonthlyMultipleDays and the pluralised
    units of EveryNInterval. */
module Describe {
  import opened Civil
  import opened Schedule
  import opened Rules
  import opened Text
  import opened Codec

  // ----- weekday names -----

  const WeekdayNames: seq<string> :=
    ["Monday", "Tuesday", "Wednesday", "Thursday", "Friday", "Saturday", "Sunday"]

  /** A name written in letters only. */
  predicate IsWord(s: string) {
    |s| >= 1 && forall i :: 0 <= i < |s| ==> 'A' <= s[i] <= 'Z' || 'a' <= s[i] <= 'z'
  }

  /** The list literal indexed by the weekday, as Python indexes it: a negative index
      counts from the end, anything outside -7..6 raises IndexError. */
  function WeekdayName(w: int): (name: string)
    requires -7 <= w < 7
    ensures name == WeekdayNames[w % 7]
    ensures IsWord(name)
  {
    WeekdayNames[if w < 0 then w + 7 else w]
  }

  /** Different weekdays have different names. */
  lemma WeekdayNamesDistinct(i: int, j: int)
    requires 0 <= i < 7 && 0 <= j < 7 && WeekdayNames[i] == WeekdayNames[j]
    ensures i == j
  {
    assert WeekdayNames[i][0] == WeekdayNames[j][0] && WeekdayNames[i][1] == WeekdayNames[j][1];
  }

  /** WeeklyOnDay's label: the name when the list can be indexed by the weekday, and
      `str(weekday)` otherwise. */
  function WeeklyLabel(w: int): (shown: string)
    ensures -7 <= w < 7 ==> shown == WeekdayNames[w % 7]
    ensures !(-7 <= w < 7) ==> ParseInt(shown) == Some(w)
    ensures |shown| >= 1 && (IsDigit(shown[0]) || shown[0] == '-' <==> !(-7 <= w < 7))
    ensures Free(shown, {' '})
  {
    if -7 <= w < 7 then WeekdayName(w)
    else
      IntToStringRoundTrip(w);
      NumberTextFree(IntToString(w), {' '});
      IntToString(w)
  }

  /** What a weekday label tells apart: the day of the week for an indexable weekday,
      the number itself otherwise. */
  function WeekdayKey(w: int): int {
    if -7 <= w < 7 then w % 7 else w
  }

  lemma WeeklyLabelIdentifies(w1: int, w2: int)
    ensures WeeklyLabel(w1) == WeeklyLabel(w2) <==> WeekdayKey(w1) == WeekdayKey(w2)
  {
    if WeeklyLabel(w1) == WeeklyLabel(w2) {
      if -7 <= w1 < 7 {
        WeekdayNamesDistinct(w1 % 7, w2 % 7);
      } else {
        IntToStringInjective(w1, w2);
      }
    }
  }

  // ----- ordinal words -----

  /** `{1: "First", 2: "Second", 3: "Third", 4: "Fourth", -1: "Last"}.get(n, f"{n}th")`. */
  function Ordinal(n: int): (word: string)
    ensures n == 1 ==> word == "First"
    ensures n == 2 ==> word == "Second"
    ensures n == 3 ==> word == "Third"
    ensures n == 4 ==> word == "Fourth"
    ensures n == -1 ==> word == "Last"
    ensures n !in {1, 2, 3, 4, -1} ==>
              |word| >= 3 && word[|word| - 2..] == "th" && ParseInt(word[..|word| - 2]) == Some(n)
    ensures |word| >= 1 && (IsDigit(word[0]) || word[0] == '-' <==> n !in {1, 2, 3, 4, -1})
    ensures Free(word, {' '})
  {
    if n == 1 then "First"
    else if n == 2 then "Second"
    else if n == 3 then "Third"
    else if n == 4 then "Fourth"
    else if n == -1 then "Last"
    else
      var digits := IntToString(n);
      IntToStringRoundTrip(n);
      NumberTextFree(digits, {' '});
      assert (digits + "th")[..|digits|] == digits;
      digits + "th"
  }

  lemma OrdinalInjective(n1: int, n2: int)
    requires Ordinal(n1) == Ordinal(n2)
    ensures n1 == n2
  {
    if n1 !in {1, 2, 3, 4, -1} {
      var w := Ordinal(n1);
      assert ParseInt(w[..|w| - 2]) == Some(n1) && ParseInt(w[..|w| - 2]) == Some(n2);
    }
  }

  // ----- shared pieces -----

  /** `f"{self.hour:02d}:{self.minute:02d}"`. */
  function ClockText(c: Clock): (text: string)
    ensures ValidClock(c) ==>
              |text| == 5 && ParseInt(text[..2]) == Some(c.hour) && ParseInt(text[3..]) == Some(c.minute)
  {
    var h, m := Pad2(c.hour), Pad2(c.minute);
    assert ValidClock(c) ==> (h + ":" + m)[..2] == h && (h + ":" + m)[3..] == m;
    assert ValidClock(c) ==> ParseInt(h) == Some(c.hour) && ParseInt(m) == Some(c.minute) by {
      if ValidClock(c) {
        Pad2RoundTrip(c.hour);
        Pad2RoundTrip(c.minute);
      }
    }
    h + ":" + m
  }

  /** `f" ({self.tz})"`. */
  function Paren(tz: string): (text: string)
    ensures |text| >= 2 && text[0] == ' ' && text[1] == '('
  {
    " (" + tz + ")"
  }

  /** `f" at {HH:MM} ({self.tz})"`, the ending most descriptions share. */
  function Tail(c: Clock, tz: string): (text: string)
    ensures |text| >= 1 && text[0] == ' '
  {
    " at " + ClockText(c) + Paren(tz)
  }

  /** `"".join(items)` with separator sep. */
  function Join(sep: string, items: seq<string>): (s: string)
    ensures |items| == 0 ==> s == ""
    ensures |items| == 1 ==> s == items[0]
  {
    if |items| == 0 then ""
    else if |items| == 1 then items[0]
    else items[0] + sep + Join(sep, items[1..])
  }

  /** `str(n)` of every element. */
  function Texts(days: seq<int>): (texts: seq<string>)
    ensures |texts| == |days|
    ensures forall i :: 0 <= i < |days| ==> texts[i] == IntToString(days[i])
  {
    if |days| == 0 then [] else [IntToString(days[0])] + Texts(days[1..])
  }

  /** `str(days)` for a list of integers: `[1, 15, -1]`. */
  function ListText(days: seq<int>): (text: string)
    ensures |text| >= 2 && text[0] == '[' && text[|text| - 1] == ']'
  {
    "[" + Join(", ", Texts(days)) + "]"
  }

  /** `'s' if v != 1 else ''`. */
  function PluralEnding(v: int): string {
    if v != 1 then "s" else ""
  }

  /** `f"{v} {word}{'s' if v != 1 else ''}"`. */
  function Unit(v: int, word: string): (text: string)
    requires |word| >= 1 && word[|word| - 1] != 's'
    ensures |text| >= 1 && (text[|text| - 1] == 's' <==> v != 1)
  {
    IntToString(v) + (" " + word + PluralEnding(v))
  }

  /** EveryNInterval's `parts`: the hours, then the minutes, each only when non-zero. */
  function IntervalParts(hours: int, minutes: int): (parts: seq<string>)
    ensures |parts| == (if hours != 0 then 1 else 0) + (if minutes != 0 then 1 else 0)
  {
    (if hours != 0 then [Unit(hours, "hour")] else [])
    + (if minutes != 0 then [Unit(minutes, "minute")] else [])
  }

  /** `f"Every {' and '.join(parts)} ({self.tz})"`; with both zero it reads `Every  (tz)`. */
  function IntervalText(hours: int, minutes: int, tz: string): (text: string)
    ensures hours == 0 && minutes == 0 ==> text == "Every  (" + tz + ")"
  {
    "Every " + Join(" and ", IntervalParts(hours, minutes)) + Paren(tz)
  }

  // ----- the descriptions -----

  /** The classes whose description indexes the weekday list directly need an index
      Python accepts. */
  predicate WeekdayIndexable(t: Timetable) {
    (t.BiweeklyOnDay? || t.MonthlyWeekdayOccurrence?) ==> -7 <= t.weekday < 7
  }

  /** The `description` of t; YearlyWeekdayOccurrence defines none. */
  function Description(t: Timetable): (r: Option<string>)
    requires WeekdayIndexable(t)
    ensures r.None? <==> t.YearlyWeekdayOccurrence?
  {
    match t
    case MonthlyLastDay(c, tz) => Some(" Monthly, Last day of the Month" + Tail(c, tz))
    case MonthlyOnDay(day, c, tz) => Some(" Monthly, Day " + IntToString(day) + Tail(c, tz))
    case MonthlyMultipleDays(days, c, tz) => Some(" Monthly, Days " + ListText(days) + Tail(c, tz))
    case QuarterlyFirstDay(c, tz) => Some(" Quarterly, First of the Quarter" + Tail(c, tz))
    case QuarterlyLastDay(c, tz) => Some(" Quarterly, Last day of the Quarter" + Tail(c, tz))
    case YearlyFirstDay(c, tz) => Some(" Yearly, First day of the Year" + Tail(c, tz))
    case YearlyWeekdayOccurrence(_, _, _, _, _) => None
    case WeeklyOnDay(w, c, tz) => Some(" Weekly, On " + WeeklyLabel(w) + Tail(c, tz))
    case BiweeklyOnDay(w, c, tz, anchor) =>
      Some("Biweekly, every other " + WeekdayName(w) + Tail(c, tz) + ", anchor: " + FormatDate(anchor))
    case SemiMonthly(c, tz) => Some("Semi-monthly, 15th and last day" + Tail(c, tz))
    case MonthlyWeekdayOccurrence(w, n, c, tz) =>
      Some(" Monthly, " + Ordinal(n) + " " + WeekdayName(w) + Tail(c, tz))
    case EveryNDays(n, c, tz) => Some(" Every " + IntToString(n) + " days" + Tail(c, tz))
    case BusinessDayOfMonth(n, c, tz) => Some(" Monthly, " + Ordinal(n) + " business day" + Tail(c, tz))
    case MonthlyLastDayExceptWeekend(c, tz) =>
      Some(" Monthly, Last day (or previous Friday if weekend)" + Tail(c, tz))
    case EveryNInterval(minutes, hours, tz) => Some(IntervalText(hours, minutes, tz))
  }

  // ----- what a description tells apart -----

  /** The ending names the hour, the minute and the time zone. */
  lemma TailIdentifies(c1: Clock, tz1: string, c2: Clock, tz2: string)
    requires ValidClock(c1) && ValidClock(c2)
    ensures Tail(c1, tz1) == Tail(c2, tz2) <==> c1.hour == c2.hour && c1.minute == c2.minute && tz1 == tz2
  {
    if Tail(c1, tz1) == Tail(c2, tz2) {
      SameLengthSplit(" at " + ClockText(c1), Paren(tz1), " at " + ClockText(c2), Paren(tz2));
      PrefixCancel(" at ", ClockText(c1), ClockText(c2));
      ParenIdentifies(tz1, tz2);
    }
  }

  /** A word without spaces, after a common beginning and before a space, is read back. */
  lemma WordThen(p: string, x1: string, r1: string, x2: string, r2: string)
    requires Free(x1, {' '}) && Free(x2, {' '})
    requires |r1| >= 1 && r1[0] == ' ' && |r2| >= 1 && r2[0] == ' '
    requires p + x1 + r1 == p + x2 + r2
    ensures x1 == x2 && r1 == r2
  {
    assert p + x1 + r1 == p + (x1 + r1);
    assert p + x2 + r2 == p + (x2 + r2);
    PrefixCancel(p, x1 + r1, x2 + r2);
    TokenSplit(x1, r1, x2, r2, {' '});
  }

  /** A fixed lead followed by the ending names what the ending names. */
  lemma LeadIdentifies(lead: string, c1: Clock, tz1: string, c2: Clock, tz2: string)
    requires ValidClock(c1) && ValidClock(c2)
    ensures lead + Tail(c1, tz1) == lead + Tail(c2, tz2) <==>
              c1.hour == c2.hour && c1.minute == c2.minute && tz1 == tz2
  {
    if lead + Tail(c1, tz1) == lead + Tail(c2, tz2) {
      PrefixCancel(lead, Tail(c1, tz1), Tail(c2, tz2));
    }
    TailIdentifies(c1, tz1, c2, tz2);
  }

  /** A lead holding one word without spaces names the word as well. */
  lemma WordLeadIdentifies(p: string, x1: string, x2: string, q: string, c1: Clock, tz1: string, c2: Clock, tz2: string)
    requires Free(x1, {' '}) && Free(x2, {' '}) && (|q| == 0 || q[0] == ' ')
    requires ValidClock(c1) && ValidClock(c2)
    ensures p + x1 + q + Tail(c1, tz1) == p + x2 + q + Tail(c2, tz2) <==>
              x1 == x2 && c1.hour == c2.hour && c1.minute == c2.minute && tz1 == tz2
  {
    var r1, r2 := q + Tail(c1, tz1), q + Tail(c2, tz2);
    assert p + x1 + q + Tail(c1, tz1) == p + x1 + r1;
    assert p + x2 + q + Tail(c2, tz2) == p + x2 + r2;
    if p + x1 + r1 == p + x2 + r2 {
      WordThen(p, x1, r1, x2, r2);
      PrefixCancel(q, Tail(c1, tz1), Tail(c2, tz2));
    }
    TailIdentifies(c1, tz1, c2, tz2);
  }

  /** `str(n)` as a word of a lead. */
  lemma NumberLeadIdentifies(p: string, n1: int, n2: int, q: string, c1: Clock, tz1: string, c2: Clock, tz2: string)
    requires |q| == 0 || q[0] == ' '
    requires ValidClock(c1) && ValidClock(c2)
    ensures p + IntToString(n1) + q + Tail(c1, tz1) == p + IntToString(n2) + q + Tail(c2, tz2) <==>
              n1 == n2 && c1.hour == c2.hour && c1.minute == c2.minute && tz1 == tz2
  {
    NumberTextFree(IntToString(n1), {' '});
    NumberTextFree(IntToString(n2), {' '});
    WordLeadIdentifies(p, IntToString(n1), IntToString(n2), q, c1, tz1, c2, tz2);
    if IntToString(n1) == IntToString(n2) {
      IntToStringInjective(n1, n2);
    }
  }

  // the days list

  /** What follows the first element of a joined list. */
  function JoinRest(d: seq<int>, b: string): string
    requires |d| >= 1
  {
    if |d| == 1 then b else ", " + (Join(", ", Texts(d[1..])) + b)
  }

  /** The texts of a list: that of the first element, then those of the rest. */
  lemma TextsUnfold(d: seq<int>)
    requires |d| >= 1
    ensures Texts(d) == [IntToString(d[0])] + Texts(d[1..])
  {
  }

  lemma JoinUnfold(d: seq<int>)
    requires |d| > 1
    ensures Join(", ", Texts(d)) == IntToString(d[0]) + ", " + Join(", ", Texts(d[1..]))
  {
    var ts := Texts(d);
    TextsUnfold(d);
    assert ts[1..] == Texts(d[1..]);
  }

  lemma JoinRestHead(d: seq<int>, b: string)
    requires |d| >= 1 && |b| >= 1 && b[0] == ']'
    ensures |JoinRest(d, b)| >= 1 && JoinRest(d, b)[0] in {',', ']'}
    ensures JoinRest(d, b)[0] == ']' <==> |d| == 1
  {
    if |d| > 1 {
      var j := Join(", ", Texts(d[1..]));
      assert (", " + (j + b))[0] == ',';
    }
  }

  lemma JoinStep(d: seq<int>, b: string)
    requires |d| >= 1 && |b| >= 1 && b[0] == ']'
    ensures Join(", ", Texts(d)) + b == IntToString(d[0]) + JoinRest(d, b)
    ensures |JoinRest(d, b)| >= 1 && JoinRest(d, b)[0] in {',', ']'}
    ensures JoinRest(d, b)[0] == ']' <==> |d| == 1
  {
    JoinRestHead(d, b);
    var x := IntToString(d[0]);
    if |d| > 1 {
      JoinUnfold(d);
      JoinRestValue(d, b);
      Regroup(x, ", ", Join(", ", Texts(d[1..])), b);
    } else {
      TextsUnfold(d);
    }
  }

  lemma JoinRestValue(d: seq<int>, b: string)
    requires |d| > 1
    ensures JoinRest(d, b) == ", " + (Join(", ", Texts(d[1..])) + b)
  {
  }

  lemma JoinHead(d: seq<int>, b: string)
    requires |b| >= 1 && b[0] == ']'
    ensures |Join(", ", Texts(d)) + b| >= 1
    ensures (Join(", ", Texts(d)) + b)[0] == ']' <==> |d| == 0
  {
    if |d| >= 1 {
      JoinStep(d, b);
      assert (IntToString(d[0]) + JoinRest(d, b))[0] == IntToString(d[0])[0];
    }
  }

  /** `str(days)` followed by text starting with `]` names the list. */
  lemma {:induction false} DaysListThen(d1: seq<int>, b1: string, d2: seq<int>, b2: string)
    requires |b1| >= 1 && b1[0] == ']' && |b2| >= 1 && b2[0] == ']'
    requires Join(", ", Texts(d1)) + b1 == Join(", ", Texts(d2)) + b2
    ensures d1 == d2 && b1 == b2
    decreases |d1|
  {
    JoinHead(d1, b1);
    JoinHead(d2, b2);
    if |d1| == 0 {
      assert Join(", ", Texts(d1)) + b1 == b1 && Join(", ", Texts(d2)) + b2 == b2;
    } else {
      var r1, r2 := JoinRest(d1, b1), JoinRest(d2, b2);
      JoinStep(d1, b1);
      JoinStep(d2, b2);
      NumberTextFree(IntToString(d1[0]), {',', ']'});
      NumberTextFree(IntToString(d2[0]), {',', ']'});
      TokenSplit(IntToString(d1[0]), r1, IntToString(d2[0]), r2, {',', ']'});
      IntToStringInjective(d1[0], d2[0]);
      if |d1| == 1 {
        assert d1 == [d1[0]] && d2 == [d2[0]];
      } else {
        PrefixCancel(", ", Join(", ", Texts(d1[1..])) + b1, Join(", ", Texts(d2[1..])) + b2);
        DaysListThen(d1[1..], b1, d2[1..], b2);
        assert d1 == [d1[0]] + d1[1..] && d2 == [d2[0]] + d2[1..];
      }
    }
  }

  lemma ListRegroup(d: seq<int>, t: string)
    ensures " Monthly, Days " + ListText(d) + t == " Monthly, Days [" + (Join(", ", Texts(d)) + ("]" + t))
  {
    var a, j := " Monthly, Days ", Join(", ", Texts(d));
    assert a + ("[" + j + "]") + t == (a + "[") + (j + ("]" + t));
    assert a + "[" == " Monthly, Days [";
  }

  /** The list in MonthlyMultipleDays' lead is read back, whatever follows it. */
  lemma DaysThen(d1: seq<int>, t1: string, d2: seq<int>, t2: string)
    requires " Monthly, Days " + ListText(d1) + t1 == " Monthly, Days " + ListText(d2) + t2
    ensures d1 == d2 && t1 == t2
  {
    var p := " Monthly, Days [";
    var j1, j2 := Join(", ", Texts(d1)), Join(", ", Texts(d2));
    ListRegroup(d1, t1);
    ListRegroup(d2, t2);
    PrefixCancel(p, j1 + ("]" + t1), j2 + ("]" + t2));
    DaysListThen(d1, "]" + t1, d2, "]" + t2);
    PrefixCancel("]", t1, t2);
  }

  lemma DaysLeadIdentifies(days1: seq<int>, c1: Clock, tz1: string, days2: seq<int>, c2: Clock, tz2: string)
    requires ValidClock(c1) && ValidClock(c2)
    ensures " Monthly, Days " + ListText(days1) + Tail(c1, tz1) == " Monthly, Days " + ListText(days2) + Tail(c2, tz2) <==>
              days1 == days2 && c1.hour == c2.hour && c1.minute == c2.minute && tz1 == tz2
  {
    if " Monthly, Days " + ListText(days1) + Tail(c1, tz1) == " Monthly, Days " + ListText(days2) + Tail(c2, tz2) {
      DaysThen(days1, Tail(c1, tz1), days2, Tail(c2, tz2));
    }
    TailIdentifies(c1, tz1, c2, tz2);
  }

  // BiweeklyOnDay and MonthlyWeekdayOccurrence

  lemma FormatDateLength(d: Date)
    requires ValidDate(d) && 0 <= d.year < 10000
    ensures |FormatDate(d)| == 10
  {
  }

  lemma NameLeadIdentifies(p: string, w1: int, w2: int, c1: Clock, tz1: string, c2: Clock, tz2: string)
    requires -7 <= w1 < 7 && -7 <= w2 < 7 && ValidClock(c1) && ValidClock(c2)
    ensures p + WeekdayName(w1) + Tail(c1, tz1) == p + WeekdayName(w2) + Tail(c2, tz2) <==>
              w1 % 7 == w2 % 7 && c1.hour == c2.hour && c1.minute == c2.minute && tz1 == tz2
  {
    var x1, x2 := WeekdayName(w1), WeekdayName(w2);
    assert p + x1 + Tail(c1, tz1) == p + x1 + "" + Tail(c1, tz1);
    assert p + x2 + Tail(c2, tz2) == p + x2 + "" + Tail(c2, tz2);
    WordLeadIdentifies(p, x1, x2, "", c1, tz1, c2, tz2);
    if x1 == x2 {
      WeekdayNamesDistinct(w1 % 7, w2 % 7);
    }
  }

  /** The anchor at the end of BiweeklyOnDay's description is read back. */
  lemma AnchorThen(x1: string, a1: Date, x2: string, a2: Date)
    requires ValidDate(a1) && 1 <= a1.year <= 9999 && ValidDate(a2) && 1 <= a2.year <= 9999
    requires x1 + ", anchor: " + FormatDate(a1) == x2 + ", anchor: " + FormatDate(a2)
    ensures x1 == x2 && a1 == a2
  {
    FormatDateLength(a1);
    FormatDateLength(a2);
    SuffixSplit(x1 + ", anchor: ", FormatDate(a1), x2 + ", anchor: ", FormatDate(a2));
    SuffixSplit(x1, ", anchor: ", x2, ", anchor: ");
    DateRoundTrip(a1);
    DateRoundTrip(a2);
  }

  lemma BiweeklyIdentifies(w1: int, c1: Clock, tz1: string, a1: Date, w2: int, c2: Clock, tz2: string, a2: Date)
    requires -7 <= w1 < 7 && ValidClock(c1) && ValidDate(a1) && 1 <= a1.year <= 9999
    requires -7 <= w2 < 7 && ValidClock(c2) && ValidDate(a2) && 1 <= a2.year <= 9999
    ensures "Biweekly, every other " + WeekdayName(w1) + Tail(c1, tz1) + ", anchor: " + FormatDate(a1)
              == "Biweekly, every other " + WeekdayName(w2) + Tail(c2, tz2) + ", anchor: " + FormatDate(a2) <==>
              w1 % 7 == w2 % 7 && c1.hour == c2.hour && c1.minute == c2.minute && tz1 == tz2 && a1 == a2
  {
    var p := "Biweekly, every other ";
    var x1, x2 := p + WeekdayName(w1) + Tail(c1, tz1), p + WeekdayName(w2) + Tail(c2, tz2);
    if x1 + ", anchor: " + FormatDate(a1) == x2 + ", anchor: " + FormatDate(a2) {
      AnchorThen(x1, a1, x2, a2);
    }
    NameLeadIdentifies(p, w1, w2, c1, tz1, c2, tz2);
  }

  lemma NameFree(w: int)
    requires -7 <= w < 7
    ensures Free(WeekdayName(w), {' '})
  {
  }

  /** Two words without spaces, separated by a space and followed by text starting with
      a space, are read back. */
  lemma TwoWordsThen(p: string, a1: string, b1: string, t1: string, a2: string, b2: string, t2: string)
    requires Free(a1, {' '}) && Free(b1, {' '}) && Free(a2, {' '}) && Free(b2, {' '})
    requires |t1| >= 1 && t1[0] == ' ' && |t2| >= 1 && t2[0] == ' '
    requires p + a1 + " " + b1 + t1 == p + a2 + " " + b2 + t2
    ensures a1 == a2 && b1 == b2 && t1 == t2
  {
    var r1, r2 := " " + b1 + t1, " " + b2 + t2;
    assert p + a1 + " " + b1 + t1 == p + a1 + r1;
    assert p + a2 + " " + b2 + t2 == p + a2 + r2;
    WordThen(p, a1, r1, a2, r2);
    WordThen(" ", b1, t1, b2, t2);
  }

  lemma OccurrenceIdentifies(n1: int, w1: int, c1: Clock, tz1: string, n2: int, w2: int, c2: Clock, tz2: string)
    requires -7 <= w1 < 7 && ValidClock(c1) && -7 <= w2 < 7 && ValidClock(c2)
    ensures " Monthly, " + Ordinal(n1) + " " + WeekdayName(w1) + Tail(c1, tz1)
              == " Monthly, " + Ordinal(n2) + " " + WeekdayName(w2) + Tail(c2, tz2) <==>
              n1 == n2 && w1 % 7 == w2 % 7 && c1.hour == c2.hour && c1.minute == c2.minute && tz1 == tz2
  {
    var o1, o2 := Ordinal(n1), Ordinal(n2);
    var x1, x2 := WeekdayName(w1), WeekdayName(w2);
    var t1, t2 := Tail(c1, tz1), Tail(c2, tz2);
    if " Monthly, " + o1 + " " + x1 + t1 == " Monthly, " + o2 + " " + x2 + t2 {
      NameFree(w1);
      NameFree(w2);
      TwoWordsThen(" Monthly, ", o1, x1, t1, o2, x2, t2);
      OrdinalInjective(n1, n2);
      WeekdayNamesDistinct(w1 % 7, w2 % 7);
    }
    TailIdentifies(c1, tz1, c2, tz2);
  }

  lemma BusinessDayIdentifies(n1: int, c1: Clock, tz1: string, n2: int, c2: Clock, tz2: string)
    requires ValidClock(c1) && ValidClock(c2)
    ensures " Monthly, " + Ordinal(n1) + " business day" + Tail(c1, tz1)
              == " Monthly, " + Ordinal(n2) + " business day" + Tail(c2, tz2) <==>
              n1 == n2 && c1.hour == c2.hour && c1.minute == c2.minute && tz1 == tz2
  {
    WordLeadIdentifies(" Monthly, ", Ordinal(n1), Ordinal(n2), " business day", c1, tz1, c2, tz2);
    if Ordinal(n1) == Ordinal(n2) {
      OrdinalInjective(n1, n2);
    }
  }

  // EveryNInterval

  /** `f" ({self.tz})"` names the zone. */
  lemma ParenIdentifies(tz1: string, tz2: string)
    requires Paren(tz1) == Paren(tz2)
    ensures tz1 == tz2
  {
    assert Paren(tz1) == " (" + (tz1 + ")") && Paren(tz2) == " (" + (tz2 + ")");
    PrefixCancel(" (", tz1 + ")", tz2 + ")");
    SuffixSplit(tz1, ")", tz2, ")");
  }

  /** A count is read back from `str(v)` when a space follows it. */
  lemma CountThen(v1: int, r1: string, v2: int, r2: string)
    requires |r1| >= 1 && r1[0] == ' ' && |r2| >= 1 && r2[0] == ' '
    requires IntToString(v1) + r1 == IntToString(v2) + r2
    ensures v1 == v2 && r1 == r2
  {
    NumberTextFree(IntToString(v1), {' '});
    NumberTextFree(IntToString(v2), {' '});
    TokenSplit(IntToString(v1), r1, IntToString(v2), r2, {' '});
    IntToStringInjective(v1, v2);
  }

  /** `hour` and `minute` begin differently. */
  lemma UnitWordThen(w1: string, r1: string, w2: string, r2: string)
    requires (w1 == "hour" || w1 == "minute") && (w2 == "hour" || w2 == "minute")
    requires " " + w1 + r1 == " " + w2 + r2
    ensures w1 == w2 && r1 == r2
  {
    assert (" " + w1 + r1)[1] == w1[0] && (" " + w2 + r2)[1] == w2[0];
    assert " " + w1 + r1 == (" " + w1) + r1;
    PrefixCancel(" " + w1, r1, r2);
  }

  lemma UnitParts(v: int, w: string, r: string)
    requires w == "hour" || w == "minute"
    ensures Unit(v, w) + r == IntToString(v) + (" " + w + (PluralEnding(v) + r))
  {
  }

  /** A unit is read back from its count and its word, when a space follows it. */
  lemma UnitThen(v1: int, w1: string, r1: string, v2: int, w2: string, r2: string)
    requires (w1 == "hour" || w1 == "minute") && (w2 == "hour" || w2 == "minute")
    requires |r1| >= 1 && r1[0] == ' ' && |r2| >= 1 && r2[0] == ' '
    requires Unit(v1, w1) + r1 == Unit(v2, w2) + r2
    ensures v1 == v2 && w1 == w2 && r1 == r2
  {
    UnitParts(v1, w1, r1);
    UnitParts(v2, w2, r2);
    CountThen(v1, " " + w1 + (PluralEnding(v1) + r1), v2, " " + w2 + (PluralEnding(v2) + r2));
    UnitWordThen(w1, PluralEnding(v1) + r1, w2, PluralEnding(v2) + r2);
    PrefixCancel(PluralEnding(v1), r1, r2);
  }

  function HeadValue(hours: int, minutes: int): int {
    if hours != 0 then hours else minutes
  }

  function HeadWord(hours: int, minutes: int): string {
    if hours != 0 then "hour" else "minute"
  }

  function HeadRest(hours: int, minutes: int, tz: string): string {
    if hours != 0 && minutes != 0 then " and " + (Unit(minutes, "minute") + Paren(tz)) else Paren(tz)
  }

  /** A unit starts with its count, never with a space. */
  lemma UnitHead(v: int, w: string, r: string)
    requires w == "hour" || w == "minute"
    ensures |Unit(v, w) + r| >= 1 && (Unit(v, w) + r)[0] != ' '
  {
    UnitParts(v, w, r);
    var digits := IntToString(v);
    assert (digits + (" " + w + (PluralEnding(v) + r)))[0] == digits[0];
  }

  lemma JoinTwo(sep: string, a: string, b: string)
    ensures Join(sep, [a, b]) + "" == a + sep + b
  {
    assert [a, b][1..] == [b];
  }

  lemma Regroup3(a: string, b: string, c: string)
    ensures a + b + c == a + (b + c)
  {
  }

  lemma Regroup(a: string, b: string, c: string, d: string)
    ensures a + b + c + d == a + (b + (c + d))
  {
  }

  lemma TwoUnitsShape(hours: int, minutes: int, tz: string)
    requires hours != 0 && minutes != 0
    ensures Join(" and ", IntervalParts(hours, minutes)) + Paren(tz)
              == Unit(hours, "hour") + HeadRest(hours, minutes, tz)
  {
    var u1, u2 := Unit(hours, "hour"), Unit(minutes, "minute");
    assert IntervalParts(hours, minutes) == [u1, u2];
    JoinTwo(" and ", u1, u2);
    Regroup(u1, " and ", u2, Paren(tz));
  }

  lemma OneUnitShape(hours: int, minutes: int, tz: string)
    requires (hours != 0) != (minutes != 0)
    ensures Join(" and ", IntervalParts(hours, minutes)) + Paren(tz)
              == Unit(HeadValue(hours, minutes), HeadWord(hours, minutes)) + HeadRest(hours, minutes, tz)
  {
    assert IntervalParts(hours, minutes) == [Unit(HeadValue(hours, minutes), HeadWord(hours, minutes))];
  }

  /** The text after `Every `: its first unit and what follows, or only the zone. */
  lemma IntervalShape(hours: int, minutes: int, tz: string)
    ensures var r := Join(" and ", IntervalParts(hours, minutes)) + Paren(tz);
      |r| >= 1 && (r[0] == ' ' <==> hours == 0 && minutes == 0)
      && (hours == 0 && minutes == 0 ==> r == Paren(tz))
      && (hours != 0 || minutes != 0 ==>
            r == Unit(HeadValue(hours, minutes), HeadWord(hours, minutes)) + HeadRest(hours, minutes, tz))
  {
    if hours != 0 && minutes != 0 {
      TwoUnitsShape(hours, minutes, tz);
    } else if hours != 0 || minutes != 0 {
      OneUnitShape(hours, minutes, tz);
    }
    if hours != 0 || minutes != 0 {
      UnitHead(HeadValue(hours, minutes), HeadWord(hours, minutes), HeadRest(hours, minutes, tz));
    }
  }

  /** After the hours, ` and ` follows exactly when there are minutes too. */
  lemma HeadRestShape(hours: int, minutes: int, tz: string)
    ensures |HeadRest(hours, minutes, tz)| >= 2 && HeadRest(hours, minutes, tz)[0] == ' '
    ensures HeadRest(hours, minutes, tz)[1] == 'a' <==> hours != 0 && minutes != 0
  {
  }

  lemma IntervalIdentifies(h1: int, m1: int, tz1: string, h2: int, m2: int, tz2: string)
    ensures IntervalText(h1, m1, tz1) == IntervalText(h2, m2, tz2) <==> h1 == h2 && m1 == m2 && tz1 == tz2
  {
    var r1 := Join(" and ", IntervalParts(h1, m1)) + Paren(tz1);
    var r2 := Join(" and ", IntervalParts(h2, m2)) + Paren(tz2);
    Regroup3("Every ", Join(" and ", IntervalParts(h1, m1)), Paren(tz1));
    Regroup3("Every ", Join(" and ", IntervalParts(h2, m2)), Paren(tz2));
    if "Every " + r1 == "Every " + r2 {
      PrefixCancel("Every ", r1, r2);
      IntervalShape(h1, m1, tz1);
      IntervalShape(h2, m2, tz2);
      if h1 == 0 && m1 == 0 {
        ParenIdentifies(tz1, tz2);
      } else {
        HeadsIdentify(h1, m1, tz1, h2, m2, tz2);
      }
    }
  }

  lemma HeadsIdentify(h1: int, m1: int, tz1: string, h2: int, m2: int, tz2: string)
    requires h1 != 0 || m1 != 0
    requires h2 != 0 || m2 != 0
    requires Unit(HeadValue(h1, m1), HeadWord(h1, m1)) + HeadRest(h1, m1, tz1)
               == Unit(HeadValue(h2, m2), HeadWord(h2, m2)) + HeadRest(h2, m2, tz2)
    ensures h1 == h2 && m1 == m2 && tz1 == tz2
  {
    var rest1, rest2 := HeadRest(h1, m1, tz1), HeadRest(h2, m2, tz2);
    HeadRestShape(h1, m1, tz1);
    HeadRestShape(h2, m2, tz2);
    UnitThen(HeadValue(h1, m1), HeadWord(h1, m1), rest1, HeadValue(h2, m2), HeadWord(h2, m2), rest2);
    if h1 != 0 && m1 != 0 {
      PrefixCancel(" and ", Unit(m1, "minute") + Paren(tz1), Unit(m2, "minute") + Paren(tz2));
      UnitThen(m1, "minute", Paren(tz1), m2, "minute", Paren(tz2));
    }
    ParenIdentifies(tz1, tz2);
  }

  // ----- the descriptions as a whole -----

  /** The configurations whose description is defined and fixes its `HH:MM` width:
      a class with a codec, an indexable weekday, a time of day in range and an anchor
      with a four-digit year. */
  predicate Describable(t: Timetable) {
    HasCodec(t) && WeekdayIndexable(t)
    && (!t.EveryNInterval? ==> ValidClock(t.clock))
    && (t.BiweeklyOnDay? ==> ValidDate(t.anchor) && 1 <= t.anchor.year <= 9999)
  }

  /** The time of day without its seconds. */
  function Minutes(c: Clock): Clock {
    Clock(c.hour, c.minute, 0)
  }

  /** What a description shows of a configuration: everything but the seconds, with the
      weekday reduced to what its name shows. */
  function Shown(t: Timetable): Timetable
    requires WeekdayIndexable(t)
  {
    match t
    case MonthlyLastDay(c, tz) => MonthlyLastDay(Minutes(c), tz)
    case MonthlyOnDay(day, c, tz) => MonthlyOnDay(day, Minutes(c), tz)
    case MonthlyMultipleDays(days, c, tz) => MonthlyMultipleDays(days, Minutes(c), tz)
    case QuarterlyFirstDay(c, tz) => QuarterlyFirstDay(Minutes(c), tz)
    case QuarterlyLastDay(c, tz) => QuarterlyLastDay(Minutes(c), tz)
    case YearlyFirstDay(c, tz) => YearlyFirstDay(Minutes(c), tz)
    case YearlyWeekdayOccurrence(_, _, _, _, _) => t
    case WeeklyOnDay(w, c, tz) => WeeklyOnDay(WeekdayKey(w), Minutes(c), tz)
    case BiweeklyOnDay(w, c, tz, anchor) => BiweeklyOnDay(w % 7, Minutes(c), tz, anchor)
    case SemiMonthly(c, tz) => SemiMonthly(Minutes(c), tz)
    case MonthlyWeekdayOccurrence(w, n, c, tz) => MonthlyWeekdayOccurrence(w % 7, n, Minutes(c), tz)
    case EveryNDays(n, c, tz) => EveryNDays(n, Minutes(c), tz)
    case BusinessDayOfMonth(n, c, tz) => BusinessDayOfMonth(n, Minutes(c), tz)
    case MonthlyLastDayExceptWeekend(c, tz) => MonthlyLastDayExceptWeekend(Minutes(c), tz)
    case EveryNInterval(_, _, _) => t
  }

  lemma NoText(a: string)
    ensures a + "" == a
  {
  }

  /** The classes whose description is a fixed text followed by the ending. */
  predicate HasFixedLead(t: Timetable) {
    t.MonthlyLastDay? || t.QuarterlyFirstDay? || t.QuarterlyLastDay? || t.YearlyFirstDay?
    || t.SemiMonthly? || t.MonthlyLastDayExceptWeekend?
  }

  function FixedLead(t: Timetable): string
    requires HasFixedLead(t)
  {
    match t
    case MonthlyLastDay(_, _) => " Monthly, Last day of the Month"
    case QuarterlyFirstDay(_, _) => " Quarterly, First of the Quarter"
    case QuarterlyLastDay(_, _) => " Quarterly, Last day of the Quarter"
    case YearlyFirstDay(_, _) => " Yearly, First day of the Year"
    case SemiMonthly(_, _) => "Semi-monthly, 15th and last day"
    case MonthlyLastDayExceptWeekend(_, _) => " Monthly, Last day (or previous Friday if weekend)"
  }

  lemma FixedLeadIdentifies(t1: Timetable, t2: Timetable)
    requires HasFixedLead(t1) && Describable(t1) && Describable(t2) && KindOf(t1) == KindOf(t2)
    ensures Description(t1) == Description(t2) <==> Shown(t1) == Shown(t2)
  {
    FixedShape(t1);
    FixedShape(t2);
    FixedSameLead(t1, t2);
    LeadIdentifies(FixedLead(t1), t1.clock, t1.tz, t2.clock, t2.tz);
  }

  /** A fixed-lead description, and what it shows. */
  lemma FixedShape(t: Timetable)
    requires HasFixedLead(t) && Describable(t)
    ensures Description(t) == Some(FixedLead(t) + Tail(t.clock, t.tz))
  {
  }

  /** Two configurations of one fixed-lead class share the lead, and differ only in
      their time of day and zone. */
  lemma FixedSameLead(t1: Timetable, t2: Timetable)
    requires HasFixedLead(t1) && Describable(t1) && Describable(t2) && KindOf(t1) == KindOf(t2)
    ensures HasFixedLead(t2) && FixedLead(t1) == FixedLead(t2)
    ensures Shown(t1) == Shown(t2) <==> Minutes(t1.clock) == Minutes(t2.clock) && t1.tz == t2.tz
  {
    if t1.MonthlyLastDay? {
      assert t2.MonthlyLastDay?;
    } else if t1.QuarterlyFirstDay? {
      assert t2.QuarterlyFirstDay?;
    } else if t1.QuarterlyLastDay? {
      assert t2.QuarterlyLastDay?;
    } else if t1.YearlyFirstDay? {
      assert t2.YearlyFirstDay?;
    } else if t1.SemiMonthly? {
      assert t2.SemiMonthly?;
    } else {
      assert t2.MonthlyLastDayExceptWeekend?;
    }
  }

  lemma MonthlyOnDayIdentifies(t1: Timetable, t2: Timetable)
    requires t1.MonthlyOnDay? && t2.MonthlyOnDay? && Describable(t1) && Describable(t2)
    ensures Description(t1) == Description(t2) <==> Shown(t1) == Shown(t2)
  {
    NumberLeadIdentifies(" Monthly, Day ", t1.day, t2.day, "", t1.clock, t1.tz, t2.clock, t2.tz);
    NoText(" Monthly, Day " + IntToString(t1.day));
    NoText(" Monthly, Day " + IntToString(t2.day));
  }

  lemma MultipleDaysIdentifies(t1: Timetable, t2: Timetable)
    requires t1.MonthlyMultipleDays? && t2.MonthlyMultipleDays? && Describable(t1) && Describable(t2)
    ensures Description(t1) == Description(t2) <==> Shown(t1) == Shown(t2)
  {
    DaysLeadIdentifies(t1.days, t1.clock, t1.tz, t2.days, t2.clock, t2.tz);
  }

  lemma WeeklyIdentifies(t1: Timetable, t2: Timetable)
    requires t1.WeeklyOnDay? && t2.WeeklyOnDay? && Describable(t1) && Describable(t2)
    ensures Description(t1) == Description(t2) <==> Shown(t1) == Shown(t2)
  {
    var x1, x2 := WeeklyLabel(t1.weekday), WeeklyLabel(t2.weekday);
    NoText(" Weekly, On " + x1);
    NoText(" Weekly, On " + x2);
    WordLeadIdentifies(" Weekly, On ", x1, x2, "", t1.clock, t1.tz, t2.clock, t2.tz);
    WeeklyLabelIdentifies(t1.weekday, t2.weekday);
  }

  lemma BiweeklyClassIdentifies(t1: Timetable, t2: Timetable)
    requires t1.BiweeklyOnDay? && t2.BiweeklyOnDay? && Describable(t1) && Describable(t2)
    ensures Description(t1) == Description(t2) <==> Shown(t1) == Shown(t2)
  {
    BiweeklyIdentifies(t1.weekday, t1.clock, t1.tz, t1.anchor, t2.weekday, t2.clock, t2.tz, t2.anchor);
  }

  lemma OccurrenceClassIdentifies(t1: Timetable, t2: Timetable)
    requires t1.MonthlyWeekdayOccurrence? && t2.MonthlyWeekdayOccurrence? && Describable(t1) && Describable(t2)
    ensures Description(t1) == Description(t2) <==> Shown(t1) == Shown(t2)
  {
    OccurrenceIdentifies(t1.n, t1.weekday, t1.clock, t1.tz, t2.n, t2.weekday, t2.clock, t2.tz);
  }

  lemma EveryNDaysIdentifies(t1: Timetable, t2: Timetable)
    requires t1.EveryNDays? && t2.EveryNDays? && Describable(t1) && Describable(t2)
    ensures Description(t1) == Description(t2) <==> Shown(t1) == Shown(t2)
  {
    NumberLeadIdentifies(" Every ", t1.intervalDays, t2.intervalDays, " days", t1.clock, t1.tz, t2.clock, t2.tz);
  }

  lemma BusinessDayClassIdentifies(t1: Timetable, t2: Timetable)
    requires t1.BusinessDayOfMonth? && t2.BusinessDayOfMonth? && Describable(t1) && Describable(t2)
    ensures Description(t1) == Description(t2) <==> Shown(t1) == Shown(t2)
  {
    BusinessDayIdentifies(t1.n, t1.clock, t1.tz, t2.n, t2.clock, t2.tz);
  }

  lemma EveryNIntervalIdentifies(t1: Timetable, t2: Timetable)
    requires t1.EveryNInterval? && t2.EveryNInterval?
    ensures Description(t1) == Description(t2) <==> Shown(t1) == Shown(t2)
  {
    IntervalIdentifies(t1.intervalHours, t1.intervalMinutes, t1.tz, t2.intervalHours, t2.intervalMinutes, t2.tz);
  }

  /** Two configurations of one class have the same description exactly when they
      agree on everything the description shows: it never depends on the seconds, and
      it tells apart every other field (a weekday up to its name). */
  lemma DescriptionIdentifies(t1: Timetable, t2: Timetable)
    requires Describable(t1) && Describable(t2) && KindOf(t1) == KindOf(t2)
    ensures Description(t1) == Description(t2) <==> Shown(t1) == Shown(t2)
  {
    if HasFixedLead(t1) {
      FixedLeadIdentifies(t1, t2);
    } else if t1.MonthlyOnDay? {
      MonthlyOnDayIdentifies(t1, t2);
    } else if t1.MonthlyMultipleDays? {
      MultipleDaysIdentifies(t1, t2);
    } else if t1.WeeklyOnDay? {
      WeeklyIdentifies(t1, t2);
    } else if t1.BiweeklyOnDay? {
      BiweeklyClassIdentifies(t1, t2);
    } else if t1.MonthlyWeekdayOccurrence? {
      OccurrenceClassIdentifies(t1, t2);
    } else if t1.EveryNDays? {
      EveryNDaysIdentifies(t1, t2);
    } else if t1.BusinessDayOfMonth? {
      BusinessDayClassIdentifies(t1, t2);
    } else {
      EveryNIntervalIdentifies(t1, t2);
    }
  }
}
