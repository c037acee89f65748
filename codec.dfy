/** `serialize` / `deserialize`: each timetable with a codec writes its constructor
    arguments to a dictionary, and its class method rebuilds the timetable, taking the
    constructor default for every missing key. */
module Codec {
  import opened Civil
  import opened Schedule
  import opened Rules
  import opened Text

  /** The JSON values the dictionaries hold. */
  datatype Value = IntValue(i: int) | StrValue(s: string) | IntListValue(items: seq<int>)

  type Dict = map<string, Value>

  /** The classes with their own `serialize` / `deserialize`: every family except
      YearlyWeekdayOccurrence. */
  datatype Kind =
    | MonthlyLastDayKind | MonthlyOnDayKind | MonthlyMultipleDaysKind | QuarterlyFirstDayKind
    | QuarterlyLastDayKind | YearlyFirstDayKind | WeeklyOnDayKind | BiweeklyOnDayKind
    | SemiMonthlyKind | MonthlyWeekdayOccurrenceKind | EveryNDaysKind | BusinessDayOfMonthKind
    | MonthlyLastDayExceptWeekendKind | EveryNIntervalKind

  predicate HasCodec(t: Timetable) {
    !t.YearlyWeekdayOccurrence?
  }

  function KindOf(t: Timetable): Kind
    requires HasCodec(t)
  {
    match t
    case MonthlyLastDay(_, _) => MonthlyLastDayKind
    case MonthlyOnDay(_, _, _) => MonthlyOnDayKind
    case MonthlyMultipleDays(_, _, _) => MonthlyMultipleDaysKind
    case QuarterlyFirstDay(_, _) => QuarterlyFirstDayKind
    case QuarterlyLastDay(_, _) => QuarterlyLastDayKind
    case YearlyFirstDay(_, _) => YearlyFirstDayKind
    case WeeklyOnDay(_, _, _) => WeeklyOnDayKind
    case BiweeklyOnDay(_, _, _, _) => BiweeklyOnDayKind
    case SemiMonthly(_, _) => SemiMonthlyKind
    case MonthlyWeekdayOccurrence(_, _, _, _) => MonthlyWeekdayOccurrenceKind
    case EveryNDays(_, _, _) => EveryNDaysKind
    case BusinessDayOfMonth(_, _, _) => BusinessDayOfMonthKind
    case MonthlyLastDayExceptWeekend(_, _) => MonthlyLastDayExceptWeekendKind
    case EveryNInterval(_, _, _) => EveryNIntervalKind
  }

  // ----- the anchor date as text -----

  /** The anchor as `YYYY-MM-DD`. */
  function FormatDate(d: Date): (s: string)
  {
    (if 0 <= d.year < 10000 then Fixed(d.year, 4) else IntToString(d.year))
    + "-" + Pad2(d.month) + "-" + Pad2(d.day)
  }

  /** Reading `YYYY-MM-DD` back: four, two and two digits separated by dashes, naming a
      real date of a year from 1 on. */
  function ParseDate(s: string): (r: Option<Date>)
    ensures r.Some? ==> ValidDate(r.value) && r.value.year >= 1
  {
    if |s| == 10 && s[4] == '-' && s[7] == '-'
       && AllDigits(s[..4]) && AllDigits(s[5..7]) && AllDigits(s[8..]) then
      var d := Date(DigitsValue(s[..4]), DigitsValue(s[5..7]), DigitsValue(s[8..]));
      if ValidDate(d) && d.year >= 1 then Some(d) else None
    else None
  }

  /** The three fields of `YYYY-MM-DD` sit at fixed positions. */
  lemma FieldsAt(y: string, m: string, dd: string)
    requires |y| == 4 && |m| == 2 && |dd| == 2
    ensures var s := y + "-" + m + "-" + dd;
      |s| == 10 && s[4] == '-' && s[7] == '-' && s[..4] == y && s[5..7] == m && s[8..] == dd
  {
  }

  /** Three digit fields joined by dashes parse to the date they spell, when it is one. */
  lemma ParseFields(y: string, m: string, dd: string)
    requires |y| == 4 && |m| == 2 && |dd| == 2 && AllDigits(y) && AllDigits(m) && AllDigits(dd)
    requires ValidDate(Date(DigitsValue(y), DigitsValue(m), DigitsValue(dd))) && DigitsValue(y) >= 1
    ensures ParseDate(y + "-" + m + "-" + dd) == Some(Date(DigitsValue(y), DigitsValue(m), DigitsValue(dd)))
  {
    FieldsAt(y, m, dd);
  }

  lemma Pow10Four()
    ensures Pow10(4) == 10000
  {
    assert Pow10(2) == 100;
  }

  /** Three digit fields spelling the fields of a real date parse to that date. */
  lemma ParseFieldsOf(d: Date, y: string, m: string, dd: string)
    requires |y| == 4 && |m| == 2 && |dd| == 2 && AllDigits(y) && AllDigits(m) && AllDigits(dd)
    requires DigitsValue(y) == d.year && DigitsValue(m) == d.month && DigitsValue(dd) == d.day
    requires ValidDate(d) && d.year >= 1
    ensures ParseDate(y + "-" + m + "-" + dd) == Some(d)
  {
    ParseFields(y, m, dd);
  }

  lemma FormatFields(d: Date)
    requires 0 <= d.year < 10000
    ensures FormatDate(d) == Fixed(d.year, 4) + "-" + Pad2(d.month) + "-" + Pad2(d.day)
  {
  }

  lemma YearDigits(year: int)
    requires 0 <= year < 10000
    ensures DigitsValue(Fixed(year, 4)) == year
  {
    FixedValue(year, 4);
    Pow10Four();
  }

  /** Formatting a date of years 1 to 9999 and reading it back gives the date. */
  lemma DateRoundTrip(d: Date)
    requires ValidDate(d) && 1 <= d.year <= 9999
    ensures ParseDate(FormatDate(d)) == Some(d)
  {
    FormatFields(d);
    YearDigits(d.year);
    Pad2Value(d.month);
    Pad2Value(d.day);
    ParseFieldsOf(d, Fixed(d.year, 4), Pad2(d.month), Pad2(d.day));
  }

  /** The constructor default `anchor_date="2024-01-01"`. */
  const DefaultAnchorText := "2024-01-01"

  lemma DefaultAnchorParses()
    ensures ParseDate(DefaultAnchorText) == Some(Date(2024, 1, 1))
  {
    var y, m := "2024", "01";
    assert DigitsValue(y) == 2024 by {
      assert y[..3] == "202" && y[..3][..2] == "20" && y[..3][..2][..1] == "2";
      assert y[..3][..2][..1][..0] == "";
      assert DigitsValue("2") == 2;
      assert DigitsValue("20") == 20;
      assert DigitsValue("202") == 202;
    }
    assert DigitsValue(m) == 1 by {
      assert m[..1] == "0";
    }
    assert DefaultAnchorText == y + "-" + m + "-" + m;
    ParseFields(y, m, m);
  }

  // ----- serialize -----

  /** The keys every clocked class writes. */
  function ClockFields(c: Clock, tz: string): Dict {
    map["tz" := StrValue(tz), "hour" := IntValue(c.hour), "minute" := IntValue(c.minute),
        "second" := IntValue(c.second)]
  }

  /** The keys `serialize` writes, class by class. */
  function Keys(k: Kind): set<string> {
    var clock := {"tz", "hour", "minute", "second"};
    match k
    case MonthlyOnDayKind => clock + {"day"}
    case MonthlyMultipleDaysKind => clock + {"days"}
    case WeeklyOnDayKind => clock + {"weekday"}
    case BiweeklyOnDayKind => clock + {"weekday", "anchor_date"}
    case MonthlyWeekdayOccurrenceKind => clock + {"weekday", "n"}
    case EveryNDaysKind => clock + {"interval_days"}
    case BusinessDayOfMonthKind => clock + {"n"}
    case EveryNIntervalKind => {"interval_minutes", "interval_hours", "tz"}
    case _ => clock
  }

  function Serialize(t: Timetable): Dict
    requires HasCodec(t)
  {
    match t
    case MonthlyLastDay(c, tz) => ClockFields(c, tz)
    case MonthlyOnDay(day, c, tz) => ClockFields(c, tz)["day" := IntValue(day)]
    case MonthlyMultipleDays(days, c, tz) => ClockFields(c, tz)["days" := IntListValue(days)]
    case QuarterlyFirstDay(c, tz) => ClockFields(c, tz)
    case QuarterlyLastDay(c, tz) => ClockFields(c, tz)
    case YearlyFirstDay(c, tz) => ClockFields(c, tz)
    case WeeklyOnDay(w, c, tz) => ClockFields(c, tz)["weekday" := IntValue(w)]
    case BiweeklyOnDay(w, c, tz, anchor) =>
      ClockFields(c, tz)["weekday" := IntValue(w)]["anchor_date" := StrValue(FormatDate(anchor))]
    case SemiMonthly(c, tz) => ClockFields(c, tz)
    case MonthlyWeekdayOccurrence(w, n, c, tz) => ClockFields(c, tz)["weekday" := IntValue(w)]["n" := IntValue(n)]
    case EveryNDays(n, c, tz) => ClockFields(c, tz)["interval_days" := IntValue(n)]
    case BusinessDayOfMonth(n, c, tz) => ClockFields(c, tz)["n" := IntValue(n)]
    case MonthlyLastDayExceptWeekend(c, tz) => ClockFields(c, tz)
    case EveryNInterval(minutes, hours, tz) =>
      map["interval_minutes" := IntValue(minutes), "interval_hours" := IntValue(hours), "tz" := StrValue(tz)]
  }

  /** `serialize` writes exactly the keys of its class. */
  lemma SerializeKeys(t: Timetable)
    requires HasCodec(t)
    ensures Serialize(t).Keys == Keys(KindOf(t))
  {
  }

  // ----- deserialize -----

  /** `data.get(key, default)` for an integer field; a value of another type is an
      error. */
  function GetInt(data: Dict, key: string, default: int): (r: Outcome<int>)
    ensures key !in data ==> r == Ok(default)
    ensures key in data && data[key].IntValue? ==> r == Ok(data[key].i)
    ensures key in data && !data[key].IntValue? ==> r.Failure?
  {
    if key !in data then Ok(default)
    else match data[key]
      case IntValue(i) => Ok(i)
      case _ => Failure("expected an integer for " + key)
  }

  function GetString(data: Dict, key: string, default: string): (r: Outcome<string>)
    ensures key !in data ==> r == Ok(default)
    ensures key in data && data[key].StrValue? ==> r == Ok(data[key].s)
    ensures key in data && !data[key].StrValue? ==> r.Failure?
  {
    if key !in data then Ok(default)
    else match data[key]
      case StrValue(s) => Ok(s)
      case _ => Failure("expected a string for " + key)
  }

  function GetIntList(data: Dict, key: string, default: seq<int>): (r: Outcome<seq<int>>)
    ensures key !in data ==> r == Ok(default)
    ensures key in data && data[key].IntListValue? ==> r == Ok(data[key].items)
    ensures key in data && !data[key].IntListValue? ==> r.Failure?
  {
    if key !in data then Ok(default)
    else match data[key]
      case IntListValue(items) => Ok(items)
      case _ => Failure("expected a list of integers for " + key)
  }

  /** `hour`, `minute` and `second`, each defaulting to 0. */
  function GetClock(data: Dict): Outcome<Clock> {
    var h :- GetInt(data, "hour", 0);
    var m :- GetInt(data, "minute", 0);
    var s :- GetInt(data, "second", 0);
    Ok(Clock(h, m, s))
  }

  /** The anchor text, parsed; text that is not a `YYYY-MM-DD` date is an error. */
  function GetAnchor(data: Dict): Outcome<Date> {
    var text :- GetString(data, "anchor_date", DefaultAnchorText);
    match ParseDate(text)
    case Some(d) => Ok(d)
    case None => Failure("anchor_date is not a YYYY-MM-DD date")
  }

  /** The class method `deserialize` of kind k. */
  function Deserialize(k: Kind, data: Dict): Outcome<Timetable> {
    var tz :- GetString(data, "tz", DefaultTz);
    if k == EveryNIntervalKind then
      var minutes :- GetInt(data, "interval_minutes", 0);
      var hours :- GetInt(data, "interval_hours", 0);
      Ok(EveryNInterval(minutes, hours, tz))
    else
      var c :- GetClock(data);
      DeserializeClocked(k, data, c, tz)
  }

  /** The rest of `deserialize` for the classes with a time of day. */
  function DeserializeClocked(k: Kind, data: Dict, c: Clock, tz: string): Outcome<Timetable> {
    match k
    case MonthlyOnDayKind =>
      var day :- GetInt(data, "day", 1);
      Ok(MonthlyOnDay(day, c, tz))
    case MonthlyMultipleDaysKind =>
      var days :- GetIntList(data, "days", [1]);
      Ok(NewMonthlyMultipleDays(Some(days), c, tz))
    case QuarterlyFirstDayKind => Ok(QuarterlyFirstDay(c, tz))
    case QuarterlyLastDayKind => Ok(QuarterlyLastDay(c, tz))
    case YearlyFirstDayKind => Ok(YearlyFirstDay(c, tz))
    case WeeklyOnDayKind =>
      var w :- GetInt(data, "weekday", 0);
      Ok(WeeklyOnDay(w, c, tz))
    case BiweeklyOnDayKind =>
      var w :- GetInt(data, "weekday", 0);
      var anchor :- GetAnchor(data);
      Ok(BiweeklyOnDay(w, c, tz, anchor))
    case SemiMonthlyKind => Ok(SemiMonthly(c, tz))
    case MonthlyWeekdayOccurrenceKind =>
      var w :- GetInt(data, "weekday", 0);
      var n :- GetInt(data, "n", 1);
      Ok(MonthlyWeekdayOccurrence(w, n, c, tz))
    case EveryNDaysKind =>
      var n :- GetInt(data, "interval_days", 1);
      Ok(EveryNDays(n, c, tz))
    case BusinessDayOfMonthKind =>
      var n :- GetInt(data, "n", 1);
      Ok(BusinessDayOfMonth(n, c, tz))
    case MonthlyLastDayExceptWeekendKind => Ok(MonthlyLastDayExceptWeekend(c, tz))
    case _ => Ok(MonthlyLastDay(c, tz))
  }

  // ----- properties -----

  /** The configurations `serialize` can write faithfully: the days list is already in
      its normal form (as the constructor leaves it) and the anchor has a four-digit
      year. */
  predicate Encodable(t: Timetable) {
    HasCodec(t)
    && (t.MonthlyMultipleDays? ==> StrictlyIncreasing(t.days))
    && (t.BiweeklyOnDay? ==> ValidDate(t.anchor) && 1 <= t.anchor.year <= 9999)
  }

  /** The entries every clocked class writes, as `deserialize` reads them back. */
  predicate HoldsClock(data: Dict, c: Clock, tz: string) {
    "tz" in data && data["tz"] == StrValue(tz)
    && "hour" in data && data["hour"] == IntValue(c.hour)
    && "minute" in data && data["minute"] == IntValue(c.minute)
    && "second" in data && data["second"] == IntValue(c.second)
  }

  lemma ClockFieldsHold(c: Clock, tz: string)
    ensures HoldsClock(ClockFields(c, tz), c, tz)
  {
  }

  lemma HoldsClockKept(data: Dict, c: Clock, tz: string, key: string, v: Value)
    requires HoldsClock(data, c, tz) && key != "tz" && key != "hour" && key != "minute" && key != "second"
    ensures HoldsClock(data[key := v], c, tz)
  {
  }

  /** A clocked class's dictionary is read as its zone, its time of day and the rest. */
  lemma ClockedBack(k: Kind, data: Dict, c: Clock, tz: string, t: Timetable)
    requires k != EveryNIntervalKind && HoldsClock(data, c, tz) && DeserializeClocked(k, data, c, tz) == Ok(t)
    ensures Deserialize(k, data) == Ok(t)
  {
  }

  lemma IntRead(data: Dict, key: string, v: int, default: int)
    requires key in data && data[key] == IntValue(v)
    ensures GetInt(data, key, default) == Ok(v)
  {
  }

  /** The classes with the time of day and nothing else. */
  lemma PlainRoundTrip(t: Timetable)
    requires HasCodec(t) && !t.EveryNInterval? && Keys(KindOf(t)) == {"tz", "hour", "minute", "second"}
    ensures Deserialize(KindOf(t), Serialize(t)) == Ok(t)
  {
    assert Serialize(t) == ClockFields(t.clock, t.tz);
    ClockFieldsHold(t.clock, t.tz);
    ClockedBack(KindOf(t), Serialize(t), t.clock, t.tz, t);
  }

  /** The classes with one integer besides the time of day. */
  lemma OneIntRoundTrip(t: Timetable, key: string, v: int)
    requires t.MonthlyOnDay? || t.WeeklyOnDay? || t.EveryNDays? || t.BusinessDayOfMonth?
    requires key == (if t.MonthlyOnDay? then "day" else if t.WeeklyOnDay? then "weekday"
                     else if t.EveryNDays? then "interval_days" else "n")
    requires v == (if t.MonthlyOnDay? then t.day else if t.WeeklyOnDay? then t.weekday
                   else if t.EveryNDays? then t.intervalDays else t.n)
    ensures Deserialize(KindOf(t), Serialize(t)) == Ok(t)
  {
    var d := Serialize(t);
    assert d == ClockFields(t.clock, t.tz)[key := IntValue(v)];
    ClockFieldsHold(t.clock, t.tz);
    HoldsClockKept(ClockFields(t.clock, t.tz), t.clock, t.tz, key, IntValue(v));
    IntRead(d, key, v, 0);
    IntRead(d, key, v, 1);
    ClockedBack(KindOf(t), d, t.clock, t.tz, t);
  }

  lemma MultipleDaysRoundTrip(days: seq<int>, c: Clock, tz: string)
    requires StrictlyIncreasing(days)
    ensures Deserialize(MonthlyMultipleDaysKind, Serialize(MonthlyMultipleDays(days, c, tz)))
              == Ok(MonthlyMultipleDays(days, c, tz))
  {
    var d := Serialize(MonthlyMultipleDays(days, c, tz));
    ClockFieldsHold(c, tz);
    HoldsClockKept(ClockFields(c, tz), c, tz, "days", IntListValue(days));
    assert GetIntList(d, "days", [1]) == Ok(days);
    StrictlyIncreasingUnique(SortedSet(days), days);
    ClockedBack(MonthlyMultipleDaysKind, d, c, tz, MonthlyMultipleDays(days, c, tz));
  }

  lemma AnchorRead(data: Dict, anchor: Date)
    requires ValidDate(anchor) && 1 <= anchor.year <= 9999
    requires "anchor_date" in data && data["anchor_date"] == StrValue(FormatDate(anchor))
    ensures GetAnchor(data) == Ok(anchor)
  {
    DateRoundTrip(anchor);
  }

  lemma BiweeklyBack(data: Dict, w: int, c: Clock, tz: string, anchor: Date)
    requires HoldsClock(data, c, tz) && ValidDate(anchor) && 1 <= anchor.year <= 9999
    requires "weekday" in data && data["weekday"] == IntValue(w)
    requires "anchor_date" in data && data["anchor_date"] == StrValue(FormatDate(anchor))
    ensures Deserialize(BiweeklyOnDayKind, data) == Ok(BiweeklyOnDay(w, c, tz, anchor))
  {
    IntRead(data, "weekday", w, 0);
    AnchorRead(data, anchor);
    ClockedBack(BiweeklyOnDayKind, data, c, tz, BiweeklyOnDay(w, c, tz, anchor));
  }

  lemma BiweeklyRoundTrip(w: int, c: Clock, tz: string, anchor: Date)
    requires ValidDate(anchor) && 1 <= anchor.year <= 9999
    ensures Deserialize(BiweeklyOnDayKind, Serialize(BiweeklyOnDay(w, c, tz, anchor)))
              == Ok(BiweeklyOnDay(w, c, tz, anchor))
  {
    var d0 := ClockFields(c, tz)["weekday" := IntValue(w)];
    var d := d0["anchor_date" := StrValue(FormatDate(anchor))];
    assert Serialize(BiweeklyOnDay(w, c, tz, anchor)) == d;
    ClockFieldsHold(c, tz);
    HoldsClockKept(ClockFields(c, tz), c, tz, "weekday", IntValue(w));
    HoldsClockKept(d0, c, tz, "anchor_date", StrValue(FormatDate(anchor)));
    BiweeklyBack(d, w, c, tz, anchor);
  }

  lemma OccurrenceRoundTrip(w: int, n: int, c: Clock, tz: string)
    ensures Deserialize(MonthlyWeekdayOccurrenceKind, Serialize(MonthlyWeekdayOccurrence(w, n, c, tz)))
              == Ok(MonthlyWeekdayOccurrence(w, n, c, tz))
  {
    var d0 := ClockFields(c, tz)["weekday" := IntValue(w)];
    var d := Serialize(MonthlyWeekdayOccurrence(w, n, c, tz));
    assert d == d0["n" := IntValue(n)];
    ClockFieldsHold(c, tz);
    HoldsClockKept(ClockFields(c, tz), c, tz, "weekday", IntValue(w));
    HoldsClockKept(d0, c, tz, "n", IntValue(n));
    IntRead(d, "weekday", w, 0);
    IntRead(d, "n", n, 1);
    ClockedBack(MonthlyWeekdayOccurrenceKind, d, c, tz, MonthlyWeekdayOccurrence(w, n, c, tz));
  }

  lemma IntervalRoundTrip(minutes: int, hours: int, tz: string)
    ensures Deserialize(EveryNIntervalKind, Serialize(EveryNInterval(minutes, hours, tz)))
              == Ok(EveryNInterval(minutes, hours, tz))
  {
    var d := Serialize(EveryNInterval(minutes, hours, tz));
    assert d["tz"] == StrValue(tz);
    IntRead(d, "interval_minutes", minutes, 0);
    IntRead(d, "interval_hours", hours, 0);
  }

  /** `deserialize(serialize(t))` reproduces every field. */
  lemma RoundTrip(t: Timetable)
    requires Encodable(t)
    ensures Deserialize(KindOf(t), Serialize(t)) == Ok(t)
  {
    match t
    case MonthlyOnDay(day, _, _) => OneIntRoundTrip(t, "day", day);
    case WeeklyOnDay(w, _, _) => OneIntRoundTrip(t, "weekday", w);
    case EveryNDays(n, _, _) => OneIntRoundTrip(t, "interval_days", n);
    case BusinessDayOfMonth(n, _, _) => OneIntRoundTrip(t, "n", n);
    case MonthlyMultipleDays(days, c, tz) => MultipleDaysRoundTrip(days, c, tz);
    case BiweeklyOnDay(w, c, tz, anchor) => BiweeklyRoundTrip(w, c, tz, anchor);
    case MonthlyWeekdayOccurrence(w, n, c, tz) => OccurrenceRoundTrip(w, n, c, tz);
    case EveryNInterval(minutes, hours, tz) => IntervalRoundTrip(minutes, hours, tz);
    case MonthlyLastDay(_, _) => PlainRoundTrip(t);
    case QuarterlyFirstDay(_, _) => PlainRoundTrip(t);
    case QuarterlyLastDay(_, _) => PlainRoundTrip(t);
    case YearlyFirstDay(_, _) => PlainRoundTrip(t);
    case SemiMonthly(_, _) => PlainRoundTrip(t);
    case MonthlyLastDayExceptWeekend(_, _) => PlainRoundTrip(t);
  }

  /** The constructor defaults of each class, written out as the source's signatures
      give them. */
  function Defaults(k: Kind): Timetable {
    var c := Clock(0, 0, 0);
    match k
    case MonthlyLastDayKind => MonthlyLastDay(c, DefaultTz)
    case MonthlyOnDayKind => MonthlyOnDay(1, c, DefaultTz)
    case MonthlyMultipleDaysKind => MonthlyMultipleDays([1], c, DefaultTz)
    case QuarterlyFirstDayKind => QuarterlyFirstDay(c, DefaultTz)
    case QuarterlyLastDayKind => QuarterlyLastDay(c, DefaultTz)
    case YearlyFirstDayKind => YearlyFirstDay(c, DefaultTz)
    case WeeklyOnDayKind => WeeklyOnDay(0, c, DefaultTz)
    case BiweeklyOnDayKind => BiweeklyOnDay(0, c, DefaultTz, Date(2024, 1, 1))
    case SemiMonthlyKind => SemiMonthly(c, DefaultTz)
    case MonthlyWeekdayOccurrenceKind => MonthlyWeekdayOccurrence(0, 1, c, DefaultTz)
    case EveryNDaysKind => EveryNDays(1, c, DefaultTz)
    case BusinessDayOfMonthKind => BusinessDayOfMonth(1, c, DefaultTz)
    case MonthlyLastDayExceptWeekendKind => MonthlyLastDayExceptWeekend(c, DefaultTz)
    case EveryNIntervalKind => EveryNInterval(0, 0, DefaultTz)
  }

  /** An empty dictionary gives every field its constructor default. */
  lemma EmptyGivesDefaults(k: Kind)
    ensures Deserialize(k, map[]) == Ok(Defaults(k))
  {
    DefaultAnchorParses();
    assert NewMonthlyMultipleDays(Some([1]), Clock(0, 0, 0), DefaultTz).days == [1] by {
      StrictlyIncreasingUnique(SortedSet([1]), [1]);
    }
  }

  /** Two dictionaries with the same entries under the given keys. */
  predicate Agree(d1: Dict, d2: Dict, names: set<string>) {
    forall name :: name in names ==> (name in d1 <==> name in d2) && (name in d1 ==> d1[name] == d2[name])
  }

  lemma GettersAgree(d1: Dict, d2: Dict, name: string)
    requires Agree(d1, d2, {name})
    ensures forall default :: GetInt(d1, name, default) == GetInt(d2, name, default)
    ensures forall default :: GetString(d1, name, default) == GetString(d2, name, default)
    ensures forall default :: GetIntList(d1, name, default) == GetIntList(d2, name, default)
  {
    assert name in {name};
  }

  lemma ClockedAgree(k: Kind, d1: Dict, d2: Dict, c: Clock, tz: string)
    requires Agree(d1, d2, Keys(k))
    ensures DeserializeClocked(k, d1, c, tz) == DeserializeClocked(k, d2, c, tz)
  {
    match k
    case MonthlyOnDayKind => GettersAgree(d1, d2, "day");
    case MonthlyMultipleDaysKind => GettersAgree(d1, d2, "days");
    case WeeklyOnDayKind => GettersAgree(d1, d2, "weekday");
    case BiweeklyOnDayKind =>
      GettersAgree(d1, d2, "weekday");
      GettersAgree(d1, d2, "anchor_date");
    case MonthlyWeekdayOccurrenceKind =>
      GettersAgree(d1, d2, "weekday");
      GettersAgree(d1, d2, "n");
    case EveryNDaysKind => GettersAgree(d1, d2, "interval_days");
    case BusinessDayOfMonthKind => GettersAgree(d1, d2, "n");
    case _ =>
  }

  /** `deserialize` reads only its own keys: any other entry is ignored. */
  lemma OtherKeysIgnored(k: Kind, data: Dict, key: string, v: Value)
    requires key !in Keys(k)
    ensures Deserialize(k, data[key := v]) == Deserialize(k, data)
  {
    var data' := data[key := v];
    assert Agree(data', data, Keys(k));
    GettersAgree(data', data, "tz");
    if k == EveryNIntervalKind {
      GettersAgree(data', data, "interval_minutes");
      GettersAgree(data', data, "interval_hours");
    } else {
      GettersAgree(data', data, "hour");
      GettersAgree(data', data, "minute");
      GettersAgree(data', data, "second");
      assert GetClock(data') == GetClock(data);
      forall c, tz ensures DeserializeClocked(k, data', c, tz) == DeserializeClocked(k, data, c, tz) {
        ClockedAgree(k, data', data, c, tz);
      }
    }
  }

  /** A value of the wrong type under a key the class reads is an error, not a
      default. */
  lemma WrongTypeFails(k: Kind, data: Dict)
    requires "tz" in data && !data["tz"].StrValue?
    ensures Deserialize(k, data).Failure?
  {
  }

  /** Deserialised MonthlyMultipleDays lists are in the constructor's normal form. */
  lemma DeserializedDaysSorted(data: Dict)
    ensures Deserialize(MonthlyMultipleDaysKind, data).Ok? ==>
              StrictlyIncreasing(Deserialize(MonthlyMultipleDaysKind, data).value.days)
  {
  }
}
