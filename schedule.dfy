/** What the host scheduler hands to a timetable and gets back: the data interval of a
    run, the time restriction of the DAG, and the shared policy that turns them into
    the instant a forward search starts from. */
module Schedule {

  datatype Option<T> = None | Some(value: T)

  /** A value, or the ValueError the source raises, with its message. */
  datatype Outcome<T> = Ok(value: T) | Failure(message: string)
  {
    predicate IsFailure() {
      Failure?
    }

    function PropagateFailure<U>(): Outcome<U>
      requires Failure?
    {
      Failure(message)
    }

    function Extract(): T
      requires Ok?
    {
      value
    }
  }

  /** The window [start, end) attributed to one run, in seconds. */
  datatype DataInterval = DataInterval(start: int, end: int)

  /** Bounds on automated runs: `earliest` and `latest` are optional instants. */
  datatype TimeRestriction = TimeRestriction(earliest: Option<int>, latest: Option<int>, catchup: bool)

  const SecondsPerHour := 3600

  function Max(a: int, b: int): (r: int)
    ensures r >= a && r >= b && (r == a || r == b)
  {
    if a < b then b else a
  }

  /** `restriction.earliest or now`. */
  function EarliestOrNow(restriction: TimeRestriction, now: int): (r: int)
    ensures restriction.earliest.Some? ==> r == restriction.earliest.value
    ensures restriction.earliest.None? ==> r == now
  {
    match restriction.earliest
    case Some(e) => e
    case None => now
  }

  /** The instant the next-run search starts from: the end of the last automated
      interval, or the baseline for a first run; without catch-up neither may lie
      before `now`. */
  function SearchStart(restriction: TimeRestriction, last: Option<DataInterval>, now: int): (after: int)
    ensures !restriction.catchup ==> after >= now
    ensures last.None? && restriction.catchup ==> after == EarliestOrNow(restriction, now)
    ensures last.None? && !restriction.catchup ==> after == Max(EarliestOrNow(restriction, now), now)
    ensures last.Some? && restriction.catchup ==> after == last.value.end
    ensures last.Some? && !restriction.catchup ==> after == Max(last.value.end, now)
  {
    var baseline := EarliestOrNow(restriction, now);
    var baseline := if !restriction.catchup then Max(baseline, now) else baseline;
    match last
    case None => baseline
    case Some(interval) =>
      if !restriction.catchup && interval.end < now then now else interval.end
  }

  /** The `restriction.latest` cutoff, for the timetables that apply it: no run when
      the start lies after `latest`. */
  function Cutoff(restriction: TimeRestriction, interval: DataInterval, applies: bool): (r: Option<DataInterval>)
    ensures r.None? <==> applies && restriction.latest.Some? && interval.start > restriction.latest.value
    ensures r.Some? ==> r.value == interval
  {
    if applies && restriction.latest.Some? && interval.start > restriction.latest.value then None
    else Some(interval)
  }

  /** The one-hour window used by every timetable except the fixed cadences. */
  function HourWindow(start: int): (r: DataInterval)
    ensures r.start == start && r.end - r.start == SecondsPerHour
  {
    DataInterval(start, start + SecondsPerHour)
  }
}
