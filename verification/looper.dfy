/**
 * The loop manager: a two-state machine (`Active`, `Asleep`) that forces a
 * measure and a sleep to alternate, a root rate with its statistics, and a
 * table of named rates, each optionally with its own statistics. Every
 * operation returns the updated looper together with what the source
 * returns; the clock and the platform sleep are parameters and results.
 */
module Loop {

  import opened Numeric
  import opened Wrappers
  import opened NameKeys
  import Rates
  import Stats

  datatype LoopStatus = Active | Asleep

  /** `EsperaError`: its only variant wraps the name encoder's error. */
  datatype EsperaError = RateName(cause: EncodeError)

  datatype Looper = Looper(
    status: LoopStatus,
    rootRate: Rates.Rate,
    rootStats: Stats.RateStats,
    rates: map<Key, Rates.Rate>,
    stats: map<Key, Stats.RateStats>
  )

  /** `Looper::default` / `Looper::new`: active, a default root rate, no named rates. */
  function New(now: int): (l: Looper)
    ensures l.status == Active
    ensures l.rootRate == Rates.Default(now) && l.rootStats == Stats.New()
    ensures |l.rates| == 0 && |l.stats| == 0
  {
    Looper(Active, Rates.Default(now), Stats.New(), map[], map[])
  }

  /**
   * `measure`: only when asleep, records `now` as the root's last tick,
   * counts a root tick, becomes active and feeds the root statistics with
   * the elapsed nanoseconds (cast to `u64`, so a negative delta wraps).
   * Returns `(now, delta)`, or nothing when already active.
   */
  function Measure(l: Looper, now: int): (r: (Looper, Option<(int, int)>))
    ensures l.status == Active ==> r == (l, None)
    ensures l.status == Asleep ==>
      var delta := now - l.rootRate.lastTick;
      && r.1 == Some((now, delta))
      && r.0.status == Active
      && r.0.rootRate == l.rootRate.(lastTick := now, ticks := l.rootRate.ticks + 1)
      && Stats.Back(r.0.rootStats.ring, 0) == WrapU64(delta)
      && (forall k :: 0 <= k < 1023 ==> Stats.Back(r.0.rootStats.ring, k + 1) == Stats.Back(l.rootStats.ring, k))
      && r.0.rootStats == Stats.UpdateAsWritten(Stats.AddNs(l.rootStats, WrapU64(delta)), r.0.rootRate.ticks)
      && r.0.rates == l.rates && r.0.stats == l.stats
  {
    match l.status
    case Active => (l, None)
    case Asleep =>
      var delta := now - l.rootRate.lastTick;
      var root := Rates.IncrementTicks(Rates.SetLastTick(l.rootRate, now));
      var stats := Stats.UpdateAsWritten(Stats.AddNs(l.rootStats, WrapU64(delta)), root.ticks);
      (l.(status := Active, rootRate := root, rootStats := stats), Some((now, delta)))
  }

  /**
   * `sleep`: only when active, becomes asleep; the second component is the
   * wait handed to the platform, present only for a positive duration.
   */
  function Sleep(l: Looper, duration: int): (r: (Looper, Option<int>))
    ensures l.status == Asleep ==> r == (l, None)
    ensures l.status == Active ==> r.0 == l.(status := Asleep)
    ensures r.1.Some? <==> l.status == Active && duration > 0
    ensures r.1.Some? ==> r.1.value == duration
  {
    match l.status
    case Asleep => (l, None)
    case Active => (l.(status := Asleep), if duration > 0 then Some(duration) else None)
  }

  /** `reset_root`: asleep, root rate and root statistics reset; named rates kept. */
  function ResetRoot(l: Looper, now: int): (r: Looper)
    ensures r.status == Asleep
    ensures r.rootRate == Rates.New(l.rootRate.duration, now)
    ensures r.rootStats.ring == l.rootStats.ring && r.rootStats.max16 == l.rootStats.max16
    ensures r.rootStats.acc16 == 0 && r.rootStats.acc128 == 0 && r.rootStats.acc1024 == 0
    ensures r.rootStats.max128 == 0 && r.rootStats.max1024 == 0
    ensures r.rates == l.rates && r.stats == l.stats
  {
    l.(status := Asleep, rootRate := Rates.Reset(l.rootRate, now), rootStats := Stats.Reset(l.rootStats))
  }

  /** `reset`: currently only the root. */
  function Reset(l: Looper, now: int): (r: Looper)
    ensures r == ResetRoot(l, now)
  {
    ResetRoot(l, now)
  }

  /**
   * `add_rate`: an invalid name is an error and changes nothing; otherwise
   * the rate is stored under the name's key, fresh statistics are stored
   * when `withStats`, and the rate it replaced, if any, is returned.
   */
  function AddRate(l: Looper, name: string, rate: Rates.Rate, withStats: bool)
    : (r: (Looper, Result<Option<Rates.Rate>, EsperaError>))
    ensures !ValidName(name) <==> r.1.Err?
    ensures r.1.Err? ==> r.0 == l && r.1.error == RateName(InvalidName)
    ensures r.1.Ok? ==>
      var key := Encode(name).value;
      && r.0.rates == l.rates[key := rate]
      && r.0.stats == (if withStats then l.stats[key := Stats.New()] else l.stats)
      && r.1.value == (if key in l.rates then Some(l.rates[key]) else None)
      && r.0.status == l.status && r.0.rootRate == l.rootRate && r.0.rootStats == l.rootStats
  {
    match Encode(name)
    case Err(e) => (l, Err(RateName(e)))
    case Ok(key) =>
      var stats := if withStats then l.stats[key := Stats.New()] else l.stats;
      var previous := if key in l.rates then Some(l.rates[key]) else None;
      (l.(rates := l.rates[key := rate], stats := stats), Ok(previous))
  }

  /** `ref_rate`: the rate stored under a valid name, if any. */
  function RefRate(l: Looper, name: string): (r: Option<Rates.Rate>)
    ensures r.Some? <==> ValidName(name) && Encode(name).value in l.rates
    ensures r.Some? ==> r.value == l.rates[Encode(name).value]
  {
    match Encode(name)
    case Err(_) => None
    case Ok(key) => if key in l.rates then Some(l.rates[key]) else None
  }

  /**
   * `mut_rate`: the exclusive reference is modelled as an `edit` applied
   * to the stored rate; the flag says whether there was a rate to edit.
   */
  function MutRate(l: Looper, name: string, edit: Rates.Rate -> Rates.Rate): (r: (Looper, bool))
    ensures r.1 <==> RefRate(l, name).Some?
    ensures !r.1 ==> r.0 == l
    ensures r.1 ==> r.0 == l.(rates := l.rates[Encode(name).value := edit(RefRate(l, name).value)])
  {
    match Encode(name)
    case Err(_) => (l, false)
    case Ok(key) =>
      if key in l.rates then (l.(rates := l.rates[key := edit(l.rates[key])]), true) else (l, false)
  }

  /**
   * `fastest_rate_duration`: the smallest duration among the named rates,
   * or nothing when there are none.
   */
  method FastestRateDuration(l: Looper) returns (r: Option<int>)
    ensures r.None? <==> |l.rates| == 0
    ensures r.Some? ==> exists key :: key in l.rates && l.rates[key].duration == r.value
    ensures r.Some? ==> forall key :: key in l.rates ==> r.value <= l.rates[key].duration
  {
    var pending := l.rates.Keys;
    r := None;
    while pending != {}
      invariant pending <= l.rates.Keys
      invariant r.None? <==> pending == l.rates.Keys
      invariant r.Some? ==> exists key :: key in l.rates && l.rates[key].duration == r.value
      invariant r.Some? ==> forall key :: key in l.rates && key !in pending ==> r.value <= l.rates[key].duration
      decreases pending
    {
      var key :| key in pending;
      var d := l.rates[key].duration;
      if r.None? || d < r.value {
        r := Some(d);
      }
      pending := pending - {key};
    }
    if r.None? {
      assert l.rates.Keys == {};
    }
  }

  /**
   * The shared body of `do_tick` and `do_tick_fast`: look up the named
   * rate, tick it (with or without lag compensation), and when it fires
   * feed the rate's statistics, if it has any, with the delta.
   */
  function TickNamed(l: Looper, now: int, name: string, compensated: bool): (r: (Looper, Option<int>))
    ensures Encode(name).Err? ==> r == (l, None)
    ensures Encode(name).Ok? && Encode(name).value !in l.rates ==> r == (l, None)
    ensures r.1.None? ==> r.0 == l
    ensures r.0.rates.Keys == l.rates.Keys && r.0.stats.Keys == l.stats.Keys
    ensures r.1.Some? ==>
      && Encode(name).Ok?
      && Encode(name).value in l.rates
      && r.0.rates == l.rates[Encode(name).value := r.0.rates[Encode(name).value]]
    ensures r.0.status == l.status && r.0.rootRate == l.rootRate && r.0.rootStats == l.rootStats
  {
    match Encode(name)
    case Err(_) => (l, None)
    case Ok(key) =>
      if key !in l.rates then (l, None)
      else
        var (rate, fired) := if compensated then Rates.DoTick(l.rates[key], now)
                             else Rates.DoTickFast(l.rates[key], now);
        match fired
        case None => (l, None)
        case Some(delta) =>
          var stats := if key in l.stats
                       then l.stats[key := Stats.UpdateAsWritten(Stats.AddNs(l.stats[key], WrapU64(delta)), rate.ticks)]
                       else l.stats;
          (l.(rates := l.rates[key := rate], stats := stats), Some(delta))
  }

  /** `do_tick`: ticks the named rate with lag compensation. */
  function DoTick(l: Looper, now: int, name: string): (r: (Looper, Option<int>))
    ensures RefRate(l, name).None? ==> r == (l, None)
    ensures RefRate(l, name).Some? ==>
      var (rate, fired) := Rates.DoTick(RefRate(l, name).value, now);
      && r.1 == fired
      && RefRate(r.0, name) == Some(rate)
    ensures r.1.None? ==> r.0 == l
    ensures r.0.status == l.status && r.0.rootRate == l.rootRate && r.0.rootStats == l.rootStats
    ensures r.0.rates.Keys == l.rates.Keys && r.0.stats.Keys == l.stats.Keys
  {
    TickNamed(l, now, name, true)
  }

  /** `do_tick_fast`: ticks the named rate without lag compensation. */
  function DoTickFast(l: Looper, now: int, name: string): (r: (Looper, Option<int>))
    ensures RefRate(l, name).None? ==> r == (l, None)
    ensures RefRate(l, name).Some? ==>
      var (rate, fired) := Rates.DoTickFast(RefRate(l, name).value, now);
      && r.1 == fired
      && RefRate(r.0, name) == Some(rate)
    ensures r.1.None? ==> r.0 == l
    ensures r.0.status == l.status && r.0.rootRate == l.rootRate && r.0.rootStats == l.rootStats
    ensures r.0.rates.Keys == l.rates.Keys && r.0.stats.Keys == l.stats.Keys
  {
    TickNamed(l, now, name, false)
  }

  /* ---------------------------------------------------------------- */

  /** Adding a rate under a valid name makes it the one `ref_rate` sees. */
  lemma AddThenRef(l: Looper, name: string, rate: Rates.Rate, withStats: bool)
    requires ValidName(name)
    ensures RefRate(AddRate(l, name, rate, withStats).0, name) == Some(rate)
  {
  }

  /** Adding a rate leaves every other name's rate as it was. */
  lemma AddKeepsOtherRates(l: Looper, name: string, other: string, rate: Rates.Rate, withStats: bool)
    requires name != other
    ensures RefRate(AddRate(l, name, rate, withStats).0, other) == RefRate(l, other)
  {
    if ValidName(name) && ValidName(other) {
      EncodeInjective(name, other);
    }
  }

  /** Adding twice under one name returns the first rate the second time. */
  lemma AddTwiceReturnsPrevious(l: Looper, name: string, first: Rates.Rate, second: Rates.Rate)
    requires ValidName(name)
    ensures var l1 := AddRate(l, name, first, false).0;
            AddRate(l1, name, second, false).1 == Ok(Some(first))
  {
  }

  /** The longest allowed name is accepted; one character more is a `RateName` error. */
  lemma NameLengthLimit(l: Looper, rate: Rates.Rate)
    ensures AddRate(l, "ascii_name_max_length", rate, false).1.Ok?
    ensures AddRate(l, "ascii_name_max_length_", rate, false).1 == Err(RateName(InvalidName))
  {
    LongestNameIsValid();
    assert |"ascii_name_max_length_"| == 22;
  }

  lemma LongestNameIsValid()
    ensures ValidName("ascii_name_max_length")
  {
    var name := "ascii_name_max_length";
    assert |name| == 21;
    forall i | 0 <= i < |name|
      ensures ValidChar(name[i])
    {
    }
  }

  /** A ticking rate never disturbs any other name's rate. */
  lemma TickKeepsOtherRates(l: Looper, now: int, name: string, other: string, compensated: bool)
    requires name != other
    ensures RefRate(TickNamed(l, now, name, compensated).0, other) == RefRate(l, other)
  {
    if ValidName(name) && ValidName(other) {
      EncodeInjective(name, other);
    }
  }

  /**
   * A fired tick on a rate that has statistics records the delta and
   * refreshes the windows at the rate's new tick count; a rate without
   * statistics never gains any, and no other statistics change.
   */
  lemma TickFeedsStats(l: Looper, now: int, name: string, compensated: bool)
    requires ValidName(name)
    ensures var key := Encode(name).value;
            var r := TickNamed(l, now, name, compensated);
            && (key !in l.stats || r.1.None? ==> r.0.stats == l.stats)
            && (key in l.stats && r.1.Some? ==>
                  && key in r.0.rates
                  && r.0.stats == l.stats[key := Stats.UpdateAsWritten(
                       Stats.AddNs(l.stats[key], WrapU64(r.1.value)), r.0.rates[key].ticks)]
                  && Stats.Back(r.0.stats[key].ring, 0) == WrapU64(r.1.value))
  {
  }

  /** Measuring twice in a row: the second measure is refused and changes nothing. */
  lemma MeasureTwice(l: Looper, now: int, later: int)
    ensures Measure(Measure(l, now).0, later) == (Measure(l, now).0, None)
  {
  }

  /** A reset looper takes its first measure at once, from the reset instant. */
  lemma ResetThenMeasure(l: Looper, resetAt: int, now: int)
    ensures Measure(Reset(l, resetAt), now).1 == Some((now, now - resetAt))
  {
  }

  /* ---------------------------------------------------------------- */

  /** A call a program makes on a looper. */
  datatype Event =
    | MeasureAt(now: int)
    | SleepFor(duration: int)
    | TickAt(now: int, name: string, compensated: bool)
    | ResetAt(now: int)

  function Step(l: Looper, e: Event): Looper
  {
    match e
    case MeasureAt(now) => Measure(l, now).0
    case SleepFor(d) => Sleep(l, d).0
    case TickAt(now, name, compensated) => TickNamed(l, now, name, compensated).0
    case ResetAt(now) => Reset(l, now)
  }

  function Run(l: Looper, events: seq<Event>): Looper
    decreases |events|
  {
    if |events| == 0 then l else Run(Step(l, events[0]), events[1..])
  }

  /** How many measures in the run returned a value. */
  function Measures(l: Looper, events: seq<Event>): nat
    decreases |events|
  {
    if |events| == 0 then 0
    else (if events[0].MeasureAt? && l.status == Asleep then 1 else 0) + Measures(Step(l, events[0]), events[1..])
  }

  /** How many sleeps in the run found the looper active. */
  function Sleeps(l: Looper, events: seq<Event>): nat
    decreases |events|
  {
    if |events| == 0 then 0
    else (if events[0].SleepFor? && l.status == Active then 1 else 0) + Sleeps(Step(l, events[0]), events[1..])
  }

  function AsleepFlag(l: Looper): int
  {
    if l.status == Asleep then 1 else 0
  }

  /**
   * The state machine's alternation: in a run without resets, effective
   * sleeps and effective measures alternate, so their difference (counting
   * a looper that starts asleep as one sleep ahead) is 0 or 1, and it is 1
   * exactly when the looper ends asleep.
   */
  lemma {:induction false} Alternation(l: Looper, events: seq<Event>)
    requires forall i :: 0 <= i < |events| ==> !events[i].ResetAt?
    ensures Sleeps(l, events) + AsleepFlag(l) - Measures(l, events) == AsleepFlag(Run(l, events))
    decreases |events|
  {
    if |events| > 0 {
      Alternation(Step(l, events[0]), events[1..]);
    }
  }

  /** From a new looper, a measure only ever follows a sleep. */
  lemma AlternationFromNew(now: int, events: seq<Event>)
    requires forall i :: 0 <= i < |events| ==> !events[i].ResetAt?
    ensures Measures(New(now), events) <= Sleeps(New(now), events) <= Measures(New(now), events) + 1
    ensures Run(New(now), events).status == Asleep <==> Sleeps(New(now), events) == Measures(New(now), events) + 1
  {
    Alternation(New(now), events);
  }
}
