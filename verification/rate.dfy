/**
 * One cadence: a target duration per tick, the instants of the first and
 * the last tick, a tick counter and a signed nanosecond lag accumulator
 * held in an `i32`. Durations and instants are integer nanoseconds; every
 * read of the clock is a parameter.
 */
module Rates {

  import opened Numeric
  import opened Wrappers

  datatype Rate = Rate(
    duration: int,   // target nanoseconds per tick; zero means every call is due
    lastTick: int,   // anchor of the next-due check
    firstTick: int,  // anchor of tick-number arithmetic
    ticks: nat,      // ticks fired since the last reset
    deltaRem: i32    // accumulated lag, positive when ticks came late
  )

  /** `Rate::new`: both anchors at `now`, no ticks, no lag. */
  function New(durationPerTick: int, now: int): (r: Rate)
    ensures r.duration == durationPerTick
    ensures r.firstTick == now && r.lastTick == now
    ensures r.ticks == 0 && r.deltaRem == 0
  {
    Rate(durationPerTick, now, now, 0, 0)
  }

  /** `Rate::default`: a rate whose every call is due. */
  function Default(now: int): (r: Rate)
    ensures r == New(0, now)
    ensures DoTickFast(r, now).1 == Some(0)
  {
    New(0, now)
  }

  /** `Rate::reset`: forgets ticks and lag and re-anchors at `now`; keeps the duration. */
  function Reset(rate: Rate, now: int): (r: Rate)
    ensures r.duration == rate.duration
    ensures r.ticks == 0 && r.deltaRem == 0
    ensures r.firstTick == now && r.lastTick == now
  {
    rate.(ticks := 0, firstTick := now, lastTick := now, deltaRem := 0)
  }

  /** `Rate::increment_ticks`. */
  function IncrementTicks(rate: Rate): (r: Rate)
    ensures r.ticks == rate.ticks + 1
    ensures r.(ticks := rate.ticks) == rate
  {
    rate.(ticks := rate.ticks + 1)
  }

  /** `Rate::set_first_tick`: only the first anchor changes. */
  function SetFirstTick(rate: Rate, instant: int): (r: Rate)
    ensures r.firstTick == instant
    ensures r.(firstTick := rate.firstTick) == rate
  {
    rate.(firstTick := instant)
  }

  /** `Rate::set_last_tick`: only the last anchor changes. */
  function SetLastTick(rate: Rate, instant: int): (r: Rate)
    ensures r.lastTick == instant
    ensures r.(lastTick := rate.lastTick) == rate
  {
    rate.(lastTick := instant)
  }

  /** `Rate::set_duration`: only the target duration changes. */
  function SetDuration(rate: Rate, durationPerTick: int): (r: Rate)
    ensures r.duration == durationPerTick
    ensures r.(duration := rate.duration) == rate
  {
    rate.(duration := durationPerTick)
  }

  /** `Rate::first_elapsed`: signed time from the first anchor to `instant`. */
  function FirstElapsed(rate: Rate, instant: int): (d: int)
    ensures rate.firstTick + d == instant
  {
    instant - rate.firstTick
  }

  /** `Rate::last_elapsed`: signed time from the last anchor to `instant`. */
  function LastElapsed(rate: Rate, instant: int): (d: int)
    ensures rate.lastTick + d == instant
  {
    instant - rate.lastTick
  }

  /** The lag a tick at `instant` folds into the accumulator: clamped to `i32`, then added saturating. */
  function FoldLag(rate: Rate, instant: int): (r: i32)
    ensures ExactLag(rate, instant) ==> r == rate.deltaRem + LastElapsed(rate, instant) - rate.duration
    ensures instant - rate.lastTick >= rate.duration ==> r >= rate.deltaRem
    ensures instant - rate.lastTick <= rate.duration ==> r <= rate.deltaRem
  {
    SaturatingAddI32(rate.deltaRem, ClampI32(LastElapsed(rate, instant) - rate.duration))
  }

  /**
   * `Rate::do_tick`, the lag-compensated tick. It fires when the time since
   * the last tick plus the accumulated lag reaches the target duration; then
   * it folds this tick's lag into the accumulator, counts the tick, moves the
   * last anchor to `instant` and returns the elapsed time. Otherwise nothing
   * changes.
   */
  function DoTick(rate: Rate, instant: int): (r: (Rate, Option<int>))
    ensures r.1.Some? <==> (instant - rate.lastTick) + rate.deltaRem >= rate.duration
    ensures r.1.Some? ==> r.1.value == instant - rate.lastTick
    ensures r.1.Some? ==> r.0.ticks == rate.ticks + 1 && r.0.lastTick == instant
    ensures r.1.Some? ==> r.0.firstTick == rate.firstTick && r.0.duration == rate.duration
    ensures r.1.Some? ==> r.0.deltaRem == FoldLag(rate, instant)
    ensures r.1.Some? && ExactLag(rate, instant) ==> r.0.deltaRem == rate.deltaRem + r.1.value - rate.duration
    ensures r.1.Some? && instant - rate.lastTick >= rate.duration ==> r.0.deltaRem >= rate.deltaRem
    ensures r.1.Some? && instant - rate.lastTick <= rate.duration ==> r.0.deltaRem <= rate.deltaRem
    ensures r.1.None? ==> r.0 == rate
  {
    var delta := LastElapsed(rate, instant);
    if delta + rate.deltaRem >= rate.duration then
      var lagClamped := ClampI32(delta - rate.duration);
      var rate' := rate.(deltaRem := SaturatingAddI32(rate.deltaRem, lagClamped));
      (SetLastTick(IncrementTicks(rate'), instant), Some(delta))
    else
      (rate, None)
  }

  /**
   * `Rate::do_tick_fast`: fires when the time since the last tick reaches
   * the target duration, ignoring and never touching the lag accumulator.
   */
  function DoTickFast(rate: Rate, instant: int): (r: (Rate, Option<int>))
    ensures r.1.Some? <==> instant - rate.lastTick >= rate.duration
    ensures r.1.Some? ==> r.1.value == instant - rate.lastTick
    ensures r.1.Some? ==> r.0 == rate.(ticks := rate.ticks + 1, lastTick := instant)
    ensures r.1.None? ==> r.0 == rate
    ensures rate.duration >= 0 && r.1.Some? ==> r.1.value >= 0
  {
    var delta := LastElapsed(rate, instant);
    if delta >= rate.duration then
      (SetLastTick(IncrementTicks(rate), instant), Some(delta))
    else
      (rate, None)
  }

  // ---------------------------------------------------------------------------
  // Properties relating the operations

  /** Resetting gives the same state as building a fresh rate with the same duration. */
  lemma ResetIsNew(rate: Rate, now: int)
    ensures Reset(rate, now) == New(rate.duration, now)
    ensures Reset(Reset(rate, now), now) == Reset(rate, now)
  {
  }

  /** Right after a reset the first call at the same instant fires exactly when the duration is not positive. */
  lemma TickAfterReset(rate: Rate, now: int)
    ensures DoTick(Reset(rate, now), now).1.Some? <==> rate.duration <= 0
    ensures DoTickFast(Reset(rate, now), now).1.Some? <==> rate.duration <= 0
  {
  }

  /** A setter followed by the getter or the elapsed query sees the value set. */
  lemma SetThenElapsed(rate: Rate, anchor: int, instant: int)
    ensures SetFirstTick(rate, anchor).firstTick == anchor
    ensures FirstElapsed(SetFirstTick(rate, anchor), instant) == instant - anchor
    ensures SetLastTick(rate, anchor).lastTick == anchor
    ensures LastElapsed(SetLastTick(rate, anchor), instant) == instant - anchor
  {
  }

  /** With no accumulated lag the two tick variants fire on the same calls and report the same delta. */
  lemma NoLagTicksAgree(rate: Rate, instant: int)
    requires rate.deltaRem == 0
    ensures DoTick(rate, instant).1 == DoTickFast(rate, instant).1
    ensures DoTick(rate, instant).0.(deltaRem := 0) == DoTickFast(rate, instant).0
  {
  }

  /**
   * The documented promise that a negative difference yields `None` holds
   * as coded only when the duration is not negative and no positive lag
   * has been accumulated.
   */
  lemma NegativeDeltaNeverTicksWithoutCredit(rate: Rate, instant: int)
    requires rate.duration >= 0 && rate.deltaRem <= 0
    requires instant < rate.lastTick
    ensures DoTick(rate, instant).1.None?
    ensures DoTickFast(rate, instant).1.None?
  {
  }

  /** With accumulated positive lag, a call earlier than the last tick still fires and reports a negative delta. */
  lemma NegativeDeltaTicksWithCredit()
    ensures DoTick(Rate(0, 10, 0, 0, 5), 7) == (Rate(0, 7, 0, 1, 2), Some(-3))
  {
  }

  /**
   * Lag compensation example: with a 25 ms target, a tick 40 ms after the
   * last one leaves 15 ms of lag, so a call only 10 ms later still fires and
   * the counter reaches two.
   */
  lemma LagCompensationExample(start: int)
    ensures
      var ms := 1_000_000;
      var r0 := New(25 * ms, start);
      var (r1, d1) := DoTick(r0, start + 40 * ms);
      var (r2, d2) := DoTick(r1, start + 50 * ms);
      && d1 == Some(40 * ms) && r1.deltaRem == 15 * ms
      && d2 == Some(10 * ms) && r2.ticks == 2 && r2.deltaRem == 0
      && DoTickFast(r1, start + 50 * ms).1.None?
  {
  }

  /** Runs `DoTick` once per instant, in order. */
  function TickAll(rate: Rate, instants: seq<int>): (r: Rate)
    decreases |instants|
  {
    if |instants| == 0 then rate else TickAll(DoTick(rate, instants[0]).0, instants[1..])
  }

  /** A fired tick at `instant` neither clamps its lag nor saturates the accumulator. */
  predicate ExactLag(rate: Rate, instant: int)
  {
    var lag := LastElapsed(rate, instant) - rate.duration;
    I32_MIN <= lag <= I32_MAX && I32_MIN <= rate.deltaRem + lag <= I32_MAX
  }

  /** Every tick of a run that fires does so without clamping or saturation. */
  predicate ExactRun(rate: Rate, instants: seq<int>)
    decreases |instants|
  {
    |instants| == 0 ||
    ((DoTick(rate, instants[0]).1.Some? ==> ExactLag(rate, instants[0])) &&
     ExactRun(DoTick(rate, instants[0]).0, instants[1..]))
  }

  /**
   * The lag accounting identity behind the compensation: as long as no lag is
   * clamped, the time covered by the ticks of a run equals the number of ticks
   * times the target duration plus the change of the accumulator. Since the
   * accumulator is bounded, the average interval converges on the target.
   */
  lemma {:induction false} LagAccounting(rate: Rate, instants: seq<int>)
    requires ExactRun(rate, instants)
    ensures var r := TickAll(rate, instants);
      && r.duration == rate.duration
      && r.ticks >= rate.ticks
      && r.lastTick - rate.lastTick == (r.ticks - rate.ticks) * rate.duration + (r.deltaRem - rate.deltaRem)
    decreases |instants|
  {
    if |instants| > 0 {
      var next := DoTick(rate, instants[0]).0;
      LagAccounting(next, instants[1..]);
      var r := TickAll(rate, instants);
      assert r == TickAll(next, instants[1..]);
      assert (r.ticks - rate.ticks) * rate.duration
          == (r.ticks - next.ticks) * rate.duration + (next.ticks - rate.ticks) * rate.duration;
    }
  }

  /** Calls exactly one target duration apart each fire, counting one tick per call and leaving no lag. */
  lemma {:induction false} RegularTicks(rate: Rate, n: nat)
    requires rate.deltaRem == 0
    ensures var r := TickAll(rate, seq(n, k => rate.lastTick + (k + 1) * rate.duration));
      && r.ticks == rate.ticks + n
      && r.deltaRem == 0
      && r.lastTick == rate.lastTick + n * rate.duration
    decreases n
  {
    var instants := seq(n, k => rate.lastTick + (k + 1) * rate.duration);
    if n > 0 {
      var next := DoTick(rate, instants[0]).0;
      assert next == rate.(ticks := rate.ticks + 1, lastTick := rate.lastTick + rate.duration);
      RegularTicks(next, n - 1);
      assert instants[1..] == seq(n - 1, k => next.lastTick + (k + 1) * next.duration) by {
        forall k | 0 <= k < n - 1
          ensures instants[1..][k] == next.lastTick + (k + 1) * next.duration
        {
          assert instants[k + 1] == rate.lastTick + (k + 2) * rate.duration;
        }
      }
      assert n * rate.duration == rate.duration + (n - 1) * rate.duration;
    }
  }
}
