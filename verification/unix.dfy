/**
 * `UnixTime` (signed 64-bit seconds) and `UnixTime32` (unsigned 32-bit
 * seconds) since 1970-01-01 00:00:00 UTC, and their conversion to
 * `(year, month, day, hour, minute, second)`.
 *
 * The two `to_ymdhms` loops are modelled as written, with debug-build
 * arithmetic panics as `Err(ArithmeticOverflow)` and `as` casts wrapping.
 * They are measured against `Civil.CivilFromSeconds`, the conversion they
 * are meant to compute; the `Display` impls (module `UnixFormat`) format
 * what the loops as written return.
 */
module UnixTimes {

  import opened Numeric
  import opened Wrappers
  import opened Civil
  import Months

  /** A debug-build arithmetic panic: `i64::abs` of `i64::MIN`, an `i32` year overflow, or an unsigned underflow. */
  datatype Panic = ArithmeticOverflow

  /** `UnixTime { seconds: i64 }`. */
  datatype UnixTime = UnixTime(seconds: i64)

  /** `UnixTime32 { seconds: u32 }`. */
  datatype UnixTime32 = UnixTime32(seconds: u32)

  /** `hours_per_day * minutes_per_hour * seconds_per_minute * days_per_year`. */
  const SECONDS_PER_YEAR: int := 365 * 86400

  // ---------------------------------------------------------------------
  // `UnixTime::to_ymdhms`, as written
  // ---------------------------------------------------------------------

  /**
   * The year loop: while at least 365 days are left, take the leap flag of
   * the current year, subtract that year's length and step the `i32` year
   * forward (or backward before the epoch). Returns what is left, the year
   * and the leap flag of the last year subtracted.
   */
  function YearLoop(left: int, year: int, leap: bool, forward: bool): (r: Result<(int, int, bool), Panic>)
    ensures r.Ok? ==> r.value.0 < SECONDS_PER_YEAR
    ensures left >= 0 && r.Ok? ==> -86400 <= r.value.0
    ensures I32_MIN <= year <= I32_MAX && r.Ok? ==> I32_MIN <= r.value.1 <= I32_MAX
    ensures left < SECONDS_PER_YEAR ==> r == Ok((left, year, leap))
    decreases left
  {
    if left < SECONDS_PER_YEAR then Ok((left, year, leap))
    else
      var thisLeap := Months.IsLeapYear(year);
      var next := if forward then year + 1 else year - 1;
      if next < I32_MIN || I32_MAX < next then Err(ArithmeticOverflow)
      else YearLoop(left - 86400 * YearDays(year), next, thisLeap, forward)
  }

  /** The month loop: while the current month fits in what is left, subtract it and go to `Month::next`. */
  function MonthLoop(left: int, month: Months.Month, leap: bool): (r: (int, Months.Month))
    ensures r.0 <= left
    ensures 0 <= left ==> 0 <= r.0
    ensures r.0 < 86400 * Months.Len(r.1, leap)
    ensures left < 86400 * Months.Len(month, leap) ==> r == (left, month)
    decreases left
  {
    var len := 86400 * Months.Len(month, leap);
    if left < len then (left, month) else MonthLoop(left - len, Months.Next(month), leap)
  }

  /**
   * Whole days, hours, minutes and seconds of `rest` by `i64` truncating
   * division and remainder, each cast `as u8`.
   */
  function Fields(rest: int): (r: (u8, u8, u8, u8))
    ensures 0 <= rest < 0x100 * 86400 ==>
      r == (rest / 86400, rest % 86400 / 3600,
            rest % 86400 % 3600 / 60, rest % 86400 % 3600 % 60)
  {
    var tod := TRem(rest, 86400);
    (WrapU8(TDiv(rest, 86400)), WrapU8(TDiv(tod, 3600)),
     WrapU8(TDiv(TRem(tod, 3600), 60)), WrapU8(TRem(TRem(tod, 3600), 60)))
  }

  /** Below 255 days the fields rebuild `rest`, each within its unit. */
  lemma FieldsRebuild(rest: int)
    ensures 0 <= rest < 0xFF * 86400 ==>
      var f := Fields(rest);
      && f.1 < 24 && f.2 < 60 && f.3 < 60
      && 86400 * f.0 + 3600 * f.1 + 60 * f.2 + f.3 == rest
  {
    if 0 <= rest < 0xFF * 86400 {
      var tod := rest % 86400;
      assert rest == 86400 * (rest / 86400) + tod;
      assert tod == 3600 * (tod / 3600) + tod % 3600;
      assert tod % 3600 == 60 * (tod % 3600 / 60) + tod % 3600 % 60;
    }
  }

  /** `Fields(rest)` is `(d, h, m, sec)`, component by component. */
  predicate SplitsInto(rest: int, d: int, h: int, m: int, sec: int)
  {
    var f := Fields(rest);
    f.0 == d && f.1 == h && f.2 == m && f.3 == sec
  }

  /** After the year loop: the month loop from January, then the tail. */
  function Finish(left: int, year: int, leap: bool, forward: bool): (r: Result<DateTime, Panic>)
    ensures r.Ok? ==> r.value.year == year && 1 <= r.value.month <= 12 && 1 <= r.value.day
    ensures forward && 0 <= left < 0xFF * 86400 ==> r.Ok?
  {
    var (rest, month) := MonthLoop(left, Months.January, leap);
    Tail(rest, month, year, leap, forward)
  }

  /**
   * `rest` seconds into `month`: day, hour, minute and second by truncating
   * division; before the epoch, each field is mirrored (`13 - month`,
   * `len - day + 1`, `23 - hour`, `59 - minute`, `60 - second`) in `u8`
   * arithmetic.
   */
  function Tail(rest: int, month: Months.Month, year: int, leap: bool, forward: bool): (r: Result<DateTime, Panic>)
    ensures r.Ok? ==> r.value.year == year && 1 <= r.value.month <= 12 && 1 <= r.value.day
    ensures forward && 0 <= rest < 0xFF * 86400 ==>
      && r.Ok?
      && r.value.month == Months.Number(month)
      && r.value.hour < 24 && r.value.minute < 60 && r.value.second < 60
      && 86400 * (r.value.day - 1) + 3600 * r.value.hour + 60 * r.value.minute + r.value.second == rest
    ensures !forward && r.Ok? ==>
      && r.value.month == 13 - Months.Number(month)
      && r.value.hour <= 23 && r.value.minute <= 59 && r.value.second <= 60
  {
    FieldsRebuild(rest);
    var (dayIndex, hour, minute, second) := Fields(rest);
    if dayIndex + 1 > 0xFF then Err(ArithmeticOverflow)
    else
      var day := dayIndex + 1;
      if forward then
        Ok(DateTime(year, Months.Number(month), day, hour, minute, second))
      else
        var len := Months.Len(Months.PreviousNth(Months.December, Months.Index(month)), leap);
        if len < day || 23 < hour || 59 < minute || 60 < second then Err(ArithmeticOverflow)
        else Ok(DateTime(year, 13 - Months.Number(month), len - day + 1, 23 - hour, 59 - minute, 60 - second))
  }

  /**
   * The year loop from `year` over `left`, the magnitude `seconds.abs()`,
   * started with the leap flag of `year`, then the tail.
   */
  function Run(left: nat, year: int, forward: bool): (r: Result<DateTime, Panic>)
    ensures I32_MIN <= year <= I32_MAX && r.Ok? ==> I32_MIN <= r.value.year <= I32_MAX
  {
    var looped := YearLoop(left, year, Months.IsLeapYear(year), forward);
    if looped.Err? then Err(looped.error)
    else Finish(looped.value.0, looped.value.1, looped.value.2, forward)
  }

  /** `UnixTime::to_ymdhms` as written: 1970 forward after the epoch, 1969 backward before it. */
  function ToYmdhms(t: UnixTime): (r: Result<DateTime, Panic>)
    ensures t.seconds == I64_MIN ==> r.Err?
    ensures r.Ok? ==> I32_MIN <= r.value.year <= I32_MAX
  {
    if t.seconds == I64_MIN then Err(ArithmeticOverflow)
    else
      var forward := t.seconds >= 0;
      Run(if forward then t.seconds else -t.seconds, if forward then 1970 else 1969, forward)
  }

  // ---------------------------------------------------------------------
  // `UnixTime32::to_ymdhms`, as written
  // ---------------------------------------------------------------------

  /**
   * The 32-bit year loop: it steps the year first and then takes the leap
   * flag of the new year, so it subtracts the lengths of 1971, 1972, ...
   * for the years 1970, 1971, ...; a subtraction below zero is a `u32`
   * underflow.
   */
  function YearLoop32(left: nat, year: int, leap: bool): (r: Result<(int, int, bool), Panic>)
    ensures r.Ok? ==> 0 <= r.value.0 < SECONDS_PER_YEAR
    ensures r.Ok? ==> year <= r.value.1
    ensures r.Ok? ==> r.value.2 == (if r.value.1 == year then leap else Months.IsLeapYear(r.value.1))
    ensures left < SECONDS_PER_YEAR ==> r == Ok((left, year, leap))
    decreases left
  {
    if left < SECONDS_PER_YEAR then Ok((left, year, leap))
    else
      var next := year + 1;
      var nextLeap := Months.IsLeapYear(next);
      var len := 86400 * YearDays(next);
      if left < len then Err(ArithmeticOverflow)
      else YearLoop32(left - len, next, nextLeap)
  }

  /** After the 32-bit year loop: the month loop, then unsigned division, then `as u16` for the year and `as u8` for the rest. */
  function Finish32(left: nat, year: int, leap: bool): (r: DateTime)
    ensures 0 <= r.year < 0x1_0000
  {
    var (rest, month) := MonthLoop(left, Months.January, leap);
    var day := rest / 86400 + 1;
    var tod := rest % 86400;
    DateTime(WrapU16(year), Months.Number(month), WrapU8(day),
             WrapU8(tod / 3600), WrapU8(tod % 3600 / 60), WrapU8(tod % 3600 % 60))
  }

  /** `UnixTime32::to_ymdhms` as written. */
  function ToYmdhms32(t: UnixTime32): (r: Result<DateTime, Panic>)
    ensures r.Ok? ==> 0 <= r.value.year < 0x1_0000
  {
    var looped := YearLoop32(t.seconds, 1970, Months.IsLeapYear(1970));
    if looped.Err? then Err(looped.error)
    else Ok(Finish32(looped.value.0, looped.value.1, looped.value.2))
  }

  // ---------------------------------------------------------------------
  // What the loops compute
  // ---------------------------------------------------------------------

  /** From month index `i`, the month loop stops in the month `k` whose days hold `left`. */
  lemma {:induction false} MonthLoopFinds(left: int, leap: bool, i: nat, k: nat)
    requires i <= k < 12
    requires 86400 * Months.DaysBefore(k, leap) <= left < 86400 * Months.DaysBefore(k + 1, leap)
    ensures MonthLoop(left - 86400 * Months.DaysBefore(i, leap), Months.ALL[i], leap)
         == (left - 86400 * Months.DaysBefore(k, leap), Months.ALL[k])
    decreases k - i
  {
    if i < k {
      DaysBeforeMonotone(i + 1, k, leap);
      MonthLoopAdvance(left, leap, i);
      MonthLoopFinds(left, leap, i + 1, k);
    } else {
      assert Months.DaysBefore(i + 1, leap) == Months.DaysBefore(i, leap) + Months.Len(Months.ALL[i], leap);
      MonthLoopStops(left - 86400 * Months.DaysBefore(i, leap), Months.ALL[i], leap);
    }
  }

  /** From January, the month loop stops in the month `k` whose days hold `left`, with the days before it taken off. */
  lemma MonthLoopFromJanuary(left: int, leap: bool, k: nat)
    requires k < 12
    requires 86400 * Months.DaysBefore(k, leap) <= left < 86400 * Months.DaysBefore(k + 1, leap)
    ensures MonthLoop(left, Months.January, leap) == (left - 86400 * Months.DaysBefore(k, leap), Months.ALL[k])
  {
    assert Months.DaysBefore(0, leap) == 0 && Months.ALL[0] == Months.January;
    MonthLoopFinds(left, leap, 0, k);
  }

  /** Past the end of month index `i`, the loop moves on to index `i + 1`. */
  lemma MonthLoopAdvance(left: int, leap: bool, i: nat)
    requires i < 11 && 86400 * Months.DaysBefore(i + 1, leap) <= left
    ensures MonthLoop(left - 86400 * Months.DaysBefore(i, leap), Months.ALL[i], leap)
         == MonthLoop(left - 86400 * Months.DaysBefore(i + 1, leap), Months.ALL[i + 1], leap)
  {
    var m := Months.ALL[i];
    var here := left - 86400 * Months.DaysBefore(i, leap);
    assert Months.DaysBefore(i + 1, leap) == Months.DaysBefore(i, leap) + Months.Len(m, leap);
    Months.NextInOrder(i);
    MonthLoopStep(here, m, leap);
    assert here - 86400 * Months.Len(m, leap) == left - 86400 * Months.DaysBefore(i + 1, leap);
  }

  /** A month that fits in what is left is subtracted and the loop goes on with the next one. */
  lemma MonthLoopStep(left: int, m: Months.Month, leap: bool)
    requires 86400 * Months.Len(m, leap) <= left
    ensures MonthLoop(left, m, leap) == MonthLoop(left - 86400 * Months.Len(m, leap), Months.Next(m), leap)
  {
  }

  /** A month that does not fit in what is left ends the loop. */
  lemma MonthLoopStops(left: int, m: Months.Month, leap: bool)
    requires left < 86400 * Months.Len(m, leap)
    ensures MonthLoop(left, m, leap) == (left, m)
  {
  }

  /**
   * After the epoch, the year loop stops in the true year `Y` unless the
   * time is on the 366th day of a leap year; the leap flag it hands on is
   * that of the year before `Y`.
   */
  lemma {:induction false} YearLoopForward(s: int, y: int, Y: int)
    requires 1970 <= y <= Y < I32_MAX
    requires 86400 * DaysBeforeYear(Y) <= s < 86400 * DaysBeforeYear(Y + 1)
    ensures YearLoop(s - 86400 * DaysBeforeYear(y), y, Months.IsLeapYear(y - 1), true)
         == if s - 86400 * DaysBeforeYear(Y) < SECONDS_PER_YEAR
            then Ok((s - 86400 * DaysBeforeYear(Y), Y, Months.IsLeapYear(Y - 1)))
            else Ok((s - 86400 * DaysBeforeYear(Y + 1), Y + 1, Months.IsLeapYear(Y)))
    decreases Y - y
  {
    DaysBeforeYearStep(y);
    if y < Y {
      DaysBeforeYearMonotone(y + 1, Y);
      YearLoopForward(s, y + 1, Y);
    }
  }

  /**
   * Before the epoch, at magnitude `x` of the seconds: the mirrored year
   * loop, at year `y` having subtracted the years 1969 down to `y + 1`,
   * stops in year `Y` when less than 365 days of `Y` remain to go back.
   */
  lemma {:induction false} YearLoopBackward(x: int, y: int, Y: int)
    requires I32_MIN < Y <= y <= 1969
    requires 0 < x + 86400 * DaysBeforeYear(Y + 1) < SECONDS_PER_YEAR
    ensures YearLoop(x + 86400 * DaysBeforeYear(y + 1), y, Months.IsLeapYear(y + 1), false)
         == Ok((x + 86400 * DaysBeforeYear(Y + 1), Y, Months.IsLeapYear(Y + 1)))
    decreases y - Y
  {
    if Y < y {
      DaysBeforeYearStep(y);
      DaysBeforeYearMonotone(Y + 1, y);
      YearLoopBackward(x, y - 1, Y);
    }
  }

  /** The mirrored loop before the epoch, for the days of December 1969 only. */
  lemma YearLoopDecember1969(left: int)
    requires 0 < left < 31 * 86400
    ensures YearLoop(left, 1969, Months.IsLeapYear(1969), false) == Ok((left, 1969, false))
    ensures MonthLoop(left, Months.January, false) == (left, Months.January)
  {
  }

  /**
   * The 32-bit year loop, for a time on day `doy` of year `Y`: at year `y`
   * it has subtracted the lengths of 1971 through `y + 1`. It ends in year
   * `Y` with the time left in that year, except that a leap `Y` loses its
   * first day, and underflows on 1 January of a leap year.
   */
  lemma {:induction false} YearLoop32Run(s: int, y: int, Y: int, doy: int, tod: int)
    requires 1970 <= y <= Y
    requires 0 <= doy < YearDays(Y) && 0 <= tod < 86400
    requires s == 86400 * (DaysBeforeYear(Y) + doy) + tod
    requires y == Y ==> !Months.IsLeapYear(Y) || doy >= 1
    ensures 0 <= s - 86400 * (DaysBeforeYear(y + 1) - 365)
    ensures YearLoop32(s - 86400 * (DaysBeforeYear(y + 1) - 365), y, Months.IsLeapYear(y))
         == if !Months.IsLeapYear(Y) then Ok((86400 * doy + tod, Y, false))
            else if doy == 0 then Err(ArithmeticOverflow)
            else Ok((86400 * (doy - 1) + tod, Y, true))
    decreases Y - y
  {
    DaysBeforeYearStep(y + 1);
    DaysBeforeYearStep(Y);
    if y < Y {
      DaysBeforeYearMonotone(y + 1, Y);
      if y + 1 < Y || !Months.IsLeapYear(Y) || doy >= 1 {
        YearLoop32Run(s, y + 1, Y, doy, tod);
      }
    }
  }

  /** Whole days, hours, minutes and seconds come back out of their sum under Euclidean division. */
  lemma DaySplit(rest: int, d: int, h: int, m: int, sec: int)
    requires 0 <= d && 0 <= h < 24 && 0 <= m < 60 && 0 <= sec < 60
    requires rest == 86400 * d + 3600 * h + 60 * m + sec
    ensures rest / 86400 == d && rest % 86400 / 3600 == h
    ensures rest % 86400 % 3600 / 60 == m && rest % 86400 % 3600 % 60 == sec
  {
    var ms := 60 * m + sec;
    var tod := 3600 * h + ms;
    DivModUnique(rest, d, tod, 86400);
    DivModUnique(tod, h, ms, 3600);
    DivModUnique(ms, m, sec, 60);
  }

  /** Within 255 days, the field split takes apart whole days, hours, minutes and seconds. */
  lemma FieldsSplit(rest: int, d: int, h: int, m: int, sec: int)
    requires 0 <= d < 0x100 && 0 <= h < 24 && 0 <= m < 60 && 0 <= sec < 60
    requires rest == 86400 * d + 3600 * h + 60 * m + sec
    ensures SplitsInto(rest, d, h, m, sec)
    ensures Fields(rest) == (d, h, m, sec)
  {
    DaySplit(rest, d, h, m, sec);
  }

  /** The tail runs on what the month loop leaves. */
  lemma FinishTail(left: int, year: int, leap: bool, forward: bool, rest: int, month: Months.Month)
    ensures MonthLoop(left, Months.January, leap) == (rest, month) ==>
      Finish(left, year, leap, forward) == Tail(rest, month, year, leap, forward)
  {
  }

  /** After the epoch the tail numbers the month and the day from one. */
  lemma TailForward(rest: int, month: Months.Month, year: int, leap: bool, d: int, h: int, m: int, sec: int)
    ensures SplitsInto(rest, d, h, m, sec) && d < 0xFF ==>
      Tail(rest, month, year, leap, true) == Ok(DateTime(year, Months.Number(month), d + 1, h, m, sec))
  {
  }

  /** Before the epoch it mirrors every field. */
  lemma TailMirrored(rest: int, month: Months.Month, year: int, leap: bool, d: int, h: int, m: int, sec: int)
    ensures var len := Months.Len(Months.PreviousNth(Months.December, Months.Index(month)), leap);
      SplitsInto(rest, d, h, m, sec) && 0 <= d < len && h <= 23 && m <= 59 && sec <= 60 ==>
      Tail(rest, month, year, leap, false) ==
        Ok(DateTime(year, 13 - Months.Number(month), len - d, 23 - h, 59 - m, 60 - sec))
  {
  }

  /** The forward tail, for a time on day `d + 1` of month `k + 1` as the month loop counts with `leap`. */
  lemma FinishOnDay(left: int, year: int, leap: bool, k: nat, d: int, h: int, m: int, sec: int)
    requires k < 12 && 0 <= d < Months.Len(Months.ALL[k], leap)
    requires 0 <= h < 24 && 0 <= m < 60 && 0 <= sec < 60
    requires left == 86400 * (Months.DaysBefore(k, leap) + d) + 3600 * h + 60 * m + sec
    ensures Finish(left, year, leap, true) == Ok(DateTime(year, k + 1, d + 1, h, m, sec))
  {
    var rest := left - 86400 * Months.DaysBefore(k, leap);
    assert MonthLoop(left, Months.January, leap) == (rest, Months.ALL[k]) by {
      assert Months.DaysBefore(k + 1, leap) == Months.DaysBefore(k, leap) + Months.Len(Months.ALL[k], leap);
      MonthLoopFromJanuary(left, leap, k);
    }
    assert SplitsInto(rest, d, h, m, sec) && d < 0xFF by {
      FieldsSplit(rest, d, h, m, sec);
    }
    assert Months.Number(Months.ALL[k]) == k + 1 by {
      Months.NumberOfAll(k);
    }
    FinishTail(left, year, leap, true, rest, Months.ALL[k]);
    TailForward(rest, Months.ALL[k], year, leap, d, h, m, sec);
  }

  /** The 64-bit tail after the epoch returns the date when the month loop finds it. */
  lemma FinishForward(c: DateTime, leap: bool)
    requires Valid(c)
    requires c.day <= Months.Len(Months.ALL[c.month - 1], leap)
    requires Months.DaysBefore(c.month - 1, leap) == Months.DaysBefore(c.month - 1, Months.IsLeapYear(c.year))
    ensures Finish(SecondsFromCivil(c) - 86400 * DaysBeforeYear(c.year), c.year, leap, true) == Ok(c)
  {
    var left := SecondsFromCivil(c) - 86400 * DaysBeforeYear(c.year);
    SecondsIntoYear(c, leap);
    FinishOnDay(left, c.year, leap, c.month - 1, c.day - 1, c.hour, c.minute, c.second);
  }

  /** What is left of a date's seconds after the whole years before it, counted with the leap flag `leap`. */
  lemma SecondsIntoYear(c: DateTime, leap: bool)
    requires 1 <= c.month <= 12
    requires Months.DaysBefore(c.month - 1, leap) == Months.DaysBefore(c.month - 1, Months.IsLeapYear(c.year))
    ensures SecondsFromCivil(c) - 86400 * DaysBeforeYear(c.year)
         == 86400 * (Months.DaysBefore(c.month - 1, leap) + c.day - 1) + 3600 * c.hour + 60 * c.minute + c.second
  {
  }

  /** The 32-bit tail, for a time on day `d + 1` of month `k + 1`. */
  lemma Finish32OnDay(left: int, year: int, leap: bool, k: nat, d: int, h: int, m: int, sec: int)
    requires 0 <= year < 0x1_0000
    requires k < 12 && 0 <= d < Months.Len(Months.ALL[k], leap)
    requires 0 <= h < 24 && 0 <= m < 60 && 0 <= sec < 60
    requires left == 86400 * (Months.DaysBefore(k, leap) + d) + 3600 * h + 60 * m + sec
    ensures Finish32(left, year, leap) == DateTime(year, k + 1, d + 1, h, m, sec)
  {
    assert Months.DaysBefore(k + 1, leap) == Months.DaysBefore(k, leap) + Months.Len(Months.ALL[k], leap);
    MonthLoopFromJanuary(left, leap, k);
    DaySplit(left - 86400 * Months.DaysBefore(k, leap), d, h, m, sec);
    Months.AllInOrder();
  }

  /** The 32-bit tail returns the date when it is handed the right leap flag. */
  lemma Finish32OnDate(c: DateTime)
    requires Valid(c) && 0 <= c.year < 0x1_0000
    ensures 0 <= SecondsFromCivil(c) - 86400 * DaysBeforeYear(c.year)
    ensures Finish32(SecondsFromCivil(c) - 86400 * DaysBeforeYear(c.year), c.year, Months.IsLeapYear(c.year)) == c
  {
    var leap := Months.IsLeapYear(c.year);
    var left := SecondsFromCivil(c) - 86400 * DaysBeforeYear(c.year);
    assert left == 86400 * (Months.DaysBefore(c.month - 1, leap) + c.day - 1) + 3600 * c.hour + 60 * c.minute + c.second;
    Finish32OnDay(left, c.year, leap, c.month - 1, c.day - 1, c.hour, c.minute, c.second);
  }

  /** `UnixTime::to_ymdhms` after the epoch is the run from 1970 forward. */
  lemma ToYmdhmsAfter(s: int)
    ensures 0 <= s <= I64_MAX ==> ToYmdhms(UnixTime(s)) == Run(s, 1970, true)
  {
  }

  /** `UnixTime::to_ymdhms` before the epoch, except at `i64::MIN`, is the run from 1969 backward. */
  lemma ToYmdhmsBefore(s: int)
    ensures I64_MIN < s < 0 ==> ToYmdhms(UnixTime(s)) == Run(-s, 1969, false)
  {
  }

  /** A run whose year loop ends without overflow is the tail on what the loop hands on. */
  lemma RunSplits(x: nat, start: int, forward: bool, left: int, year: int, leap: bool)
    ensures YearLoop(x, start, Months.IsLeapYear(start), forward) == Ok((left, year, leap)) ==>
      Run(x, start, forward) == Finish(left, year, leap, forward)
  {
  }

  /** `UnixTime::to_ymdhms` after the epoch, for a given outcome of the year loop. */
  lemma ToYmdhmsForwardSplits(s: int, left: int, year: int, leap: bool)
    requires 0 <= s <= I64_MAX
    requires YearLoop(s, 1970, false, true) == Ok((left, year, leap))
    ensures ToYmdhms(UnixTime(s)) == Finish(left, year, leap, true)
  {
    assert !Months.IsLeapYear(1970);
    ToYmdhmsAfter(s);
    RunSplits(s, 1970, true, left, year, leap);
  }

  /** `UnixTime::to_ymdhms` before the epoch, for a given outcome of the mirrored year loop. */
  lemma ToYmdhmsBackwardSplits(s: int, left: int, year: int, leap: bool)
    requires I64_MIN < s < 0
    requires YearLoop(-s, 1969, false, false) == Ok((left, year, leap))
    ensures ToYmdhms(UnixTime(s)) == Finish(left, year, leap, false)
  {
    assert !Months.IsLeapYear(1969);
    ToYmdhmsBefore(s);
    RunSplits(-s, 1969, false, left, year, leap);
  }

  /** `UnixTime32::to_ymdhms` is the 32-bit year loop followed by the tail. */
  lemma ToYmdhms32Splits(t: UnixTime32)
    ensures YearLoop32(t.seconds, 1970, false).Err? ==> ToYmdhms32(t).Err?
    ensures YearLoop32(t.seconds, 1970, false).Ok? ==>
      var (left, year, leap) := YearLoop32(t.seconds, 1970, false).value;
      ToYmdhms32(t) == Ok(Finish32(left, year, leap))
  {
    assert !Months.IsLeapYear(1970);
  }

  /** The year loop from the epoch, for a time in year `Y`. */
  lemma YearLoopFromEpoch(s: int, Y: int)
    requires 1970 <= Y < I32_MAX
    requires 86400 * DaysBeforeYear(Y) <= s < 86400 * DaysBeforeYear(Y + 1)
    ensures YearLoop(s, 1970, false, true)
         == if s - 86400 * DaysBeforeYear(Y) < SECONDS_PER_YEAR
            then Ok((s - 86400 * DaysBeforeYear(Y), Y, Months.IsLeapYear(Y - 1)))
            else Ok((s - 86400 * DaysBeforeYear(Y + 1), Y + 1, Months.IsLeapYear(Y)))
  {
    assert DaysBeforeYear(1970) == 0;
    assert !Months.IsLeapYear(1969);
    YearLoopForward(s, 1970, Y);
  }

  /** The 32-bit year loop from the epoch, for a time on day `doy` of year `Y`. */
  lemma YearLoop32FromEpoch(s: nat, Y: int, doy: int, tod: int)
    requires 1970 <= Y
    requires 0 <= doy < YearDays(Y) && 0 <= tod < 86400
    requires s == 86400 * (DaysBeforeYear(Y) + doy) + tod
    ensures YearLoop32(s, 1970, false)
         == if !Months.IsLeapYear(Y) then Ok((86400 * doy + tod, Y, false))
            else if doy == 0 then Err(ArithmeticOverflow)
            else Ok((86400 * (doy - 1) + tod, Y, true))
  {
    assert DaysBeforeYear(1971) == 365;
    assert !Months.IsLeapYear(1970);
    YearLoop32Run(s, 1970, Y, doy, tod);
  }

  /** A valid date and time `c` of second `s`: `s` is so many whole days and seconds into `c`'s year. */
  lemma CivilParts(s: int, c: DateTime)
    requires Valid(c) && SecondsFromCivil(c) == s
    ensures 0 <= DayOfYear(c) < YearDays(c.year)
    ensures 0 <= c.hour * 3600 + c.minute * 60 + c.second < 86400
    ensures s == 86400 * (DaysBeforeYear(c.year) + DayOfYear(c)) + c.hour * 3600 + c.minute * 60 + c.second
    ensures 86400 * DaysBeforeYear(c.year) <= s < 86400 * DaysBeforeYear(c.year + 1)
  {
    DayOfYearBound(c);
    DaysBeforeYearStep(c.year);
  }

  /** Every second from the epoch on falls in a year from 1970 on. */
  lemma YearAfterEpoch(s: int, c: DateTime)
    requires Valid(c) && SecondsFromCivil(c) == s
    requires 0 <= s
    ensures 1970 <= c.year
  {
    CivilParts(s, c);
    if c.year < 1970 {
      DaysBeforeYearMonotone(c.year + 1, 1970);
    }
  }

  /** A 32-bit time falls in a year before 2107. */
  lemma YearBefore2107(s: int, c: DateTime)
    requires Valid(c) && SecondsFromCivil(c) == s
    requires 0 <= s <= U32_MAX
    ensures c.year < 2107
  {
    CivilParts(s, c);
    YearAfterEpoch(s, c);
    if c.year >= 2107 {
      DaysBeforeYearMonotone(2107, c.year);
      DaysBeforeYearClosed(2107);
    }
  }

  /**
   * `UnixTime::to_ymdhms` after the epoch: it returns the true date and
   * time on the first 365 days of every year, except from 29 February on
   * when this year and the year before differ in being leap years (the
   * month loop uses the previous year's flag).
   */
  lemma ToYmdhmsAfterEpoch(s: int)
    requires 0 <= s <= I64_MAX
    requires CivilFromSeconds(s).year < I32_MAX
    ensures var c := CivilFromSeconds(s);
      DayOfYear(c) < 365
      && (Months.IsLeapYear(c.year - 1) == Months.IsLeapYear(c.year) || DayOfYear(c) < 59)
      ==> ToYmdhms(UnixTime(s)) == Ok(c)
  {
    AfterEpochOn(s, CivilFromSeconds(s));
  }

  /** `UnixTime::to_ymdhms` after the epoch is wrong on every 31 December of a leap year. */
  lemma ToYmdhmsLastDayOfLeapYear(s: int)
    requires 0 <= s <= I64_MAX
    requires CivilFromSeconds(s).year < I32_MAX
    ensures DayOfYear(CivilFromSeconds(s)) == 365 ==> ToYmdhms(UnixTime(s)) != Ok(CivilFromSeconds(s))
  {
    AfterEpochOn(s, CivilFromSeconds(s));
  }

  /**
   * `UnixTime::to_ymdhms` before the epoch, except at `i64::MIN`, for the
   * valid date `c` of second `s`: the mirrored year loop stops in `c`'s
   * year with the seconds `left` between the time and the end of that
   * year, carrying the leap flag of the year after, unless the time is on
   * the first day of a leap year (then 365 days or more are left).
   */
  lemma ToYmdhmsBeforeEpoch(s: int, c: DateTime)
    requires I64_MIN < s < 0
    requires Valid(c) && SecondsFromCivil(c) == s && c.year > I32_MIN
    ensures var left := 86400 * DaysBeforeYear(c.year + 1) - s;
      c.year <= 1969 && 0 < left
      && (left < SECONDS_PER_YEAR ==> ToYmdhms(UnixTime(s)) == Finish(left, c.year, Months.IsLeapYear(c.year + 1), false))
  {
    var Y := c.year;
    CivilParts(s, c);
    assert DaysBeforeYear(1970) == 0;
    if Y >= 1970 {
      DaysBeforeYearMonotone(1970, Y);
    }
    var left := 86400 * DaysBeforeYear(Y + 1) - s;
    if left < SECONDS_PER_YEAR {
      YearLoopBackward(-s, 1969, Y);
      ToYmdhmsBackwardSplits(s, left, Y, Months.IsLeapYear(Y + 1));
    }
  }

  /** `ToYmdhmsAfterEpoch`, for the date `c` of second `s`. */
  lemma AfterEpochOn(s: int, c: DateTime)
    requires 0 <= s <= I64_MAX
    requires Valid(c) && SecondsFromCivil(c) == s && c.year < I32_MAX
    ensures DayOfYear(c) < 365
      && (Months.IsLeapYear(c.year - 1) == Months.IsLeapYear(c.year) || DayOfYear(c) < 59)
      ==> ToYmdhms(UnixTime(s)) == Ok(c)
    ensures DayOfYear(c) == 365 ==> ToYmdhms(UnixTime(s)) != Ok(c)
  {
    YearAfterEpoch(s, c);
    if DayOfYear(c) < 365 {
      if Months.IsLeapYear(c.year - 1) == Months.IsLeapYear(c.year) || DayOfYear(c) < 59 {
        AfterEpochOnDate(s, c);
      }
    } else if DayOfYear(c) == 365 {
      AfterEpochLastDay(s, c);
    }
  }

  /** After the epoch, on the first 365 days of a year and with a leap flag that does not matter, the loops find the date. */
  lemma AfterEpochOnDate(s: int, c: DateTime)
    requires 0 <= s <= I64_MAX
    requires Valid(c) && SecondsFromCivil(c) == s && 1970 <= c.year < I32_MAX
    requires DayOfYear(c) < 365
    requires Months.IsLeapYear(c.year - 1) == Months.IsLeapYear(c.year) || DayOfYear(c) < 59
    ensures ToYmdhms(UnixTime(s)) == Ok(c)
  {
    var Y := c.year;
    var left := s - 86400 * DaysBeforeYear(Y);
    DayOfYearBound(c);
    DaysBeforeYearStep(Y);
    assert 0 <= left < SECONDS_PER_YEAR;
    YearLoopFromEpoch(s, Y);
    ToYmdhmsForwardSplits(s, left, Y, Months.IsLeapYear(Y - 1));
    FinishNear(c, Months.IsLeapYear(Y - 1));
  }

  /** After the epoch, on the 366th day of a leap year, the year loop runs one year too far. */
  lemma AfterEpochLastDay(s: int, c: DateTime)
    requires 0 <= s <= I64_MAX
    requires Valid(c) && SecondsFromCivil(c) == s && 1970 <= c.year < I32_MAX
    requires DayOfYear(c) == 365
    ensures ToYmdhms(UnixTime(s)) != Ok(c)
  {
    var Y := c.year;
    DayOfYearBound(c);
    DaysBeforeYearStep(Y);
    YearLoopFromEpoch(s, Y);
    var left := s - 86400 * DaysBeforeYear(Y + 1);
    ToYmdhmsForwardSplits(s, left, Y + 1, Months.IsLeapYear(Y));
  }

  /** With a leap flag that is right, or a date before 29 February, the tail after the epoch returns the date. */
  lemma FinishNear(c: DateTime, leap: bool)
    requires Valid(c)
    requires leap == Months.IsLeapYear(c.year) || DayOfYear(c) < 59
    ensures Finish(SecondsFromCivil(c) - 86400 * DaysBeforeYear(c.year), c.year, leap, true) == Ok(c)
  {
    var L := Months.IsLeapYear(c.year);
    if leap != L {
      assert c.month <= 2 by {
        if c.month > 2 {
          DaysBeforeMonotone(2, c.month - 1, L);
        }
      }
    }
    FinishForward(c, leap);
  }

  /**
   * `UnixTime32::to_ymdhms`: right in every common year; in a leap year it
   * underflows on 1 January and otherwise returns the date and time one day
   * earlier than the true one.
   */
  lemma ToYmdhms32Agrees(t: UnixTime32)
    ensures !Months.IsLeapYear(CivilFromSeconds(t.seconds).year) ==> ToYmdhms32(t) == Ok(CivilFromSeconds(t.seconds))
    ensures Months.IsLeapYear(CivilFromSeconds(t.seconds).year) && DayOfYear(CivilFromSeconds(t.seconds)) == 0
      ==> ToYmdhms32(t).Err?
    ensures Months.IsLeapYear(CivilFromSeconds(t.seconds).year) && DayOfYear(CivilFromSeconds(t.seconds)) > 0
      ==> ToYmdhms32(t) == Ok(CivilFromSeconds(t.seconds - 86400))
  {
    Agrees32On(t, CivilFromSeconds(t.seconds), CivilFromSeconds(t.seconds - 86400));
  }

  /** `ToYmdhms32Agrees`, for the dates `c` of the second and `c2` of the second one day earlier. */
  lemma Agrees32On(t: UnixTime32, c: DateTime, c2: DateTime)
    requires Valid(c) && SecondsFromCivil(c) == t.seconds
    requires Valid(c2) && SecondsFromCivil(c2) == t.seconds - 86400
    ensures !Months.IsLeapYear(c.year) ==> ToYmdhms32(t) == Ok(c)
    ensures Months.IsLeapYear(c.year) && DayOfYear(c) == 0 ==> ToYmdhms32(t).Err?
    ensures Months.IsLeapYear(c.year) && DayOfYear(c) > 0 ==> ToYmdhms32(t) == Ok(c2)
  {
    var s := t.seconds;
    var Y := c.year;
    var doy := DayOfYear(c);
    var tod := c.hour * 3600 + c.minute * 60 + c.second;
    CivilParts(s, c);
    YearAfterEpoch(s, c);
    YearBefore2107(s, c);
    YearLoop32FromEpoch(s, Y, doy, tod);
    ToYmdhms32Splits(t);
    if !Months.IsLeapYear(Y) {
      Finish32OnDate(c);
    } else if doy > 0 {
      DateYear(c2, Y);
      Finish32OnDate(c2);
    }
  }

  /**
   * `UnixTime::to_ymdhms` in December 1969: it always returns a time that
   * counts back to the right second, but writes a whole minute as second 60
   * of the minute before.
   */
  lemma ToYmdhmsDecember1969(s: int)
    requires -31 * 86400 < s < 0
    ensures ToYmdhms(UnixTime(s)).Ok?
    ensures ToYmdhms(UnixTime(s)).value.month == 12
    ensures SecondsFromCivil(ToYmdhms(UnixTime(s)).value) == s
    ensures Valid(ToYmdhms(UnixTime(s)).value) <==> s % 60 != 0
    ensures s % 60 != 0 ==> ToYmdhms(UnixTime(s)) == Ok(CivilFromSeconds(s))
    ensures s % 60 == 0 ==> ToYmdhms(UnixTime(s)).value.second == 60
  {
    var left := -s;
    var d, h, m, sec := left / 86400, left % 86400 / 3600,
                        left % 86400 % 3600 / 60, left % 86400 % 3600 % 60;
    var r := DateTime(1969, 12, 31 - d, 23 - h, 59 - m, 60 - sec);
    YearLoopDecember1969(left);
    ToYmdhmsBackwardSplits(s, left, 1969, false);
    FinishDecember(left, d, h, m, sec);
    DecemberSeconds(left, d, h, m, sec);
    SecondOfMinute(left);
    if s % 60 != 0 {
      CivilOf(s, r);
    }
  }

  /** The mirrored tail in December 1969: each field is counted back from the end of the year. */
  lemma FinishDecember(left: int, d: int, h: int, m: int, sec: int)
    requires 0 < left < 31 * 86400
    requires d == left / 86400 && h == left % 86400 / 3600
    requires m == left % 86400 % 3600 / 60 && sec == left % 86400 % 3600 % 60
    ensures Finish(left, 1969, false, false) == Ok(DateTime(1969, 12, 31 - d, 23 - h, 59 - m, 60 - sec))
  {
    assert MonthLoop(left, Months.January, false) == (left, Months.January) by {
      MonthLoopStops(left, Months.January, false);
    }
    assert SplitsInto(left, d, h, m, sec) by {
      assert Fields(left) == (d, h, m, sec);
    }
    assert Months.Len(Months.PreviousNth(Months.December, Months.Index(Months.January)), false) == 31
        && Months.Number(Months.January) == 1 by {
      assert Months.PreviousNth(Months.December, 0) == Months.December;
    }
    FinishTail(left, 1969, false, false, left, Months.January);
    TailMirrored(left, Months.January, 1969, false, d, h, m, sec);
  }

  /** The mirrored December 1969 fields count back exactly `left` seconds from 1970. */
  lemma DecemberSeconds(left: int, d: int, h: int, m: int, sec: int)
    requires 0 < left < 31 * 86400
    requires d == left / 86400 && h == left % 86400 / 3600
    requires m == left % 86400 % 3600 / 60 && sec == left % 86400 % 3600 % 60
    ensures SecondsFromCivil(DateTime(1969, 12, 31 - d, 23 - h, 59 - m, 60 - sec)) == -left
  {
    assert left == 86400 * d + 3600 * h + 60 * m + sec;
    assert Months.DaysBefore(3, false) == 90;
    assert Months.DaysBefore(6, false) == 181;
    assert Months.DaysBefore(9, false) == 273;
    assert Months.DaysBefore(11, false) == 334;
    assert DaysBeforeYear(1969) == -365;
  }

  /** The second within the minute of `-x` is zero exactly when that of `x` is. */
  lemma SecondOfMinute(x: int)
    ensures x % 86400 % 3600 % 60 == x % 60
    ensures (-x) % 60 == 0 <==> x % 60 == 0
  {
    var q := x / 86400;
    assert x % 86400 == x + (-1440 * q) * 60;
    ModAddMultiple(x, -1440 * q, 60);
    var p := x % 86400 / 3600;
    assert x % 86400 % 3600 == x % 86400 + (-60 * p) * 60;
    ModAddMultiple(x % 86400, -60 * p, 60);
    var k := x / 60;
    assert -x == -k * 60 - x % 60;
    if x % 60 == 0 {
      ModUnique(-x, -k, 0, 60);
    } else {
      ModUnique(-x, -k - 1, 60 - x % 60, 60);
    }
  }

  // ---------------------------------------------------------------------
  // Where the loops go wrong: concrete inputs
  // ---------------------------------------------------------------------

  /** The day counts of the first few years after the epoch. */
  lemma EarlyYears()
    ensures DaysBeforeYear(1971) == 365 && DaysBeforeYear(1972) == 730 && DaysBeforeYear(1973) == 1096
  {
    DaysBeforeYearStep(1970);
    DaysBeforeYearStep(1971);
    DaysBeforeYearStep(1972);
  }

  /** Seconds of a date in December 1969, counted back from the epoch. */
  lemma December1969Seconds(c: DateTime)
    requires c.year == 1969 && c.month == 12
    ensures SecondsFromCivil(c) == 86400 * (c.day - 32) + c.hour * 3600 + c.minute * 60 + c.second
  {
    assert Months.DaysBefore(3, false) == 90;
    assert Months.DaysBefore(6, false) == 181;
    assert Months.DaysBefore(9, false) == 273;
    assert Months.DaysBefore(11, false) == 334;
    assert DaysBeforeYear(1969) == -365;
  }

  /** Seconds of a date in December 1972. */
  lemma December1972Seconds(c: DateTime)
    requires c.year == 1972 && c.month == 12
    ensures SecondsFromCivil(c) == 86400 * (1064 + c.day) + c.hour * 3600 + c.minute * 60 + c.second
  {
    EarlyYears();
    assert Months.DaysBefore(3, true) == 91;
    assert Months.DaysBefore(6, true) == 182;
    assert Months.DaysBefore(9, true) == 274;
    assert Months.DaysBefore(11, true) == 335;
  }

  /**
   * 1972-12-31 is the 366th day of a leap year: the 64-bit loop steps into
   * 1973 with less than a day to go back, so the whole hour `24 - h` of that
   * day comes out as hour `256 - h` of 1 January 1973 (midday as hour 244) ...
   */
  lemma LastDayOfLeapYearExample(h: int)
    requires 0 < h < 24
    ensures SecondsFromCivil(DateTime(1972, 12, 31, 24 - h, 0, 0)) == 94694400 - 3600 * h
    ensures ToYmdhms(UnixTime(94694400 - 3600 * h)) == Ok(DateTime(1973, 1, 1, 0x100 - h, 0, 0))
  {
    December1972Seconds(DateTime(1972, 12, 31, 24 - h, 0, 0));
    LastDayLoop(94694400 - 3600 * h, -3600 * h);
    FinishBackToNoon(-3600 * h, 1973, true, h);
  }

  lemma FinishBackToNoon(left: int, year: int, leap: bool, h: int)
    requires 0 < h < 24 && left == -3600 * h
    ensures Finish(left, year, leap, true) == Ok(DateTime(year, 1, 1, 0x100 - h, 0, 0))
  {
    assert SplitsInto(left, 0, 0x100 - h, 0, 0) by {
      FieldsWholeHoursBack(left, h);
    }
    FinishInJanuary(left, year, leap, 0, 0x100 - h, 0, 0);
  }

  /** While the month loop stays in January, the forward tail is the field split. */
  lemma FinishInJanuary(left: int, year: int, leap: bool, d: int, h: int, m: int, sec: int)
    ensures left < 86400 * 31 && SplitsInto(left, d, h, m, sec) && d < 0xFF ==>
      Finish(left, year, leap, true) == Ok(DateTime(year, 1, d + 1, h, m, sec))
  {
    if left < 86400 * 31 && SplitsInto(left, d, h, m, sec) && d < 0xFF {
      assert MonthLoop(left, Months.January, leap) == (left, Months.January) by {
        MonthLoopStops(left, Months.January, leap);
      }
      assert Months.Number(Months.January) == 1;
      FinishTail(left, year, leap, true, left, Months.January);
      TailForward(left, Months.January, year, leap, d, h, m, sec);
    }
  }

  /** A negative whole number `h` of hours (less than a day) splits into day 0 and hour `-h`, wrapped to `u8`. */
  lemma FieldsWholeHoursBack(rest: int, h: int)
    requires 0 < h < 24 && rest == -3600 * h
    ensures SplitsInto(rest, 0, 0x100 - h, 0, 0)
  {
    DivModUnique(-rest, 0, -rest, 86400);
    DivModUnique(-rest, h, 0, 3600);
    var tod := TRem(rest, 86400);
    assert TDiv(rest, 86400) == 0;
    assert tod == rest;
    assert TDiv(tod, 3600) == -h;
    var r := TRem(tod, 3600);
    assert r == 0;
    assert TDiv(r, 60) == 0 && TRem(r, 60) == 0;
    assert WrapU8(-h) == 0x100 - h;
  }

  /**
   * ... and midnight leaves minus one day: `(-86400 / 86400) as u8` wraps to
   * 255, and the `+ 1` then overflows the `u8` day. The seconds are a
   * parameter fixed by `requires`, not a literal, so that the verifier does
   * not unfold the loops on the constant.
   */
  lemma LastDayOfLeapYearOverflow(s: int)
    requires s == 94608000
    ensures SecondsFromCivil(DateTime(1972, 12, 31, 0, 0, 0)) == s
    ensures ToYmdhms(UnixTime(s)).Err?
  {
    December1972Seconds(DateTime(1972, 12, 31, 0, 0, 0));
    LastDayLoop(s, -86400);
    FinishBackToMidnight(s - 94694400);
  }

  lemma FinishBackToMidnight(left: int)
    requires left == -86400
    ensures Finish(left, 1973, true, true).Err?
  {
    assert TDiv(left, 86400) == -1;
    assert Fields(left).0 == 255;
    assert MonthLoop(left, Months.January, true) == (left, Months.January);
  }

  /** On 31 December 1972 the 64-bit year loop steps into 1973 with `left` seconds to go back. */
  lemma LastDayLoop(s: int, left: int)
    requires 94608000 <= s < 94694400 && left == s - 94694400
    ensures ToYmdhms(UnixTime(s)) == Finish(left, 1973, true, true)
  {
    EarlyYears();
    YearLoopFromEpoch(s, 1972);
    ToYmdhmsForwardSplits(s, left, 1973, true);
  }

  /**
   * The 64-bit month loop uses the year before's leap flag: a time on
   * 1972-02-29 comes out on 1 March, a day late ...
   */
  lemma MissedLeapDayExample(s: int, h: int, m: int, sec: int)
    requires 0 <= h < 24 && 0 <= m < 60 && 0 <= sec < 60
    requires s == 86400 * 789 + 3600 * h + 60 * m + sec
    ensures SecondsFromCivil(DateTime(1972, 2, 29, h, m, sec)) == s
    ensures SecondsFromCivil(DateTime(1972, 3, 1, h, m, sec)) == s + 86400
    ensures ToYmdhms(UnixTime(s)) == Ok(DateTime(1972, 3, 1, h, m, sec))
  {
    EarlyYears();
    assert Months.DaysBefore(1, true) == 31 && Months.DaysBefore(2, true) == 60;
    YearLoopFromEpoch(s, 1972);
    ToYmdhmsForwardSplits(s, s - 86400 * 730, 1972, false);
    FinishOnDay(s - 86400 * 730, 1972, false, 2, 0, h, m, sec);
  }

  /**
   * ... and in the year after a leap year, a time on 1973-03-01 comes out
   * on 29 February 1973, a date that does not exist.
   */
  lemma InventedLeapDayExample(s: int, h: int, m: int, sec: int)
    requires 0 <= h < 24 && 0 <= m < 60 && 0 <= sec < 60
    requires s == 86400 * 1155 + 3600 * h + 60 * m + sec
    ensures SecondsFromCivil(DateTime(1973, 3, 1, h, m, sec)) == s
    ensures ToYmdhms(UnixTime(s)) == Ok(DateTime(1973, 2, 29, h, m, sec))
    ensures !Valid(DateTime(1973, 2, 29, h, m, sec))
  {
    EarlyYears();
    assert !Months.IsLeapYear(1973);
    assert Months.DaysBefore(2, false) == 59;
    YearLoopFromEpoch(s, 1973);
    ToYmdhmsForwardSplits(s, s - 86400 * 1096, 1973, true);
    FinishOnDay(s - 86400 * 1096, 1973, true, 1, 28, h, m, sec);
  }

  /**
   * Before the epoch the month loop walks January, February, ... but the
   * result is mirrored onto December, November, ...: the 28 days of
   * February stand for the 30 of November, so 1969-11-02 23:59:59 comes out
   * as 31 October, two days early.
   */
  lemma MirroredMonthExample(s: int, h: int, m: int, sec: int)
    requires 0 <= h < 24 && 0 <= m < 60 && 0 < sec < 60
    requires s == -(86400 * 59 + 3600 * h + 60 * m + sec)
    ensures SecondsFromCivil(DateTime(1969, 11, 2, 23 - h, 59 - m, 60 - sec)) == s
    ensures SecondsFromCivil(DateTime(1969, 10, 31, 23 - h, 59 - m, 60 - sec)) == s - 2 * 86400
    ensures ToYmdhms(UnixTime(s)) == Ok(DateTime(1969, 10, 31, 23 - h, 59 - m, 60 - sec))
  {
    AutumnSeconds(DateTime(1969, 11, 2, 23 - h, 59 - m, 60 - sec));
    AutumnSeconds(DateTime(1969, 10, 31, 23 - h, 59 - m, 60 - sec));
    MirroredMarch(s, h, m, sec);
  }

  /** The loop's reading of those seconds: the 60th day before the epoch read as March, mirrored onto October. */
  lemma MirroredMarch(s: int, h: int, m: int, sec: int)
    requires 0 <= h < 24 && 0 <= m < 60 && 0 < sec < 60
    requires s == -(86400 * 59 + 3600 * h + 60 * m + sec)
    ensures ToYmdhms(UnixTime(s)) == Ok(DateTime(1969, 10, 31, 23 - h, 59 - m, 60 - sec))
  {
    ToYmdhmsBackwardSplits(s, -s, 1969, false);
    FinishMirroredMarch(-s, 1969, 0, h, m, sec);
  }

  /** In a common year, a time in the loop's March comes out mirrored as October. */
  lemma FinishMirroredMarch(left: int, year: int, d: int, h: int, m: int, sec: int)
    requires 0 <= d < 31 && 0 <= h < 24 && 0 <= m < 60 && 0 <= sec < 60
    requires left == 86400 * (59 + d) + 3600 * h + 60 * m + sec
    ensures Finish(left, year, false, false) == Ok(DateTime(year, 10, 31 - d, 23 - h, 59 - m, 60 - sec))
  {
    var rest := left - 86400 * 59;
    assert MonthLoop(left, Months.January, false) == (rest, Months.March) by {
      assert Months.DaysBefore(2, false) == 59 && Months.DaysBefore(3, false) == 90;
      assert Months.ALL[2] == Months.March;
      MonthLoopFromJanuary(left, false, 2);
    }
    assert SplitsInto(rest, d, h, m, sec) by {
      FieldsSplit(rest, d, h, m, sec);
    }
    assert Months.Len(Months.PreviousNth(Months.December, Months.Index(Months.March)), false) == 31
        && Months.Number(Months.March) == 3 by {
      assert Months.PreviousNth(Months.December, 2) == Months.October;
    }
    FinishTail(left, year, false, false, rest, Months.March);
    TailMirrored(rest, Months.March, year, false, d, h, m, sec);
  }

  /** Seconds of a date in October or November 1969. */
  lemma AutumnSeconds(c: DateTime)
    requires c.year == 1969 && 10 <= c.month <= 11
    ensures SecondsFromCivil(c) == 86400 * (if c.month == 10 then c.day - 93 else c.day - 62)
                                   + c.hour * 3600 + c.minute * 60 + c.second
  {
    Autumn1969Days();
  }

  /** 1969 is a common year of 365 days, and October and November start 273 and 304 days into it. */
  lemma Autumn1969Days()
    ensures !Months.IsLeapYear(1969)
    ensures DaysBeforeYear(1969) == -365
    ensures Months.DaysBefore(9, false) == 273 && Months.DaysBefore(10, false) == 304
  {
    assert Months.DaysBefore(10, false) == 304 by {
      assert Months.DaysBefore(9, false) == 273;
    }
  }

  /**
   * The 32-bit loop takes the leap flag of the year it steps into: it
   * underflows at 1972-01-01 00:00:00 and writes 1972-01-02 as 1 January.
   * The seconds are parameters fixed by `requires`, for the same reason as
   * in `LastDayOfLeapYearOverflow`.
   */
  lemma LeapYear32Example(first: int, second: int)
    requires first == 63072000 && second == 63158400
    ensures SecondsFromCivil(DateTime(1972, 1, 1, 0, 0, 0)) == first
    ensures ToYmdhms32(UnixTime32(first)).Err?
    ensures SecondsFromCivil(DateTime(1972, 1, 2, 0, 0, 0)) == second
    ensures ToYmdhms32(UnixTime32(second)) == Ok(DateTime(1972, 1, 1, 0, 0, 0))
  {
    EarlyYears();
    assert Months.DaysBefore(3, false) == 90;
    assert Months.DaysBefore(6, false) == 181;
    assert Months.DaysBefore(9, false) == 273;
    assert Months.DaysBefore(11, false) == 334;
    Agrees32On(UnixTime32(first), DateTime(1972, 1, 1, 0, 0, 0), DateTime(1971, 12, 31, 0, 0, 0));
    Agrees32On(UnixTime32(second), DateTime(1972, 1, 2, 0, 0, 0), DateTime(1972, 1, 1, 0, 0, 0));
  }
}
