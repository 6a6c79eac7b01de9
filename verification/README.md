# espera, modelled in Dafny

A model of the timing and calendar core of the Rust crate `espera`:

- **Rates** (`src/control/rate/rate.rs`): one cadence with a target duration per tick, first and last tick instants, a tick counter and an `i32` lag accumulator, and the lag-compensated `do_tick` and the plain `do_tick_fast`.
- **Rate statistics** (`src/rate/stats.rs`): a ring of the last 1024 nanosecond samples, and the 16-, 128- and 1024-sample maxima and accumulators that `update` refreshes every 16, 128 and 1024 ticks.
- **Looper** (`src/looper.rs`): the `Active`/`Asleep` state machine that makes `measure` and `sleep` alternate, a root rate with its statistics, and a table of named rates keyed by the name's six-bit encoding.
- **Unix times** (`src/unix.rs`): `UnixTime` (`i64` seconds) and `UnixTime32` (`u32` seconds), their `to_ymdhms` loops, the `Display` layout, and the `From`/`TryFrom` conversions.
- **Months and weekdays** (`src/calendar/month.rs`, `src/calendar/weekday.rs`): indices, numbers, next and previous, abbreviations, display names and the case-insensitive parsers.
- **Time codes** (`src/fmt.rs`, `src/timecode.rs`): `timecode_ns_u64`, which is the same function in both files.

Representation choices:

- Instants and durations are integer nanoseconds. Every reading of the clock is a parameter.
- Each operation is a pure function that returns the new value together with what the source returns.
- Fixed-width integers are subset types of `int`. Every `as` cast, wrap-around, clamp and saturation the source performs is written out in `Numeric`.
- A debug-build arithmetic panic (`i64::abs(i64::MIN)`, an `i32` year overflow, an unsigned underflow) is `Err(ArithmeticOverflow)`.
- The two `to_ymdhms` loops are modelled exactly as written. They are measured against `Civil.CivilFromSeconds`, a proleptic Gregorian conversion proved to be a bijection between seconds and valid dates.
- `Loop` feeds statistics through `Stats.UpdateAsWritten`, and `UnixFormat.Display` formats what the loops as written return, so both follow the program. The corrected definitions stand beside them with their own properties (see "## Findings").

Modules and files:

| module | file |
|---|---|
| `Wrappers` | `wrappers.dfy` |
| `Numeric` | `numeric.dfy` |
| `Text` | `text.dfy` |
| `Months` | `month.dfy` |
| `Weekdays` | `weekday.dfy` |
| `Civil` | `civil.dfy` |
| `UnixTimes` | `unix.dfy` |
| `UnixFormat` | `unix_format.dfy` |
| `Timecode` | `timecode.dfy` |
| `NameKeys` | `name_key.dfy` |
| `Rates` | `rate.dfy` |
| `Stats` | `stats.dfy` |
| `Loop` | `looper.dfy` |

## Model

| member | source | states |
|---|---|---|
| Numeric.Clamp | src/control/rate/rate.rs:313 | The result lies in `[lo, hi]`: it is `x` when `x` is inside, and the nearer bound otherwise. |
| Numeric.ClampI32 | src/control/rate/rate.rs:313 | The lag as an `i32`: the value itself when it fits, `i32::MIN` or `i32::MAX` when it does not. |
| Numeric.SaturatingAddI32 | src/control/rate/rate.rs:321 | The exact sum when it fits in `i32`, otherwise the bound it overshoots. |
| Numeric.WrapU64 | src/looper.rs:94 | `as u64` of a signed value: unchanged in range, plus 2^64 for a negative value. |
| Numeric.TruncatedDivision | src/unix.rs:113-122 | Truncating quotient and remainder rebuild the dividend, and the remainder has the dividend's sign and is smaller than the divisor. |
| Rates.New | src/control/rate/rate.rs:63-71 | A fresh rate has the given duration, both anchors at `now`, no ticks and no lag. |
| Rates.Default | src/control/rate/rate.rs:41-52 | A zero-duration rate: its first fast tick at the same instant fires with delta 0. |
| Rates.Reset | src/control/rate/rate.rs:111-116 | Ticks and lag are forgotten, both anchors move to `now`, and the duration is kept. |
| Rates.IncrementTicks | src/control/rate/rate.rs:145-147 | The counter goes up by one, and nothing else changes. |
| Rates.SetFirstTick | src/control/rate/rate.rs:177 | Only the first anchor changes. |
| Rates.SetLastTick | src/control/rate/rate.rs:207 | Only the last anchor changes. |
| Rates.SetDuration | src/control/rate/rate.rs:251 | Only the target duration changes. |
| Rates.FirstElapsed | src/control/rate/rate.rs:373-375 | The first anchor plus the result is the instant. |
| Rates.LastElapsed | src/control/rate/rate.rs:380-382 | The last anchor plus the result is the instant. |
| Rates.FoldLag | src/control/rate/rate.rs:312-321 | Without clamping or saturation, the new accumulator is the old one plus the elapsed time minus the duration. It never shrinks on a late tick and never grows on an early one. |
| Rates.DoTick | src/control/rate/rate.rs:309-333 | Fires exactly when the elapsed time plus the carried lag reaches the duration. On firing: it returns the elapsed time, counts a tick, moves the last anchor and folds the clamped, saturated lag. Without clamping, the accumulator changes by delta minus duration, and it grows only on late ticks and shrinks only on early ones. When it does not fire, nothing changes. |
| Rates.DoTickFast | src/control/rate/rate.rs:352-362 | Fires exactly when the elapsed time reaches the duration. The lag is never read or written, and a non-negative duration gives a non-negative delta. |
| Rates.ResetIsNew | src/control/rate/rate.rs:111-116 | A reset is a fresh rate with the same duration, and resetting twice is resetting once. |
| Rates.TickAfterReset | src/control/rate/rate.rs:309-362 | Right after a reset, a call at the same instant fires exactly when the duration is not positive. |
| Rates.SetThenElapsed | src/control/rate/rate.rs:161-207 | A setter followed by the getter or the elapsed query sees the value set. |
| Rates.NoLagTicksAgree | src/control/rate/rate.rs:309-362 | With no carried lag, both tick variants fire on the same calls with the same delta, and their states differ only in the lag. |
| Rates.NegativeDeltaNeverTicksWithoutCredit | src/control/rate/rate.rs:285-312 | An instant before the last tick never fires when the duration is non-negative and no positive lag is carried. |
| Rates.NegativeDeltaTicksWithCredit | src/control/rate/rate.rs:309-333 | With positive lag carried, a call earlier than the last tick fires and returns a negative delta. |
| Rates.LagCompensationExample | src/control/rate/rate.rs:309-333 | A late tick leaves lag that lets the next, early call fire. |
| Rates.LagAccounting | src/control/rate/rate.rs:309-333 | Over any run without clamping, the time the ticks cover equals ticks times the duration plus the change of the accumulator. |
| Rates.RegularTicks | src/control/rate/rate.rs:309-333 | Calls exactly one duration apart each fire, counting one tick each and leaving no lag. |
| Stats.New | src/rate/stats.rs:39-59 | An empty ring, and every figure zero. |
| Stats.Push | src/rate/stats.rs:63-71 | The new sample is the newest, every other sample moves one place back, and the ring keeps at most 1024 samples. |
| Stats.Add | src/rate/stats.rs:63-66 | A negative duration is recorded as 0 and any other through the `as u64` cast. The older samples shift back, and the figures are untouched. |
| Stats.AddNs | src/rate/stats.rs:69-71 | The sample is recorded unchanged as the newest, and the figures are untouched. |
| Stats.MaxOfIsMaximum | src/rate/stats.rs:79-114 | The scans' running maximum, which starts from 0, is an upper bound of the samples and is attained by one of them. |
| Stats.ScanPairs | src/rate/stats.rs:79-89 | The paired 16-window scan yields the maximum of the samples at even offsets and the wrapping sum of those at odd offsets. |
| Stats.ScanWindow | src/rate/stats.rs:91-114 | The window scan yields the maximum and the wrapping sum of the newest samples, with missing ones read as 0. |
| Stats.UpdateLargeWindows | src/rate/stats.rs:91-114 | The 128- and 1024-sample figures are replaced exactly on tick counts divisible by 128 and 1024, by the maximum and the wrapping sum of that many newest samples. Everything else is kept. |
| Stats.UpdateAsWritten | src/rate/stats.rs:75-115 | Off multiples of 16, nothing changes. On them, `max16` is the maximum at even offsets and `acc16` is the sum at odd offsets, through offset 31. The larger windows are as in `UpdateLargeWindows`, and the ring is kept. |
| Stats.Update | src/rate/stats.rs:75-115 | Like `UpdateAsWritten`, but the 16-sample figures are the maximum and the sum of the newest 16 samples. |
| Stats.Reset | src/rate/stats.rs:118-125 | The accumulators and the 128 and 1024 maxima are zeroed. The ring and `max16` are kept. |
| Stats.LargerWindowsAlign | src/rate/stats.rs:79-103 | Every tick count that refreshes a larger window also refreshes the smaller ones. |
| Stats.WindowIsNewestSamples | src/rate/stats.rs:91-114 | The windowed maximum and sum are those of the newest `min(n, len)` samples of the ring. |
| Stats.UpdateIdempotent | src/rate/stats.rs:75-115 | Refreshing twice at the same tick count is refreshing once, for both versions. |
| Stats.UpdateZeroRefreshesAll | src/rate/stats.rs:75-115 | At tick count 0, all figures depend on the ring alone, for both versions. |
| Stats.ResetThenFullRefresh | src/rate/stats.rs:118-125 | A full refresh after a reset equals a full refresh without it. |
| Stats.UpdateVersionsAgreeOutside16 | src/rate/stats.rs:75-115 | The two versions differ only in the 16-sample figures. |
| Stats.AddAllNewestFirst | src/rate/stats.rs:69-71 | After recording up to 1024 samples, reading back from the newest gives them in reverse order, and the figures are untouched. |
| Stats.OlderSamplesShift | src/rate/stats.rs:69-71 | `n` more samples push an older one `n` places back. |
| Stats.RingGrowth | src/rate/stats.rs:69-71 | Below capacity, each sample lengthens the ring by one. |
| Stats.SixteenSamples | src/rate/stats.rs:75-89 | Sixteen recorded samples give a corrected `max16` and `acc16` that are their maximum and sum. |
| Stats.Window16SkipsSamples | src/rate/stats.rs:79-89 | As written, on the ring `[9, 1]` the 16-window reports maximum 1 and sum 9. |
| Stats.PairedScanOfTwoSamples | src/rate/stats.rs:79-89 | On any statistics whose ring is `[9, 1]`, the paired scan puts the newest sample into the maximum and the older one into the sum. |
| Stats.Window16ReadsEverySample | src/rate/stats.rs:79-89 | The corrected window on `[9, 1]` reports maximum 9 and sum 10. |
| NameKeys.Encode | src/looper.rs:153-154 | A name is accepted exactly when it has at most 21 characters from `[A-Za-z0-9_]`. |
| NameKeys.EncodeRoundTrip | src/looper.rs:326-341 | Decoding a valid name's key gives the name back. |
| NameKeys.EncodeInjective | src/looper.rs:167-173 | Two valid names share a key exactly when they are equal. |
| NameKeys.Pow64Bound | src/looper.rs:168 | Keys of the longest names fit in `u128`. |
| Loop.New | src/looper.rs:43-59 | Active, a default root rate, empty root statistics and no named rates. |
| Loop.Measure | src/looper.rs:82-110 | When asleep: returns `(now, delta)`, moves the root's last tick to `now`, counts a root tick and becomes active. It records the delta (as `u64`) as the newest root sample and refreshes the root statistics as the source's `update` does at the new tick count. When already active, it returns nothing and changes nothing. |
| Loop.Sleep | src/looper.rs:361-369 | Only an active looper falls asleep. The platform wait is requested exactly when it was active and the duration is positive, and it is that duration. |
| Loop.ResetRoot | src/looper.rs:133-137 | Asleep, the root rate renewed at `now` with its duration, and the root statistics reset. The named rates are kept. |
| Loop.Reset | src/looper.rs:122-125 | Only the root is reset. |
| Loop.AddRate | src/looper.rs:167-173 | An invalid name is an error and changes nothing. A valid one stores the rate, and fresh statistics when asked, under its key, and returns the rate it replaced. |
| Loop.RefRate | src/looper.rs:177-183 | A rate is returned exactly when the name is valid and registered, and it is the stored one. |
| Loop.MutRate | src/looper.rs:187-193 | An edit reaches the stored rate exactly when `ref_rate` finds it, and nothing else changes. |
| Loop.FastestRateDuration | src/looper.rs:201-206 | Nothing for an empty table. Otherwise, a duration of some registered rate that is at most every registered duration. |
| Loop.DoTick | src/looper.rs:237-262 | An unknown or invalid name changes nothing. Otherwise it is the compensated tick of the stored rate, feeding its statistics when it fires. The root, the status and the key sets are unchanged. |
| Loop.DoTickFast | src/looper.rs:282-307 | As `DoTick`, with the uncompensated tick. |
| Loop.TickNamed | src/looper.rs:237-307 | The body shared by `do_tick` and `do_tick_fast`. An invalid or unknown name changes nothing, and a tick that does not fire changes nothing. A firing tick replaces only the named rate. The root, the status and the key sets are unchanged. |
| Loop.AddThenRef | src/looper.rs:167-183 | After adding under a valid name, `ref_rate` of that name is the added rate. |
| Loop.AddKeepsOtherRates | src/looper.rs:167-183 | Adding never changes what another name refers to. |
| Loop.AddTwiceReturnsPrevious | src/looper.rs:147-151 | Adding twice under one name returns the first rate the second time. |
| Loop.NameLengthLimit | src/looper.rs:153-165 | The 21-character name of the doc example is accepted, and one character more is a `RateName` error. |
| Loop.TickKeepsOtherRates | src/looper.rs:237-307 | Ticking one name never changes another name's rate. |
| Loop.TickFeedsStats | src/looper.rs:243-247 | A fired tick on a rate with statistics records its delta and refreshes them at the rate's new tick count. Nothing else gains or changes statistics. |
| Loop.MeasureTwice | src/looper.rs:82-101 | A second measure in a row is refused and changes nothing. |
| Loop.ResetThenMeasure | src/looper.rs:82-137 | After a reset, the first measure is taken at once, with the delta from the reset instant. |
| Loop.Alternation | src/looper.rs:82-101 | In any run without resets, effective sleeps and measures alternate: their difference is 0 or 1, and it is 1 exactly when the looper ends asleep. |
| Loop.AlternationFromNew | src/looper.rs:43-101 | From a new looper, measures never outnumber sleeps, and sleeps lead by at most one. |
| Months.Index | src/calendar/month.rs:130-132 | The index is below 12. |
| Months.IndexInjective | src/calendar/month.rs:130-132 | Distinct months have distinct indices. |
| Months.Number | src/calendar/month.rs:124-126 | The number is the index plus one. |
| Months.FromIndex | src/calendar/month.rs:154-170 | Succeeds exactly for 0 to 11, with the month of that index, and otherwise gives the source's error text. |
| Months.FromNumber | src/calendar/month.rs:135-151 | Succeeds exactly for 1 to 12, with the month of that number, and otherwise gives the source's error text. |
| Months.IndexNumberRoundTrip | src/calendar/month.rs:124-170 | `from_index` and `from_number` invert `index` and `number`. |
| Months.Next | src/calendar/month.rs:103-118 | Adds one to the index, modulo 12. |
| Months.Previous | src/calendar/month.rs:84-99 | Subtracts one from the index, modulo 12. |
| Months.NextPreviousInverse | src/calendar/month.rs:84-118 | Next and previous undo each other. |
| Months.PreviousNthIndex | src/unix.rs:137 | `n` steps back subtract `n` from the index, modulo 12. |
| Months.NextNthIndex | src/calendar/month.rs:103-118 | `n` steps forward add `n` to the index, modulo 12. |
| Months.PreviousTwelve | src/calendar/month.rs:84-118 | Twelve steps either way come back to the month. |
| Months.StepsBackUndoSteps | src/calendar/month.rs:84-118 | `n` steps back undo `n` steps forward. |
| Months.Days | src/calendar/month.rs:65-80 | 28 days exactly for February, 30 exactly for April, June, September and November, and 31 otherwise. |
| Months.Len | src/unix.rs:104 | The common-year length, with one more day for February in a leap year. |
| Months.YearLength | src/unix.rs:102-111 | The month lengths add up to 365 days in a common year and 366 in a leap year. |
| Months.NextInOrder | src/unix.rs:102-111 | `next` walks the months in calendar order. |
| Months.Abbr3 | src/calendar/month.rs:175-190 | Three letters. |
| Months.Abbr3IsPrefix | src/calendar/month.rs:175-190 | Each three-letter abbreviation is the start of the full name. |
| Months.Abbr2 | src/calendar/month.rs:193-208 | Two letters. |
| Months.Abbr1 | src/calendar/month.rs:211-226 | One letter. |
| Months.Abbr1Collision | src/calendar/month.rs:211-226 | Two months share a letter exactly when they are equal, or are June and November. |
| Months.Name | src/calendar/month.rs:229-246 | The display name has 3 to 9 characters. |
| Months.ParseTable | src/calendar/month.rs:257-356 | The parser's 47 entries: full names, eleven three-letter forms without May, two-letter forms, then letters. |
| Months.ParseTableEntry | src/calendar/month.rs:257-356 | Which spelling and month each parser entry holds. |
| Months.FromStr | src/calendar/month.rs:257-362 | Fails exactly when no entry equals the input ignoring ASCII case, with the source's error text. |
| Months.FromStrIgnoresCase | src/calendar/month.rs:257-362 | Inputs equal up to ASCII case parse alike. |
| Months.NamesDistinct | src/calendar/month.rs:229-246 | Full names differ even ignoring case. |
| Months.Abbr3Distinct | src/calendar/month.rs:175-190 | Three-letter forms differ even ignoring case. |
| Months.Abbr2Distinct | src/calendar/month.rs:193-208 | Two-letter forms differ even ignoring case. |
| Months.Abbr1Distinct | src/calendar/month.rs:211-226 | Letters agree ignoring case only for June and November. |
| Months.NameMeetsAbbr3 | src/calendar/month.rs:283-292 | A full name equals a three-letter form only for May, which is why the parser leaves May out of that tier. |
| Months.NameRoundTrip | src/calendar/month.rs:258-281 | Any casing of a full name parses to its month. |
| Months.Abbr3RoundTrip | src/calendar/month.rs:283-306 | Any casing of a three-letter form parses to its month. |
| Months.Abbr3MeetsOnlyItsMonth | src/calendar/month.rs:257-356 | Every entry that a three-letter form matches names that form's month. |
| Months.Abbr2RoundTrip | src/calendar/month.rs:308-331 | Any casing of a two-letter form parses to its month. |
| Months.Abbr1RoundTrip | src/calendar/month.rs:333-356 | Any casing of a letter parses to its month, except November's, which parses to June. |
| Months.Abbr1MissesLongerNames | src/calendar/month.rs:257-331 | A single letter matches none of the longer spellings. |
| Months.NovemberLetterIsJune | src/calendar/month.rs:343-353 | "N" or "n" parses to June. |
| Months.EmptyIsNotAMonth | src/calendar/month.rs:360 | The empty string is an error. |
| Weekdays.IndexFromMonday | src/calendar/weekday.rs:102-104 | The index is below 7. |
| Weekdays.IndexInjective | src/calendar/weekday.rs:102-104 | Distinct days have distinct indices. |
| Weekdays.IndexFromSunday | src/calendar/weekday.rs:108-118 | The Monday-based index shifted by one, modulo 7. |
| Weekdays.NumberFromMonday | src/calendar/weekday.rs:90-92 | The Monday-based index plus one. |
| Weekdays.NumberFromSunday | src/calendar/weekday.rs:96-98 | The Sunday-based index plus one, which is the Monday number shifted by one. |
| Weekdays.Next | src/calendar/weekday.rs:74-84 | Adds one to the index, modulo 7. |
| Weekdays.Previous | src/calendar/weekday.rs:60-70 | Subtracts one from the index, modulo 7. |
| Weekdays.NextPreviousInverse | src/calendar/weekday.rs:60-84 | Next and previous undo each other. |
| Weekdays.SundayIndexIsShifted | src/calendar/weekday.rs:108-118 | The Sunday index also steps by one with `next`, and it is 0 exactly on Sunday. |
| Weekdays.NextNthIndex | src/calendar/weekday.rs:74-84 | `n` steps forward add `n` to the index, modulo 7. |
| Weekdays.PreviousNthIndex | src/calendar/weekday.rs:60-70 | `n` steps back subtract `n` from the index, modulo 7. |
| Weekdays.WeekCycle | src/calendar/weekday.rs:60-84 | Seven steps either way come back to the day. |
| Weekdays.StepsBackUndoSteps | src/calendar/weekday.rs:60-84 | `n` steps back undo `n` steps forward. |
| Weekdays.Name | src/calendar/weekday.rs:160-172 | The display name has 6 to 9 characters. |
| Weekdays.Abbr3AsWritten | src/calendar/weekday.rs:123-133 | Three letters, equal to the corrected form on every day but Friday. |
| Weekdays.Abbr3 | src/calendar/weekday.rs:123-133 | Three letters. |
| Weekdays.Abbr3IsPrefix | src/calendar/weekday.rs:123-133 | The corrected three-letter form is the start of the full name. |
| Weekdays.Abbr2 | src/calendar/weekday.rs:135-145 | Two letters. |
| Weekdays.Abbr1 | src/calendar/weekday.rs:147-157 | One letter. |
| Weekdays.ParseTable | src/calendar/weekday.rs:177-243 | The parser's 28 entries: full names, then three, two and one letters, in weekday order. |
| Weekdays.FromStr | src/calendar/weekday.rs:177-243 | Fails exactly when no entry equals the input ignoring ASCII case, with the source's error text. |
| Weekdays.FromStrIgnoresCase | src/calendar/weekday.rs:177-243 | Inputs equal up to ASCII case parse alike. |
| Weekdays.SpellingsDistinct | src/calendar/weekday.rs:177-243 | No two spellings of different days agree, even ignoring case. |
| Weekdays.SpellingRoundTrip | src/calendar/weekday.rs:177-243 | Any casing of any spelling the parser knows parses to its day. |
| Weekdays.NameRoundTrip | src/calendar/weekday.rs:160-243 | The display name parses back. |
| Weekdays.Abbr3RoundTrip | src/calendar/weekday.rs:123-243 | The corrected three-letter form parses back for every day. |
| Weekdays.FruIsNoSpelling | src/calendar/weekday.rs:129 | "Fru" matches none of the parser's spellings. |
| Weekdays.FridayAbbreviationAsWrittenIsRejected | src/calendar/weekday.rs:129 | Friday's abbreviation as written is an invalid weekday name. |
| Civil.YearDays | src/unix.rs:84-92 | 366 days exactly in leap years, 365 otherwise. |
| Civil.DaysBeforeYearStep | src/unix.rs:87-100 | Each year adds its own length to the day count. |
| Civil.YearOfDay | src/unix.rs:87-100 | The year whose days hold a given day number. |
| Civil.YearUnique | src/unix.rs:87-100 | Only one year holds a given day number. |
| Civil.DateInYear | src/unix.rs:102-115 | A day of a year as a month and day of that year, whose days before plus the day give it back. |
| Civil.CivilDate | src/unix.rs:77-122 | A day number as a valid year, month and day that count back to it. |
| Civil.CivilFromSeconds | src/unix.rs:77-143 | The date and time `to_ymdhms` is meant to return: always valid, and it counts back to the given second. |
| Civil.ClockOf | src/unix.rs:116-122 | Seconds of a day as an hour, minute and second in range that count back to them. |
| Civil.DateUnique | src/unix.rs:102-111 | Within a year, a day of the year names one month and day. |
| Civil.DateRoundTrip | src/unix.rs:77-122 | The day number of a valid date converts back to that date. |
| Civil.CivilRoundTrip | src/unix.rs:77-143 | Every valid date and time is the conversion of its own seconds, so the conversion is a bijection. |
| Civil.CivilYear | src/unix.rs:87-100 | A second within a year converts to a date in that year. |
| Civil.CivilOf | src/unix.rs:77-143 | A valid date and time naming a second is that second's conversion. |
| UnixTimes.YearLoop | src/unix.rs:84-100 | The year loop as written. It leaves less than 365 days, and from a non-negative start at least minus one day. The year stays within `i32` or the result is an error. |
| UnixTimes.MonthLoop | src/unix.rs:102-111 | The month loop ends in a month longer than what is left, and it never passes a month that fits. |
| UnixTimes.Fields | src/unix.rs:113-122 | Below 256 days, the `u8` casts take apart whole days, hours, minutes and seconds. |
| UnixTimes.Tail | src/unix.rs:113-142 | Keeps the year and yields a month from 1 to 12 and a positive day. After the epoch, below 255 days, it succeeds with the month's number and fields within their units that add back up to the seconds left. Before the epoch, the month is mirrored as `13 - month` and the hour, minute and second stay at most 23, 59 and 60. |
| UnixTimes.Finish | src/unix.rs:102-142 | The month loop from January, then the tail. It keeps the year, and after the epoch it succeeds on anything below 255 days. |
| UnixTimes.Run | src/unix.rs:87-142 | The year loop, then the month loop and the tail. A start within `i32` gives a year within `i32`. |
| UnixTimes.ToYmdhms | src/unix.rs:77-143 | `UnixTime::to_ymdhms` as written. `i64::MIN` is an error, and any year it returns fits in `i32`. |
| UnixTimes.YearLoop32 | src/unix.rs:213-230 | The 32-bit year loop as written. It leaves less than 365 days and only moves forward, carrying the leap flag of the year it steps into. |
| UnixTimes.Finish32 | src/unix.rs:232-257 | The 32-bit tail, whose year fits in `u16`. |
| UnixTimes.ToYmdhms32 | src/unix.rs:213-258 | `UnixTime32::to_ymdhms` as written, with a year that fits in `u16`. |
| UnixTimes.MonthLoopFromJanuary | src/unix.rs:102-111 | From January, the month loop stops in the month whose days hold what is left. |
| UnixTimes.YearLoopForward | src/unix.rs:87-100 | After the epoch, the loop stops in the true year, carrying the leap flag of the year before. |
| UnixTimes.YearLoopBackward | src/unix.rs:87-100 | Before the epoch, the mirrored loop stops when less than 365 days of the year remain to go back. |
| UnixTimes.YearLoop32Run | src/unix.rs:223-230 | The 32-bit loop ends in the true year with the time left in it, except that a leap year loses its first day. |
| UnixTimes.FinishOnDay | src/unix.rs:102-132 | The forward tail numbers the month and day from one. |
| UnixTimes.Finish32OnDate | src/unix.rs:232-257 | Handed the right leap flag, the 32-bit tail returns the date. |
| UnixTimes.ToYmdhmsAfter | src/unix.rs:81-86 | After the epoch, the conversion runs from 1970 forward. |
| UnixTimes.ToYmdhmsBefore | src/unix.rs:81-86 | Before the epoch, except at `i64::MIN`, it runs from 1969 backward over the magnitude. |
| UnixTimes.ToYmdhmsForwardSplits | src/unix.rs:77-132 | After the epoch, the result is the tail on what the year loop leaves. |
| UnixTimes.ToYmdhmsBackwardSplits | src/unix.rs:77-142 | Before the epoch, the result is the mirrored tail on what the year loop leaves. |
| UnixTimes.ToYmdhms32Splits | src/unix.rs:213-258 | An error of the 32-bit year loop is an error of the conversion. Otherwise the conversion is the tail on what the loop leaves. |
| UnixTimes.ToYmdhmsAfterEpoch | src/unix.rs:77-132 | After the epoch, the result is the true date on the first 365 days of every year, except from 29 February on when the year and the one before differ in being leap years. |
| UnixTimes.ToYmdhmsLastDayOfLeapYear | src/unix.rs:87-100 | After the epoch, every 31 December of a leap year comes out wrong. |
| UnixTimes.ToYmdhmsBeforeEpoch | src/unix.rs:87-100 | Before the epoch, the mirrored year loop stops in the true year with the seconds to that year's end, except on the first day of a leap year. |
| UnixTimes.ToYmdhms32Agrees | src/unix.rs:213-258 | The 32-bit conversion is right in every common year. In a leap year it is an error on 1 January and one day early after that. |
| UnixTimes.ToYmdhmsDecember1969 | src/unix.rs:133-142 | In December 1969 the result always counts back to the right second. It is a valid date exactly off the minute, where it equals the true date, and a whole minute comes out as second 60. |
| UnixTimes.LastDayOfLeapYearExample | src/unix.rs:87-132 | A whole hour of 31 December 1972 comes out as an hour above 24 on 1 January 1973. |
| UnixTimes.LastDayOfLeapYearOverflow | src/unix.rs:87-122 | At midnight of 31 December 1972 the loops leave minus one day. `(-86400 / 86400) as u8` wraps to 255, and the `+ 1` then overflows. |
| UnixTimes.MissedLeapDayExample | src/unix.rs:87-111 | A time on 29 February 1972 comes out a day late, on 1 March. |
| UnixTimes.InventedLeapDayExample | src/unix.rs:87-111 | A time on 1 March 1973 comes out as 29 February 1973, a date that does not exist. |
| UnixTimes.MirroredMonthExample | src/unix.rs:133-141 | A time on 2 November 1969 comes out as 31 October, two days early. |
| UnixTimes.LeapYear32Example | src/unix.rs:223-230 | The 32-bit loop underflows at 1972-01-01 00:00:00 and writes 1972-01-02 as 1 January. |
| Text.PadInt | src/unix.rs:287-288 | `{n:0w}` on an integer: at least `w` characters, all digits when `n` is non-negative, and a leading minus sign exactly when it is negative. |
| UnixFormat.Format | src/unix.rs:287-288 | The `{y:04}-{m:02}-{d:02}_{h:02}:{min:02}:{s:02}` layout: at least 19 characters, starting with a minus sign exactly when the year is negative. `FormatRoundTrip` and `FormatLength` state what it loses. |
| UnixFormat.YearRoundTrip | src/unix.rs:285-289 | A `{y:04}` year reads back as the year, sign included. |
| UnixFormat.FormatRoundTrip | src/unix.rs:285-289 | The layout reads back as the date and time while the small fields have at most two digits. |
| UnixFormat.FormatLength | src/unix.rs:285-289 | With a four-digit year and two-digit fields, the layout has 19 characters. |
| UnixFormat.Display | src/unix.rs:285-290 | Writes exactly when `to_ymdhms` does not panic. While the month, day, hour, minute and second of the result have at most two digits, what it writes reads back as what `to_ymdhms` returns. |
| UnixFormat.Display32 | src/unix.rs:301-306 | Writes exactly when the 32-bit `to_ymdhms` does not panic. While the month, day, hour, minute and second of the result have at most two digits, what it writes reads back as that result. |
| UnixFormat.DisplayAfterEpoch | src/unix.rs:285-290 | After the epoch, on the days `to_ymdhms` gets right, the display reads back as the true date and time, in 19 characters up to year 9999. |
| UnixFormat.Display32InCommonYear | src/unix.rs:301-306 | In a common year, the 32-bit display reads back as the true date and time, in 19 characters. |
| UnixFormat.FromUnixTime32 | src/unix.rs:318-324 | Every 32-bit time widens to the same seconds. |
| UnixFormat.TryFromUnixTime | src/unix.rs:326-334 | Narrowing succeeds exactly for 0 to `u32::MAX` seconds and keeps them. |
| UnixFormat.NarrowWidenRoundTrip | src/unix.rs:318-334 | Narrowing a widened time gives it back, and widening a narrowed time gives it back too. |
| UnixFormat.FromSeconds | src/unix.rs:337-348 | Any value of a type that fits in `i64` converts unchanged. |
| UnixFormat.TryFromSeconds | src/unix.rs:352-363 | Succeeds exactly within the `i64` range and keeps the value. |
| UnixFormat.FromSeconds32 | src/unix.rs:337-349 | `u32`, `u16` and `u8` values convert unchanged. |
| UnixFormat.TryFromSeconds32 | src/unix.rs:352-364 | Succeeds exactly within the `u32` range and keeps the value. |
| UnixFormat.ConversionsAgree | src/unix.rs:337-364 | Where both the infallible and the fallible conversion apply, they agree. |
| UnixFormat.TryFromThroughUnixTime | src/unix.rs:326-364 | Converting to `UnixTime32` directly is converting through `UnixTime`. |
| UnixFormat.OneSecondAfterEpoch | src/unix.rs:40 | Second 1 is `1970-01-01_00:00:01`, and `to_ymdhms` returns its fields. |
| UnixFormat.OneSecondBeforeEpoch | src/unix.rs:41 | Second -1 is `1969-12-31_23:59:59`, and `to_ymdhms` returns its fields. |
| UnixFormat.I32MaxSeconds | src/unix.rs:42 | `i32::MAX` seconds is `2038-01-19_03:14:07`. |
| UnixFormat.U32MaxSeconds | src/unix.rs:43 | `u32::MAX` seconds is `2106-02-07_06:28:15`. |
| UnixFormat.MinusU32MaxSeconds | src/unix.rs:44 | Minus `u32::MAX` seconds is `1833-11-24_17:31:45`. |
| UnixFormat.UnixTime32Display | src/unix.rs:179-180 | The 32-bit display at 0 and at `u32::MAX`. |
| UnixFormat.UnixTime32Fields | src/unix.rs:210-211 | The 32-bit `to_ymdhms` one second after the epoch and at `i32::MAX`. |
| UnixFormat.AfterEpochExample | src/unix.rs:77-132 | After the epoch, a date before 29 February is what `to_ymdhms` and the display give. |
| UnixFormat.CommonYear32Example | src/unix.rs:213-306 | In a common year within `u32` range, the 32-bit conversion and display give the true date. |
| UnixFormat.LateDecember1969 | src/unix.rs:133-142 | A December 1969 time off the minute comes out right through the mirrored loops. |
| Timecode.SplitNs | src/fmt.rs:51-53 | The three truncating divisions by 1000: each remainder is below 1000, and quotient and remainder rebuild the number at every step. |
| Timecode.SplitMagnitude | src/fmt.rs:55-63 | Seconds are non-zero exactly from 10^9 ns, milliseconds from 10^6 and microseconds from 10^3, so the branch is chosen by magnitude. The fields add back up to the input. |
| Timecode.TimecodeWords | src/fmt.rs:55-63 | The four branches give from one to four words. `TimecodeWordsRead` states which words and what they add up to. |
| Timecode.TimecodeNs | src/fmt.rs:50-64 | `timecode_ns_u64` as written. It reads back as the count, and its nanosecond word is `000` followed by the three-digit remainder. |
| Timecode.TimecodeNs3 | src/timecode.rs:33-47 | The corrected form of both copies of `timecode_ns_u64`, with a three-place nanosecond field. It reads back as the count, and its last word is five characters whose three digits read as the remainder. |
| Timecode.TimecodeWordsRead | src/fmt.rs:55-63 | One word per unit from the largest non-zero one. The words add up to the input. |
| Timecode.TimecodeRoundTrip | src/fmt.rs:50-64 | Reading the time code back, at any padding of the nanosecond field, gives the number of nanoseconds. |
| Timecode.TimecodeInjective | src/timecode.rs:33-47 | Different counts give different time codes. |
| Timecode.NanosecondWordAsWritten | src/fmt.rs:46-62 | As written, the nanosecond word always starts with three zeros, so the documented `012345ns` can never appear. |
| Timecode.NanosecondWordCorrected | src/timecode.rs:34-45 | With a three-place field, the nanosecond word is three digits that read as the remainder. |

## Left out

- Rates.New: `ticks` is a `nat`, so the `u64` overflow of `ticks += 1` is not modelled.
- Rates.New, Rates.Default and Rates.Reset take one `now` for both anchors. The source reads `Instant::now()` twice (src/control/rate/rate.rs:46-47, 66-67, 113-114), so its anchors can differ by the time between the two reads.
- Rates.DoTick: three overflow panics are not modelled: the `Duration + Duration` of the elapsed time and the carried lag in the firing condition (src/control/rate/rate.rs:311), the `Duration - Duration` lag (src/control/rate/rate.rs:312), and the `Instant - Instant` in `last_elapsed` (src/control/rate/rate.rs:381), which `do_tick` and `do_tick_fast` both reach. Instants and durations are unbounded integers.
- Stats.UpdateAsWritten: the accumulators wrap modulo 2^64 as in a release build. A debug build panics on the `+=` overflow (src/rate/stats.rs:85, 97, 110).
- Stats.UpdateAsWritten: the `f64` averages (`acc as f64 / 16.` and the like, src/rate/stats.rs:88, 100, 113) are not modelled. The model keeps the integer accumulators they are computed from.
- NameKeys.Encode: the `sixbit` crate is not part of this model. Its encoder is replaced by an injective base-64 packing of the names the crate documents as valid (at most 21 of `[A-Za-z0-9_]`, src/looper.rs:153-154). The crate's exact bit layout is not reproduced.
- Months.Abbr1RoundTrip: June and November share the letter "N" (src/calendar/month.rs:218, 223), and the parser's "N" always gives June (343, 353). This is modelled as written and proved. No corrected variant is offered, because the source promises no distinct one-letter form.
- `src/calendar/mod.rs` is not part of this model. `Month::len`, `Month::previous_nth` and `is_leap_year` are modelled from their use in src/unix.rs:12, 85, 104, 137 (as `Months.Len`, `Months.PreviousNth` and `Months.IsLeapYear`, the proleptic Gregorian rule).
- `UnixTime::now`, `UnixTime32::now`, `unix_time_64` and `unix_time_32`: they read the system clock through `std` or `libc`.
- `do_tick_now`, `do_tick_fast_now`, `Looper::now_delta`'s clock read, and `Looper::sleep`'s platform sleep: the clock is a parameter and the wait is a returned value.
- `Rate::with_seconds`, `with_tps`, `tps`, `set_seconds`, `set_tps`, `tick_elapsed`, `duration_ticks`, `instant_tick` and `instant_tick_checked`: they compute in `f64`.
- `Display for Rate` and the `Debug` impls of `UnixTime` and `UnixTime32`: they are text formatting around the modelled fields.
- `Looper::log_root_rate`, `log_rate`, `log_all_rates` and `RateStats::log`: they only write to the log.
- `Looper::reset_rate`: its body is `todo!()`.
- `Looper::ref_root_rate` and `mut_root_rate`: they are plain field accessors of the root rate.
- The other functions of `src/fmt.rs` and `src/timecode.rs` (`timecode_f64` and the like), and `src/sleeper.rs`: they are outside this core.
- Nothing is concurrent in the core, so no concurrency is modelled.

## Findings

| source | as written | input that shows it | evidently intended | confidence | as-written member | corrected member |
|---|---|---|---|---|---|---|
| src/rate/stats.rs:79-89 | Each iteration of the 16-sample loop calls `next_back` twice: once for the maximum and once for the sum. `max16` sees the samples at even offsets and `acc16` those at odd offsets, through offset 31. | statistics holding samples 9 then 1, refreshed at tick 16: `max16` is 1 and `acc16` is 9 | the maximum and sum of the newest 16 samples: 9 and 10 | not executed | Stats.UpdateAsWritten, Stats.Window16SkipsSamples | Stats.Update, Stats.WindowIsNewestSamples, Stats.Window16ReadsEverySample |
| src/calendar/weekday.rs:129 | Friday's three-letter abbreviation is "Fru". | `Weekday::from_str` of Friday's `abbr3()` is an error | "Fri", which the parser accepts at weekday.rs:202 | not executed | Weekdays.Abbr3AsWritten, Weekdays.FridayAbbreviationAsWrittenIsRejected | Weekdays.Abbr3, Weekdays.Abbr3RoundTrip |
| src/unix.rs:87-111 | The year loop continues while 365 days are left, whatever the year's length. The month loop uses the leap flag of the year before. | 94608000 (1972-12-31 00:00:00) leaves minus one day, whose `as u8` cast wraps to 255, so the `+ 1` overflows. 94694400 - 3600h comes out as hour 256 - h of 1973-01-01. 68169600 + t (1972-02-29) comes out on 1 March. 99792000 + t (1973-03-01) comes out as 29 February 1973. | the true civil date and time | not executed | UnixTimes.ToYmdhms, UnixTimes.LastDayOfLeapYearOverflow, UnixTimes.LastDayOfLeapYearExample, UnixTimes.MissedLeapDayExample, UnixTimes.InventedLeapDayExample | Civil.CivilFromSeconds, Civil.CivilRoundTrip |
| src/unix.rs:133-141 | Before the epoch, the month loop walks forward from January, but the month is mirrored onto December, November and so on. The fields are mirrored as 23 - h, 59 - m and 60 - s. | -60 comes out as 1969-12-31 23:58:60. -(86400·59 + 3600h + 60m + s) comes out on 31 October instead of 2 November. | the true civil date and time | not executed | UnixTimes.ToYmdhms, UnixTimes.ToYmdhmsDecember1969, UnixTimes.MirroredMonthExample | Civil.CivilFromSeconds, Civil.CivilRoundTrip |
| src/unix.rs:223-230 | The 32-bit loop steps the year forward and then takes the leap flag of the new year, subtracting the wrong year's length. | 63072000 (1972-01-01) underflows. 63158400 (1972-01-02) comes out as 1 January. | the true civil date and time | not executed | UnixTimes.ToYmdhms32, UnixTimes.LeapYear32Example, UnixTimes.ToYmdhms32Agrees | Civil.CivilFromSeconds, Civil.CivilRoundTrip |
| src/fmt.rs:56-62 | The nanosecond remainder, always below 1000, is written with six places (`{ns_rem:06}`), like the same line at src/timecode.rs:39-45. | any count: the last word starts with `000`, so the documented `012345ns` (src/fmt.rs:46) never appears | three places, as for milliseconds and microseconds | not executed | Timecode.TimecodeNs, Timecode.NanosecondWordAsWritten | Timecode.TimecodeNs3, Timecode.NanosecondWordCorrected, Timecode.TimecodeRoundTrip |
