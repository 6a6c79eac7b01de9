/**
 * How Unix times are shown and converted: the `Display` layout
 * `YYYY-MM-DD_hh:mm:ss` laid over `to_ymdhms`, a reader for that layout,
 * and the conversions between `UnixTime`, `UnixTime32` and the primitive
 * integer types.
 */
module UnixFormat {

  import opened Numeric
  import opened Wrappers
  import opened Text
  import opened Civil
  import opened UnixTimes

  /** `core::num::TryFromIntError`: the value does not fit the target type. */
  datatype TryFromIntError = TryFromIntError

  // ---------------------------------------------------------------------
  // The display layout
  // ---------------------------------------------------------------------

  /** `{y:04}-{m:02}-{d:02}_{h:02}:{min:02}:{s:02}`. */
  function Format(c: DateTime): (r: string)
    ensures 19 <= |r|
    ensures c.year < 0 <==> r[0] == '-'
  {
    PadInt(c.year, 4) + "-" + PadInt(c.month, 2) + "-" + PadInt(c.day, 2) + "_"
      + PadInt(c.hour, 2) + ":" + PadInt(c.minute, 2) + ":" + PadInt(c.second, 2)
  }

  /** Month, day, hour, minute and second each fit in two digits. */
  predicate TwoDigitFields(c: DateTime)
  {
    && 0 <= c.month < 100 && 0 <= c.day < 100
    && 0 <= c.hour < 100 && 0 <= c.minute < 100 && 0 <= c.second < 100
  }

  /** A year as `{y:04}` writes it: digits, after a minus sign when negative. */
  function ParseYear(y: string): (r: Option<int>)
    ensures r.Some? ==> 1 <= |y|
  {
    if 2 <= |y| && y[0] == '-' && IsDigits(y[1..]) then Some(-(ParseDecimal(y[1..]) as int))
    else if 1 <= |y| && IsDigits(y) then Some(ParseDecimal(y))
    else None
  }

  /** A two-digit field. */
  predicate TwoDigits(s: string)
  {
    |s| == 2 && IsDigits(s)
  }

  /** Splits `x` + `sep` + two digits off the end of a string. */
  function Peel(s: string, sep: char): (r: Option<(string, string)>)
    ensures r.Some? ==> s == r.value.0 + [sep] + r.value.1 && TwoDigits(r.value.1)
  {
    if 3 <= |s| && s[|s| - 3] == sep && TwoDigits(s[|s| - 2..]) then
      assert s == s[..|s| - 3] + [sep] + s[|s| - 2..];
      Some((s[..|s| - 3], s[|s| - 2..]))
    else None
  }

  /**
   * Reads the layout back, from the right: `:ss`, `:mm`, `_hh`, `-DD`,
   * `-MM`, and whatever is left is the year.
   */
  function ParseFormat(s: string): (r: Option<DateTime>)
  {
    match Peel(s, ':')
    case None => None
    case Some((s1, se)) =>
      match Peel(s1, ':')
      case None => None
      case Some((s2, mi)) =>
        match Peel(s2, '_')
        case None => None
        case Some((s3, h)) =>
          match Peel(s3, '-')
          case None => None
          case Some((s4, d)) =>
            match Peel(s4, '-')
            case None => None
            case Some((s5, mo)) =>
              match ParseYear(s5)
              case None => None
              case Some(year) =>
                Some(DateTime(year, ParseDecimal(mo), ParseDecimal(d), ParseDecimal(h),
                              ParseDecimal(mi), ParseDecimal(se)))
  }

  /** A separator and two digits appended to anything peel off again. */
  lemma PeelAppended(x: string, sep: char, f: string)
    requires TwoDigits(f)
    ensures Peel(x + [sep] + f, sep) == Some((x, f))
  {
    var s := x + [sep] + f;
    assert s[..|s| - 3] == x && s[|s| - 2..] == f;
  }

  /** Digits read as a non-negative year. */
  lemma ParseYearDigits(p: string)
    requires 1 <= |p| && IsDigits(p)
    ensures ParseYear(p) == Some(ParseDecimal(p) as int)
  {
  }

  /** A minus sign before digits reads as a negative year. */
  lemma ParseYearNegative(p: string, v: nat)
    requires 1 <= |p| && IsDigits(p) && ParseDecimal(p) == v
    ensures ParseYear("-" + p) == Some(-(v as int))
  {
    assert ("-" + p)[1..] == p;
  }

  /** A year of the epoch's era reads back from its padded digits. */
  lemma NonNegativeYearRoundTrip(y: nat)
    ensures ParseYear(PadNat(y, 4)) == Some(y)
  {
    PadNatDigits(y, 4);
    PadNatRoundTrip(y, 4);
    ParseYearDigits(PadNat(y, 4));
  }

  /** A year before year 0 reads back from its sign and padded digits. */
  lemma NegativeYearRoundTrip(y: nat)
    requires 0 < y
    ensures ParseYear("-" + PadNat(y, 3)) == Some(-(y as int))
  {
    PadNatDigits(y, 3);
    PadNatRoundTrip(y, 3);
    ParseYearNegative(PadNat(y, 3), y);
  }

  /** The year field reads back as the year. */
  lemma YearRoundTrip(y: int)
    ensures ParseYear(PadInt(y, 4)) == Some(y)
  {
    if y >= 0 {
      NonNegativeYearRoundTrip(y);
    } else {
      assert PadInt(y, 4) == "-" + PadNat(-y, 3);
      NegativeYearRoundTrip(-y);
    }
  }

  /** A two-digit field reads back as its number. */
  lemma FieldRoundTrip(n: int)
    requires 0 <= n < 100
    ensures TwoDigits(PadInt(n, 2)) && ParseDecimal(PadInt(n, 2)) == n
  {
    assert Pow10(2) == 100;
    PadNatFixedWidth(n, 2);
    PadNatRoundTrip(n, 2);
  }

  /** The layout loses nothing while the small fields have at most two digits. */
  lemma FormatRoundTrip(c: DateTime)
    requires TwoDigitFields(c)
    ensures ParseFormat(Format(c)) == Some(c)
  {
    var y := PadInt(c.year, 4);
    var mo, d, h, mi, se := PadInt(c.month, 2), PadInt(c.day, 2), PadInt(c.hour, 2),
                            PadInt(c.minute, 2), PadInt(c.second, 2);
    FieldRoundTrip(c.month);
    FieldRoundTrip(c.day);
    FieldRoundTrip(c.hour);
    FieldRoundTrip(c.minute);
    FieldRoundTrip(c.second);
    YearRoundTrip(c.year);
    var s4 := y + "-" + mo;
    var s3 := s4 + "-" + d;
    var s2 := s3 + "_" + h;
    var s1 := s2 + ":" + mi;
    PeelAppended(s1, ':', se);
    PeelAppended(s2, ':', mi);
    PeelAppended(s3, '_', h);
    PeelAppended(s4, '-', d);
    PeelAppended(y, '-', mo);
  }

  /** With a year of 0 to 9999 and two-digit fields the layout is 19 characters long. */
  lemma FormatLength(c: DateTime)
    requires 0 <= c.year < 10000 && TwoDigitFields(c)
    ensures |Format(c)| == 19
  {
    assert Pow10(4) == 10000;
    PadNatFixedWidth(c.year, 4);
    FieldRoundTrip(c.month);
    FieldRoundTrip(c.day);
    FieldRoundTrip(c.hour);
    FieldRoundTrip(c.minute);
    FieldRoundTrip(c.second);
  }

  /** A valid date and time has two-digit fields. */
  lemma ValidHasTwoDigitFields(c: DateTime)
    requires Valid(c)
    ensures TwoDigitFields(c)
  {
  }

  // ---------------------------------------------------------------------
  // `Display` for `UnixTime` and `UnixTime32`
  // ---------------------------------------------------------------------

  /**
   * `impl Display for UnixTime`: the layout over `to_ymdhms`, including
   * the panics of that conversion.
   */
  function Display(t: UnixTime): (r: Result<string, Panic>)
    ensures r.Ok? <==> ToYmdhms(t).Ok?
    ensures r.Ok? && TwoDigitFields(ToYmdhms(t).value) ==> ParseFormat(r.value) == Some(ToYmdhms(t).value)
  {
    match ToYmdhms(t)
    case Err(e) => Err(e)
    case Ok(c) =>
      assert TwoDigitFields(c) ==> ParseFormat(Format(c)) == Some(c) by {
        if TwoDigitFields(c) { FormatRoundTrip(c); }
      }
      Ok(Format(c))
  }

  /** `impl Display for UnixTime32`: the layout over the 32-bit `to_ymdhms`. */
  function Display32(t: UnixTime32): (r: Result<string, Panic>)
    ensures r.Ok? <==> ToYmdhms32(t).Ok?
    ensures r.Ok? && TwoDigitFields(ToYmdhms32(t).value) ==> ParseFormat(r.value) == Some(ToYmdhms32(t).value)
  {
    match ToYmdhms32(t)
    case Err(e) => Err(e)
    case Ok(c) =>
      assert TwoDigitFields(c) ==> ParseFormat(Format(c)) == Some(c) by {
        if TwoDigitFields(c) { FormatRoundTrip(c); }
      }
      Ok(Format(c))
  }

  /**
   * After the epoch, wherever `to_ymdhms` is right, the display reads
   * back as the true date and time and is 19 characters long up to the
   * year 9999.
   */
  lemma DisplayAfterEpoch(s: int)
    requires 0 <= s <= I64_MAX
    requires CivilFromSeconds(s).year < I32_MAX
    requires DayOfYear(CivilFromSeconds(s)) < 365
    requires Months.IsLeapYear(CivilFromSeconds(s).year - 1) == Months.IsLeapYear(CivilFromSeconds(s).year)
          || DayOfYear(CivilFromSeconds(s)) < 59
    ensures Display(UnixTime(s)).Ok?
    ensures ParseFormat(Display(UnixTime(s)).value) == Some(CivilFromSeconds(s))
    ensures CivilFromSeconds(s).year < 10000 ==> |Display(UnixTime(s)).value| == 19
  {
    var c := CivilFromSeconds(s);
    ToYmdhmsAfterEpoch(s);
    ValidHasTwoDigitFields(c);
    YearAfterEpoch(s, c);
    if c.year < 10000 {
      FormatLength(c);
    }
  }

  /** In a common year the 32-bit display reads back as the true date and time. */
  lemma Display32InCommonYear(t: UnixTime32)
    requires !Months.IsLeapYear(CivilFromSeconds(t.seconds).year)
    ensures Display32(t).Ok?
    ensures ParseFormat(Display32(t).value) == Some(CivilFromSeconds(t.seconds))
    ensures |Display32(t).value| == 19
  {
    var c := CivilFromSeconds(t.seconds);
    ToYmdhms32Agrees(t);
    ValidHasTwoDigitFields(c);
    YearAfterEpoch(t.seconds, c);
    YearBefore2107(t.seconds, c);
    FormatLength(c);
  }

  // ---------------------------------------------------------------------
  // Conversions
  // ---------------------------------------------------------------------

  /** `From<UnixTime32> for UnixTime`: every 32-bit time widens. */
  function FromUnixTime32(t: UnixTime32): (r: UnixTime)
    ensures r.seconds == t.seconds
  {
    UnixTime(t.seconds)
  }

  /** `TryFrom<UnixTime> for UnixTime32`: `u32::try_from` of the seconds. */
  function TryFromUnixTime(t: UnixTime): (r: Result<UnixTime32, TryFromIntError>)
    ensures r.Ok? <==> 0 <= t.seconds <= U32_MAX
    ensures r.Ok? ==> r.value.seconds == t.seconds
  {
    if 0 <= t.seconds <= U32_MAX then Ok(UnixTime32(t.seconds)) else Err(TryFromIntError)
  }

  /** Narrowing a widened time gives it back, and widening a narrowed time too. */
  lemma NarrowWidenRoundTrip(t32: UnixTime32, t: UnixTime)
    ensures TryFromUnixTime(FromUnixTime32(t32)) == Ok(t32)
    ensures TryFromUnixTime(t).Ok? ==> FromUnixTime32(TryFromUnixTime(t).value) == t
  {
  }

  /** `From<i64 | i32 | i16 | i8 | u32 | u16 | u8> for UnixTime`: every such value fits in `i64`. */
  function FromSeconds(seconds: i64): (r: UnixTime)
    ensures r.seconds == seconds
  {
    UnixTime(seconds)
  }

  /** `TryFrom<u64 | u128 | usize | i128 | isize> for UnixTime`: `i64::try_from` of the value. */
  function TryFromSeconds(n: int): (r: Result<UnixTime, TryFromIntError>)
    ensures r.Ok? <==> I64_MIN <= n <= I64_MAX
    ensures r.Ok? ==> r.value.seconds == n
  {
    if I64_MIN <= n <= I64_MAX then Ok(UnixTime(n)) else Err(TryFromIntError)
  }

  /** `From<u32 | u16 | u8> for UnixTime32`. */
  function FromSeconds32(seconds: u32): (r: UnixTime32)
    ensures r.seconds == seconds
  {
    UnixTime32(seconds)
  }

  /** `TryFrom<u64 | u128 | usize | i8 | .. | isize> for UnixTime32`: `u32::try_from` of the value. */
  function TryFromSeconds32(n: int): (r: Result<UnixTime32, TryFromIntError>)
    ensures r.Ok? <==> 0 <= n <= U32_MAX
    ensures r.Ok? ==> r.value.seconds == n
  {
    if 0 <= n <= U32_MAX then Ok(UnixTime32(n)) else Err(TryFromIntError)
  }

  /** The infallible and fallible conversions agree wherever both apply. */
  lemma ConversionsAgree(seconds: i64, seconds32: u32)
    ensures TryFromSeconds(seconds) == Ok(FromSeconds(seconds))
    ensures TryFromSeconds32(seconds32) == Ok(FromSeconds32(seconds32))
  {
  }

  /** Converting an integer to `UnixTime32` directly is the same as going through `UnixTime`. */
  lemma TryFromThroughUnixTime(n: int)
    ensures TryFromSeconds32(n) == match TryFromSeconds(n)
                                   case Ok(t) => TryFromUnixTime(t)
                                   case Err(e) => Err(e)
  {
  }

  // ---------------------------------------------------------------------
  // The documented examples
  // ---------------------------------------------------------------------

  /** `Display` writes out whatever `to_ymdhms` returns. */
  lemma DisplayOf(t: UnixTime, c: DateTime)
    requires ToYmdhms(t) == Ok(c)
    ensures Display(t) == Ok(Format(c))
  {
  }

  /** `Display` for `UnixTime32` writes out whatever its `to_ymdhms` returns. */
  lemma Display32Of(t: UnixTime32, c: DateTime)
    requires ToYmdhms32(t) == Ok(c)
    ensures Display32(t) == Ok(Format(c))
  {
  }

  /** `c` is the date and time `year-month-day hour:minute:second`. */
  predicate Shows(c: DateTime, year: int, month: int, day: int, hour: int, minute: int, second: int)
  {
    c.year == year && c.month == month && c.day == day && c.hour == hour && c.minute == minute && c.second == second
  }

  /** A four-digit number padded to four places is its four digits. */
  lemma FourDigits(n: int)
    requires 1000 <= n < 10000
    ensures PadInt(n, 4) == [DigitChar(n / 1000), DigitChar(n / 100 % 10), DigitChar(n / 10 % 10), DigitChar(n % 10)]
  {
    assert n / 10 / 10 == n / 100 && n / 100 / 10 == n / 1000;
    assert Decimal(n / 1000) == [DigitChar(n / 1000)];
    assert Decimal(n / 100) == Decimal(n / 1000) + [DigitChar(n / 100 % 10)];
    assert Decimal(n / 10) == Decimal(n / 100) + [DigitChar(n / 10 % 10)];
    assert Decimal(n) == Decimal(n / 10) + [DigitChar(n % 10)];
  }

  /** A number below 100 padded to two places is its tens and units digits. */
  lemma TwoDigitsOf(n: int)
    requires 0 <= n < 100
    ensures PadInt(n, 2) == [DigitChar(n / 10), DigitChar(n % 10)]
  {
    if n < 10 {
      assert Decimal(n) == [DigitChar(n)];
      assert PadNat(n, 2) == Zeros(1) + Decimal(n);
    } else {
      assert Decimal(n) == Decimal(n / 10) + [DigitChar(n % 10)];
    }
  }

  /** The layout spelled out digit by digit, for a four-digit year and two-digit fields. */
  function DigitLayout(y: int, mo: int, d: int, h: int, mi: int, se: int): string
    requires 1000 <= y < 10000
    requires 0 <= mo < 100 && 0 <= d < 100 && 0 <= h < 100 && 0 <= mi < 100 && 0 <= se < 100
  {
    [DigitChar(y / 1000), DigitChar(y / 100 % 10), DigitChar(y / 10 % 10), DigitChar(y % 10), '-',
     DigitChar(mo / 10), DigitChar(mo % 10), '-', DigitChar(d / 10), DigitChar(d % 10), '_',
     DigitChar(h / 10), DigitChar(h % 10), ':', DigitChar(mi / 10), DigitChar(mi % 10), ':',
     DigitChar(se / 10), DigitChar(se % 10)]
  }

  /** Nineteen characters from the pieces of the layout. */
  lemma JoinPieces(y: string, mo: string, d: string, h: string, mi: string, se: string)
    requires |y| == 4 && |mo| == 2 && |d| == 2 && |h| == 2 && |mi| == 2 && |se| == 2
    ensures y + "-" + mo + "-" + d + "_" + h + ":" + mi + ":" + se
         == [y[0], y[1], y[2], y[3], '-', mo[0], mo[1], '-', d[0], d[1], '_', h[0], h[1], ':', mi[0], mi[1], ':', se[0], se[1]]
  {
  }

  /** With a four-digit year and two-digit fields, the layout is the digits of each field in place. */
  lemma FormatDigits(c: DateTime)
    requires 1000 <= c.year < 10000 && TwoDigitFields(c)
    ensures Format(c) == DigitLayout(c.year, c.month, c.day, c.hour, c.minute, c.second)
  {
    FourDigits(c.year);
    TwoDigitsOf(c.month);
    TwoDigitsOf(c.day);
    TwoDigitsOf(c.hour);
    TwoDigitsOf(c.minute);
    TwoDigitsOf(c.second);
    JoinPieces(PadInt(c.year, 4), PadInt(c.month, 2), PadInt(c.day, 2), PadInt(c.hour, 2), PadInt(c.minute, 2), PadInt(c.second, 2));
  }

  // The spelled-out layouts of the documented examples. The fields are
  // parameters fixed by `requires`, not literals, so that the verifier does
  // not unfold the digit functions on constants before it needs them.

  lemma SpellEpoch(y: int, mo: int, d: int, h: int, mi: int, se: int)
    requires y == 1970 && mo == 1 && d == 1 && h == 0 && mi == 0 && se == 0
    ensures DigitLayout(y, mo, d, h, mi, se) == "1970-01-01_00:00:00"
  {
  }

  lemma SpellOneSecond(y: int, mo: int, d: int, h: int, mi: int, se: int)
    requires y == 1970 && mo == 1 && d == 1 && h == 0 && mi == 0 && se == 1
    ensures DigitLayout(y, mo, d, h, mi, se) == "1970-01-01_00:00:01"
  {
  }

  lemma SpellLastSecondOf1969(y: int, mo: int, d: int, h: int, mi: int, se: int)
    requires y == 1969 && mo == 12 && d == 31 && h == 23 && mi == 59 && se == 59
    ensures DigitLayout(y, mo, d, h, mi, se) == "1969-12-31_23:59:59"
  {
  }

  lemma SpellI32Max(y: int, mo: int, d: int, h: int, mi: int, se: int)
    requires y == 2038 && mo == 1 && d == 19 && h == 3 && mi == 14 && se == 7
    ensures DigitLayout(y, mo, d, h, mi, se) == "2038-01-19_03:14:07"
  {
  }

  lemma SpellU32Max(y: int, mo: int, d: int, h: int, mi: int, se: int)
    requires y == 2106 && mo == 2 && d == 7 && h == 6 && mi == 28 && se == 15
    ensures DigitLayout(y, mo, d, h, mi, se) == "2106-02-07_06:28:15"
  {
  }

  lemma SpellMinusU32Max(y: int, mo: int, d: int, h: int, mi: int, se: int)
    requires y == 1833 && mo == 11 && d == 24 && h == 17 && mi == 31 && se == 45
    ensures DigitLayout(y, mo, d, h, mi, se) == "1833-11-24_17:31:45"
  {
  }

  /** After the epoch, a date before 29 February whose seconds are `s` is what `to_ymdhms` and `Display` give. */
  lemma AfterEpochExample(s: int, c: DateTime)
    requires 0 <= s <= I64_MAX && Valid(c) && SecondsFromCivil(c) == s
    requires c.year < I32_MAX && DayOfYear(c) < 59
    ensures ToYmdhms(UnixTime(s)) == Ok(c)
    ensures Display(UnixTime(s)) == Ok(Format(c))
  {
    CivilOf(s, c);
    ToYmdhmsAfterEpoch(s);
    DisplayOf(UnixTime(s), c);
  }

  /** In a common year, a date whose seconds fit in 32 bits is what the 32-bit `to_ymdhms` and `Display` give. */
  lemma CommonYear32Example(s: int, c: DateTime)
    requires 0 <= s <= U32_MAX && Valid(c) && SecondsFromCivil(c) == s
    requires !Months.IsLeapYear(c.year)
    ensures ToYmdhms32(UnixTime32(s)) == Ok(c)
    ensures Display32(UnixTime32(s)) == Ok(Format(c))
  {
    CivilOf(s, c);
    ToYmdhms32Agrees(UnixTime32(s));
    Display32Of(UnixTime32(s), c);
  }

  /** A time of the first minute after the epoch, as the 64-bit and 32-bit conversions and displays give it. */
  lemma FirstMinute(s: int, c: DateTime)
    requires 0 <= s < 60
    requires c.year == 1970 && c.month == 1 && c.day == 1 && c.hour == 0 && c.minute == 0 && c.second == s
    ensures ToYmdhms(UnixTime(s)) == Ok(c) && Display(UnixTime(s)) == Ok(Format(c))
    ensures ToYmdhms32(UnixTime32(s)) == Ok(c) && Display32(UnixTime32(s)) == Ok(Format(c))
  {
    DaysBeforeYearIs(c.year, 0);
    assert Valid(c) && SecondsFromCivil(c) == s && DayOfYear(c) == 0;
    AfterEpochExample(s, c);
    CommonYear32Example(s, c);
  }

  lemma I32MaxDate(c: DateTime)
    requires Shows(c, 2038, 1, 19, 3, 14, 7)
    ensures Valid(c) && SecondsFromCivil(c) == I32_MAX && DayOfYear(c) == 18 && !Months.IsLeapYear(c.year)
  {
    DaysBeforeYearIs(c.year, 24837);
  }

  lemma U32MaxDate(c: DateTime)
    requires Shows(c, 2106, 2, 7, 6, 28, 15)
    ensures Valid(c) && SecondsFromCivil(c) == U32_MAX && DayOfYear(c) == 37 && !Months.IsLeapYear(c.year)
  {
    DaysBeforeYearIs(c.year, 49673);
  }

  /** One second after the epoch. */
  lemma OneSecondAfterEpoch(s: int, c: DateTime)
    requires s == 1 && Shows(c, 1970, 1, 1, 0, 0, 1)
    ensures ToYmdhms(UnixTime(s)) == Ok(c)
    ensures Display(UnixTime(s)) == Ok("1970-01-01_00:00:01")
  {
    FirstMinute(c.second, c);
    FormatDigits(c);
    SpellOneSecond(c.year, c.month, c.day, c.hour, c.minute, c.second);
  }

  /** One second before the epoch. */
  lemma OneSecondBeforeEpoch(s: int, c: DateTime)
    requires s == -1 && Shows(c, 1969, 12, 31, 23, 59, 59)
    ensures ToYmdhms(UnixTime(s)) == Ok(c)
    ensures Display(UnixTime(s)) == Ok("1969-12-31_23:59:59")
  {
    LateDecember1969(s, c);
    FormatDigits(c);
    SpellLastSecondOf1969(c.year, c.month, c.day, c.hour, c.minute, c.second);
  }

  /** A time of December 1969 off the minute, through the mirrored loops. */
  lemma LateDecember1969(s: int, c: DateTime)
    requires c.year == 1969 && c.month == 12 && 1 <= c.day <= 31
    requires 0 <= c.hour < 24 && 0 <= c.minute < 60 && 1 <= c.second < 60
    requires s == 86400 * (c.day - 32) + c.hour * 3600 + c.minute * 60 + c.second
    ensures ToYmdhms(UnixTime(s)) == Ok(c) && Display(UnixTime(s)) == Ok(Format(c))
  {
    December1969Fields(s, c);
    ToYmdhmsDecember1969(s);
    CivilOf(s, c);
    DisplayOf(UnixTime(s), c);
  }

  /** Such a time is a valid date, `s` seconds from the epoch, and not on the minute. */
  lemma December1969Fields(s: int, c: DateTime)
    requires c.year == 1969 && c.month == 12 && 1 <= c.day <= 31
    requires 0 <= c.hour < 24 && 0 <= c.minute < 60 && 1 <= c.second < 60
    requires s == 86400 * (c.day - 32) + c.hour * 3600 + c.minute * 60 + c.second
    ensures Valid(c) && SecondsFromCivil(c) == s
    ensures -31 * 86400 < s < 0 && s % 60 != 0
  {
    var k := 1440 * (c.day - 32) + c.hour * 60 + c.minute;
    assert s == 60 * k + c.second;
    assert s % 60 == c.second;
    assert Months.Len(Months.ALL[11], false) == 31;
    December1969Seconds(c);
  }

  /** `i32::MAX` seconds: the last second a signed 32-bit count reaches. */
  lemma I32MaxSeconds(s: int, c: DateTime)
    requires s == I32_MAX && Shows(c, 2038, 1, 19, 3, 14, 7)
    ensures ToYmdhms(UnixTime(s)) == Ok(c)
    ensures Display(UnixTime(s)) == Ok("2038-01-19_03:14:07")
  {
    I32MaxDate(c);
    AfterEpochExample(s, c);
    FormatDigits(c);
    SpellI32Max(c.year, c.month, c.day, c.hour, c.minute, c.second);
  }

  /** `u32::MAX` seconds: the last second an unsigned 32-bit count reaches. */
  lemma U32MaxSeconds(s: int, c: DateTime)
    requires s == U32_MAX && Shows(c, 2106, 2, 7, 6, 28, 15)
    ensures ToYmdhms(UnixTime(s)) == Ok(c)
    ensures Display(UnixTime(s)) == Ok("2106-02-07_06:28:15")
  {
    U32MaxDate(c);
    AfterEpochExample(s, c);
    FormatDigits(c);
    SpellU32Max(c.year, c.month, c.day, c.hour, c.minute, c.second);
  }

  /** The mirrored year loop from `u32::MAX` seconds before the epoch stops in 1833. */
  lemma MinusU32MaxYearLoop(x: int)
    requires x == U32_MAX
    ensures YearLoop(x, 1969, false, false) == Ok((3220095, 1833, false))
  {
    DaysBeforeYearIs(1834, -49673);
    DaysBeforeYearIs(1970, 0);
    YearLoopBackward(x, 1969, 1833);
  }

  /** The mirrored tail for what the year loop leaves of `u32::MAX` seconds before the epoch. */
  lemma MinusU32MaxTail(left: int, c: DateTime)
    requires left == 3220095 && Shows(c, 1833, 11, 24, 17, 31, 45)
    ensures Finish(left, 1833, false, false) == Ok(c)
  {
    var rest := 541695;
    assert Months.DaysBefore(1, false) == 31 && Months.DaysBefore(2, false) == 59;
    MonthLoopFromJanuary(left, false, 1);
    FinishTail(left, 1833, false, false, rest, Months.February);
    FieldsSplit(rest, 6, 6, 28, 15);
    assert Months.Len(Months.PreviousNth(Months.December, 1), false) == 30;
    TailMirrored(rest, Months.February, 1833, false, 6, 6, 28, 15);
  }

  /** As many seconds before the epoch: the mirrored loops, which happen to be right here. */
  lemma MinusU32MaxSeconds(s: int, c: DateTime)
    requires s == -U32_MAX && Shows(c, 1833, 11, 24, 17, 31, 45)
    ensures ToYmdhms(UnixTime(s)) == Ok(c)
    ensures Display(UnixTime(s)) == Ok("1833-11-24_17:31:45")
  {
    MinusU32MaxYearLoop(-s);
    ToYmdhmsBackwardSplits(s, 3220095, 1833, false);
    MinusU32MaxTail(3220095, c);
    DisplayOf(UnixTime(s), c);
    FormatDigits(c);
    SpellMinusU32Max(c.year, c.month, c.day, c.hour, c.minute, c.second);
  }

  /** `UnixTime32` at the epoch and at `u32::MAX`. */
  lemma UnixTime32Display(zero: int, u32Max: int, c0: DateTime, c1: DateTime)
    requires zero == 0 && Shows(c0, 1970, 1, 1, 0, 0, 0)
    requires u32Max == U32_MAX && Shows(c1, 2106, 2, 7, 6, 28, 15)
    ensures Display32(UnixTime32(zero)) == Ok("1970-01-01_00:00:00")
    ensures Display32(UnixTime32(u32Max)) == Ok("2106-02-07_06:28:15")
  {
    FirstMinute(c0.second, c0);
    FormatDigits(c0);
    SpellEpoch(c0.year, c0.month, c0.day, c0.hour, c0.minute, c0.second);
    U32MaxDate(c1);
    CommonYear32Example(u32Max, c1);
    FormatDigits(c1);
    SpellU32Max(c1.year, c1.month, c1.day, c1.hour, c1.minute, c1.second);
  }

  /** `UnixTime32::to_ymdhms` one second after the epoch and at `i32::MAX`. */
  lemma UnixTime32Fields(one: int, i32Max: int, c0: DateTime, c1: DateTime)
    requires one == 1 && Shows(c0, 1970, 1, 1, 0, 0, 1)
    requires i32Max == I32_MAX && Shows(c1, 2038, 1, 19, 3, 14, 7)
    ensures ToYmdhms32(UnixTime32(one)) == Ok(c0)
    ensures ToYmdhms32(UnixTime32(i32Max)) == Ok(c1)
  {
    FirstMinute(c0.second, c0);
    I32MaxDate(c1);
    CommonYear32Example(i32Max, c1);
  }
}
