/**
 * The proleptic Gregorian calendar on integer seconds since
 * 1970-01-01 00:00:00 UTC: a reference conversion from a date and time to
 * seconds, and its inverse, with both round trips proved. The Unix-time
 * conversions are measured against it.
 */
module Civil {

  import opened Numeric
  import Months

  /** `(year, month, day, hour, minute, second)` as the conversions return it. */
  datatype DateTime = DateTime(year: int, month: int, day: int, hour: int, minute: int, second: int)

  /** A real calendar date and a time of day without leap seconds. */
  predicate Valid(c: DateTime)
  {
    && 1 <= c.month <= 12
    && 1 <= c.day <= Months.Len(Months.ALL[c.month - 1], Months.IsLeapYear(c.year))
    && 0 <= c.hour < 24 && 0 <= c.minute < 60 && 0 <= c.second < 60
  }

  function YearDays(y: int): (n: nat)
    ensures n == 365 || n == 366
    ensures n == 366 <==> Months.IsLeapYear(y)
  {
    if Months.IsLeapYear(y) then 366 else 365
  }

  /**
   * Days from 1970-01-01 to 1 January of `y` (negative before 1970), by
   * adding or removing whole years; `DaysBeforeYearClosed` gives the
   * closed form.
   */
  function DaysBeforeYear(y: int): int
    decreases if y >= 1970 then y - 1970 else 1970 - y
  {
    if y == 1970 then 0
    else if y > 1970 then DaysBeforeYear(y - 1) + YearDays(y - 1)
    else DaysBeforeYear(y + 1) - YearDays(y)
  }

  /** Each year contributes its own length. */
  lemma DaysBeforeYearStep(y: int)
    ensures DaysBeforeYear(y + 1) == DaysBeforeYear(y) + YearDays(y)
  {
  }

  /** `y/4 - y/100 + y/400` with floor division: the count of leap years up to `y`, up to a constant. */
  function LeapsThrough(y: int): int
  {
    y / 4 - y / 100 + y / 400
  }

  lemma DivStep(y: int, k: int)
    requires k > 0
    ensures y / k - (y - 1) / k == (if y % k == 0 then 1 else 0)
  {
    var q, r := y / k, y % k;
    assert y == q * k + r;
    if r > 0 {
      DivModUnique(y - 1, q, r - 1, k);
    } else {
      assert y - 1 == (q - 1) * k + (k - 1);
      DivModUnique(y - 1, q - 1, k - 1, k);
    }
  }

  lemma LeapStep(y: int)
    ensures LeapsThrough(y) - LeapsThrough(y - 1) == (if Months.IsLeapYear(y) then 1 else 0)
  {
    DivStep(y, 4);
    DivStep(y, 100);
    DivStep(y, 400);
    if y % 400 == 0 {
      var q := y / 400;
      DivModUnique(y, 4 * q, 0, 100);
      DivModUnique(y, 100 * q, 0, 4);
    } else if y % 100 == 0 {
      var q := y / 100;
      DivModUnique(y, 25 * q, 0, 4);
    }
  }

  /** The day count in closed form: 365 days a year plus one per leap year. */
  lemma {:induction false} DaysBeforeYearClosed(y: int)
    ensures DaysBeforeYear(y) == 365 * (y - 1970) + LeapsThrough(y - 1) - LeapsThrough(1969)
    decreases if y >= 1970 then y - 1970 else 1970 - y
  {
    if y > 1970 {
      DaysBeforeYearClosed(y - 1);
      LeapStep(y - 1);
    } else if y < 1970 {
      DaysBeforeYearClosed(y + 1);
      LeapStep(y);
    }
  }

  /** The closed form, for a year and a day count given as values rather than computed year by year. */
  lemma DaysBeforeYearIs(y: int, days: int)
    requires days == 365 * (y - 1970) + LeapsThrough(y - 1) - LeapsThrough(1969)
    ensures DaysBeforeYear(y) == days
  {
    DaysBeforeYearClosed(y);
  }

  lemma {:induction false} DaysBeforeYearMonotone(a: int, b: int)
    requires a <= b
    ensures DaysBeforeYear(a) + 365 * (b - a) <= DaysBeforeYear(b)
    decreases b - a
  {
    if a < b {
      DaysBeforeYearMonotone(a, b - 1);
      DaysBeforeYearStep(b - 1);
    }
  }

  lemma YearLengthAgrees(y: int)
    ensures Months.DaysBefore(12, Months.IsLeapYear(y)) == YearDays(y)
  {
    Months.YearLength();
  }

  lemma {:induction false} DaysBeforeMonotone(i: nat, j: nat, leap: bool)
    requires i <= j <= 12
    ensures Months.DaysBefore(i, leap) + 28 * (j - i) <= Months.DaysBefore(j, leap)
    decreases j - i
  {
    if i < j {
      DaysBeforeMonotone(i, j - 1, leap);
    }
  }

  /** Zero-based day within the year. */
  function DayOfYear(c: DateTime): int
    requires 1 <= c.month <= 12
  {
    Months.DaysBefore(c.month - 1, Months.IsLeapYear(c.year)) + c.day - 1
  }

  /** The reference direction: a date and time as seconds since the epoch, at 86400 seconds a day. */
  function SecondsFromCivil(c: DateTime): int
    requires 1 <= c.month <= 12
  {
    (DaysBeforeYear(c.year) + DayOfYear(c)) * 86400 + c.hour * 3600 + c.minute * 60 + c.second
  }

  function YearUp(days: int, y: int): (r: int)
    requires DaysBeforeYear(y) <= days
    ensures y <= r
    ensures DaysBeforeYear(r) <= days < DaysBeforeYear(r + 1)
    decreases days - DaysBeforeYear(y)
  {
    DaysBeforeYearStep(y);
    if days < DaysBeforeYear(y + 1) then y else YearUp(days, y + 1)
  }

  function YearDown(days: int, y: int): (r: int)
    requires days < DaysBeforeYear(y + 1)
    ensures r <= y
    ensures DaysBeforeYear(r) <= days < DaysBeforeYear(r + 1)
    decreases DaysBeforeYear(y + 1) - days
  {
    DaysBeforeYearStep(y);
    if DaysBeforeYear(y) <= days then y else YearDown(days, y - 1)
  }

  /** The year holding day number `days`, searching forward or backward from 1970. */
  function YearOfDay(days: int): (y: int)
    ensures DaysBeforeYear(y) <= days < DaysBeforeYear(y + 1)
  {
    assert DaysBeforeYear(1970) == 0;
    DaysBeforeYearStep(1969);
    if days >= 0 then YearUp(days, 1970) else YearDown(days, 1969)
  }

  lemma YearUnique(days: int, a: int, b: int)
    requires DaysBeforeYear(a) <= days < DaysBeforeYear(a + 1)
    requires DaysBeforeYear(b) <= days < DaysBeforeYear(b + 1)
    ensures a == b
  {
    if a < b {
      DaysBeforeYearMonotone(a + 1, b);
    } else if b < a {
      DaysBeforeYearMonotone(b + 1, a);
    }
  }

  /** The month index holding day-of-year `doy`, searching from month index `i`. */
  function MonthIndexFrom(doy: int, leap: bool, i: nat): (r: nat)
    requires i < 12
    requires Months.DaysBefore(i, leap) <= doy < Months.DaysBefore(12, leap)
    ensures i <= r < 12
    ensures Months.DaysBefore(r, leap) <= doy < Months.DaysBefore(r + 1, leap)
    decreases 12 - i
  {
    if doy < Months.DaysBefore(i + 1, leap) then i else MonthIndexFrom(doy, leap, i + 1)
  }

  lemma MonthUnique(doy: int, leap: bool, a: nat, b: nat)
    requires a < 12 && b < 12
    requires Months.DaysBefore(a, leap) <= doy < Months.DaysBefore(a + 1, leap)
    requires Months.DaysBefore(b, leap) <= doy < Months.DaysBefore(b + 1, leap)
    ensures a == b
  {
    if a < b {
      DaysBeforeMonotone(a + 1, b, leap);
    } else if b < a {
      DaysBeforeMonotone(b + 1, a, leap);
    }
  }

  /** Zero-based day `doy` of year `y` as `(year, month, day)`. */
  function DateInYear(y: int, doy: int): (r: (int, int, int))
    requires 0 <= doy < YearDays(y)
    ensures r.0 == y
    ensures 1 <= r.1 <= 12
    ensures 1 <= r.2 <= Months.Len(Months.ALL[r.1 - 1], Months.IsLeapYear(y))
    ensures Months.DaysBefore(r.1 - 1, Months.IsLeapYear(y)) + r.2 - 1 == doy
  {
    var leap := Months.IsLeapYear(y);
    YearLengthAgrees(y);
    assert Months.DaysBefore(0, leap) == 0;
    var i := MonthIndexFrom(doy, leap, 0);
    assert Months.DaysBefore(i + 1, leap) == Months.DaysBefore(i, leap) + Months.Len(Months.ALL[i], leap);
    (y, i + 1, doy - Months.DaysBefore(i, leap) + 1)
  }

  /** Day number `days` (0 is 1970-01-01) as `(year, month, day)`. */
  function CivilDate(days: int): (r: (int, int, int))
    ensures 1 <= r.1 <= 12
    ensures 1 <= r.2 <= Months.Len(Months.ALL[r.1 - 1], Months.IsLeapYear(r.0))
    ensures DaysBeforeYear(r.0) + Months.DaysBefore(r.1 - 1, Months.IsLeapYear(r.0)) + r.2 - 1 == days
  {
    var y := YearOfDay(days);
    DaysBeforeYearStep(y);
    DateInYear(y, days - DaysBeforeYear(y))
  }

  /**
   * The conversion the Unix-time code intends: every second, before or
   * after the epoch, to a valid date and time that converts back to it.
   */
  function CivilFromSeconds(s: int): (c: DateTime)
    ensures Valid(c)
    ensures SecondsFromCivil(c) == s
  {
    var date := CivilDate(s / 86400);
    var time := ClockOf(s % 86400);
    DateTime(date.0, date.1, date.2, time.0, time.1, time.2)
  }

  /** Seconds into a day as `(hour, minute, second)`. */
  function ClockOf(tod: int): (r: (int, int, int))
    requires 0 <= tod < 86400
    ensures 0 <= r.0 < 24 && 0 <= r.1 < 60 && 0 <= r.2 < 60
    ensures r.0 * 3600 + r.1 * 60 + r.2 == tod
  {
    (tod / 3600, tod % 3600 / 60, tod % 3600 % 60)
  }

  /** Within one year, a day of the year names one month and day. */
  lemma DateUnique(leap: bool, m1: int, d1: int, m2: int, d2: int)
    requires 1 <= m1 <= 12 && 1 <= d1 <= Months.Len(Months.ALL[m1 - 1], leap)
    requires 1 <= m2 <= 12 && 1 <= d2 <= Months.Len(Months.ALL[m2 - 1], leap)
    requires Months.DaysBefore(m1 - 1, leap) + d1 == Months.DaysBefore(m2 - 1, leap) + d2
    ensures m1 == m2 && d1 == d2
  {
    var i: nat, j: nat := m1 - 1, m2 - 1;
    var doy := Months.DaysBefore(i, leap) + d1 - 1;
    assert Months.DaysBefore(i + 1, leap) == Months.DaysBefore(i, leap) + Months.Len(Months.ALL[i], leap);
    assert Months.DaysBefore(j + 1, leap) == Months.DaysBefore(j, leap) + Months.Len(Months.ALL[j], leap);
    MonthUnique(doy, leap, i, j);
  }

  /** The day of the year of a valid date lies within its year. */
  lemma DayOfYearBound(c: DateTime)
    requires Valid(c)
    ensures 0 <= DayOfYear(c) < YearDays(c.year)
  {
    var leap := Months.IsLeapYear(c.year);
    var j: nat := c.month - 1;
    assert Months.DaysBefore(j + 1, leap) == Months.DaysBefore(j, leap) + Months.Len(Months.ALL[j], leap);
    DaysBeforeMonotone(j + 1, 12, leap);
    YearLengthAgrees(c.year);
  }

  lemma DateInItsYear(y: int, m: int, d: int)
    requires 1 <= m <= 12 && 1 <= d <= Months.Len(Months.ALL[m - 1], Months.IsLeapYear(y))
    ensures 0 <= Months.DaysBefore(m - 1, Months.IsLeapYear(y)) + d - 1 < YearDays(y)
  {
    DayOfYearBound(DateTime(y, m, d, 0, 0, 0));
  }

  /** The day count of a valid date falls in that date's year. */
  lemma DaysInDateYear(c: DateTime, days: int)
    requires Valid(c) && days == DaysBeforeYear(c.year) + DayOfYear(c)
    ensures CivilDate(days).0 == c.year
  {
    var r := CivilDate(days);
    var y := r.0;
    DayOfYearBound(c);
    DaysBeforeYearStep(c.year);
    DateInItsYear(y, r.1, r.2);
    DaysBeforeYearStep(y);
    YearUnique(days, y, c.year);
  }

  lemma DateRoundTrip(c: DateTime, days: int)
    requires Valid(c) && days == DaysBeforeYear(c.year) + DayOfYear(c)
    ensures CivilDate(days) == (c.year, c.month, c.day)
  {
    var r := CivilDate(days);
    DaysInDateYear(c, days);
    SameDate(c, days, r.0, r.1, r.2);
  }

  /** A date of the same year and day count as a valid date is that date. */
  lemma SameDate(c: DateTime, days: int, y: int, m: int, d: int)
    requires Valid(c) && days == DaysBeforeYear(c.year) + DayOfYear(c)
    requires y == c.year && 1 <= m <= 12 && 1 <= d <= Months.Len(Months.ALL[m - 1], Months.IsLeapYear(y))
    requires DaysBeforeYear(y) + Months.DaysBefore(m - 1, Months.IsLeapYear(y)) + d - 1 == days
    ensures m == c.month && d == c.day
  {
    DateUnique(Months.IsLeapYear(c.year), m, d, c.month, c.day);
  }

  /** Every valid date and time is the conversion of its own seconds: the conversion is onto, and one-to-one. */
  lemma CivilRoundTrip(c: DateTime)
    requires Valid(c)
    ensures CivilFromSeconds(SecondsFromCivil(c)) == c
  {
    var days := DaysBeforeYear(c.year) + DayOfYear(c);
    var rest := c.minute * 60 + c.second;
    var tod := c.hour * 3600 + rest;
    var s := SecondsFromCivil(c);
    assert s == days * 86400 + tod;
    DivModUnique(s, days, tod, 86400);
    DivModUnique(tod, c.hour, rest, 3600);
    DivModUnique(rest, c.minute, c.second, 60);
    DateRoundTrip(c, days);
  }

  /** Whole days compare as the seconds they start. */
  lemma DayOfSecond(s: int, k: int)
    ensures 86400 * k <= s <==> k <= s / 86400
  {
    var d, r := s / 86400, s % 86400;
    assert s == 86400 * d + r;
    if k <= d {
      assert 86400 * k <= 86400 * d;
    } else {
      assert 86400 * k >= 86400 * (d + 1);
    }
  }

  /** A valid date and time whose second falls within year `y` is in year `y`. */
  lemma DateYear(c: DateTime, y: int)
    requires Valid(c)
    requires 86400 * DaysBeforeYear(y) <= SecondsFromCivil(c) < 86400 * DaysBeforeYear(y + 1)
    ensures c.year == y
  {
    var days := DaysBeforeYear(c.year) + DayOfYear(c);
    var tod := c.hour * 3600 + c.minute * 60 + c.second;
    assert SecondsFromCivil(c) == 86400 * days + tod;
    DayOfYearBound(c);
    DaysBeforeYearStep(c.year);
    assert DaysBeforeYear(y) <= days < DaysBeforeYear(y + 1);
    YearUnique(days, c.year, y);
  }

  /** A second that falls within year `y` converts to a date in year `y`. */
  lemma CivilYear(s: int, y: int)
    requires 86400 * DaysBeforeYear(y) <= s < 86400 * DaysBeforeYear(y + 1)
    ensures CivilFromSeconds(s).year == y
  {
    var c := CivilFromSeconds(s);
    var d := s / 86400;
    DayOfSecond(s, DaysBeforeYear(y));
    DayOfSecond(s, DaysBeforeYear(y + 1));
    assert DaysBeforeYear(y) <= d < DaysBeforeYear(y + 1);
    DayOfYearBound(c);
    DaysBeforeYearStep(c.year);
    var tod := c.hour * 3600 + c.minute * 60 + c.second;
    DivModUnique(s, DaysBeforeYear(c.year) + DayOfYear(c), tod, 86400);
    assert DaysBeforeYear(c.year) <= d < DaysBeforeYear(c.year + 1);
    YearUnique(d, c.year, y);
  }

  /** A valid date and time that names second `s` is the conversion of `s`. */
  lemma CivilOf(s: int, c: DateTime)
    requires Valid(c) && SecondsFromCivil(c) == s
    ensures CivilFromSeconds(s) == c
  {
    CivilRoundTrip(c);
  }
}
