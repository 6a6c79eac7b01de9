/**
 * The twelve months: their order, numbering, day counts, names and
 * abbreviations, and the case-insensitive parser that accepts any of them.
 */
module Months {

  import opened Numeric
  import opened Wrappers
  import opened Text

  datatype Month =
    | January | February | March | April | May | June
    | July | August | September | October | November | December

  /** `Month::index`: January is 0. */
  function Index(m: Month): (i: nat)
    ensures i < 12
  {
    match m
    case January => 0 case February => 1 case March => 2 case April => 3
    case May => 4 case June => 5 case July => 6 case August => 7
    case September => 8 case October => 9 case November => 10 case December => 11
  }

  /** Distinct months have distinct indices. */
  lemma IndexInjective(a: Month, b: Month)
    ensures Index(a) == Index(b) <==> a == b
  {
  }

  /** `Month::number`: January is 1. */
  function Number(m: Month): (n: nat)
    ensures 1 <= n <= 12
    ensures n == Index(m) + 1
  {
    Index(m) + 1
  }

  /** `Month::from_index`: the month with index `n`, or an error outside 0..11. */
  function FromIndex(n: u8): (r: Result<Month, string>)
    ensures r.Ok? <==> n <= 11
    ensures r.Ok? ==> Index(r.value) == n
    ensures r.Err? ==> r.error == "The month index must be between 0 and 11."
  {
    match n
    case 0 => Ok(January) case 1 => Ok(February) case 2 => Ok(March) case 3 => Ok(April)
    case 4 => Ok(May) case 5 => Ok(June) case 6 => Ok(July) case 7 => Ok(August)
    case 8 => Ok(September) case 9 => Ok(October) case 10 => Ok(November) case 11 => Ok(December)
    case _ => Err("The month index must be between 0 and 11.")
  }

  /** `Month::from_number`: the month with number `n`, or an error outside 1..12. */
  function FromNumber(n: u8): (r: Result<Month, string>)
    ensures r.Ok? <==> 1 <= n <= 12
    ensures r.Ok? ==> Number(r.value) == n
    ensures r.Err? ==> r.error == "The month number must be between 1 and 12."
  {
    match n
    case 1 => Ok(January) case 2 => Ok(February) case 3 => Ok(March) case 4 => Ok(April)
    case 5 => Ok(May) case 6 => Ok(June) case 7 => Ok(July) case 8 => Ok(August)
    case 9 => Ok(September) case 10 => Ok(October) case 11 => Ok(November) case 12 => Ok(December)
    case _ => Err("The month number must be between 1 and 12.")
  }

  /** Index and number conversions are inverse to the month's own index and number. */
  lemma IndexNumberRoundTrip(m: Month)
    ensures FromIndex(Index(m)) == Ok(m)
    ensures FromNumber(Number(m)) == Ok(m)
  {
    IndexInjective(FromIndex(Index(m)).value, m);
    IndexInjective(FromNumber(Number(m)).value, m);
  }

  /** `Month::next`: December wraps to January. */
  function Next(m: Month): (r: Month)
    ensures Index(r) == (Index(m) + 1) % 12
  {
    match m
    case January => February case February => March case March => April
    case April => May case May => June case June => July case July => August
    case August => September case September => October case October => November
    case November => December case December => January
  }

  /** `Month::previous`: January wraps to December. */
  function Previous(m: Month): (r: Month)
    ensures Index(r) == (Index(m) + 11) % 12
  {
    match m
    case January => December case February => January case March => February
    case April => March case May => April case June => May case July => June
    case August => July case September => August case October => September
    case November => October case December => November
  }

  /** Stepping forward then back, or back then forward, returns to the month. */
  lemma NextPreviousInverse(m: Month)
    ensures Previous(Next(m)) == m
    ensures Next(Previous(m)) == m
  {
    IndexInjective(Previous(Next(m)), m);
    IndexInjective(Next(Previous(m)), m);
  }

  /** `Month::previous_nth`: `n` steps back. */
  function PreviousNth(m: Month, n: nat): (r: Month)
    decreases n
  {
    if n == 0 then m else PreviousNth(Previous(m), n - 1)
  }

  /** Stepping back `n` months subtracts `n` from the index, modulo 12. */
  lemma {:induction false} PreviousNthIndex(m: Month, n: nat)
    ensures Index(PreviousNth(m, n)) == (Index(m) - n) % 12
    decreases n
  {
    if n > 0 {
      PreviousNthIndex(Previous(m), n - 1);
      assert (Index(Previous(m)) - (n - 1)) % 12 == (Index(m) - n) % 12 by {
        assert Index(Previous(m)) == (Index(m) + 11) % 12;
        ModAddReduced(Index(m) + 11, -(n - 1), 12);
        assert Index(m) + 11 - (n - 1) == (Index(m) - n) + 12;
        ModAddMultiple(Index(m) - n, 1, 12);
      }
    }
  }

  /** `n` steps forward with `Month::next`. */
  function NextNth(m: Month, n: nat): (r: Month)
    decreases n
  {
    if n == 0 then m else NextNth(Next(m), n - 1)
  }

  /** Stepping forward `n` months adds `n` to the index, modulo 12. */
  lemma {:induction false} NextNthIndex(m: Month, n: nat)
    ensures Index(NextNth(m, n)) == (Index(m) + n) % 12
    decreases n
  {
    if n > 0 {
      NextNthIndex(Next(m), n - 1);
      ModAddReduced(Index(m) + 1, n - 1, 12);
    }
  }

  /** Twelve steps from any month, back or forward, come back to it. */
  lemma PreviousTwelve(m: Month)
    ensures PreviousNth(m, 12) == m
    ensures NextNth(m, 12) == m
  {
    PreviousNthIndex(m, 12);
    ModAddMultiple(Index(m), -1, 12);
    IndexInjective(PreviousNth(m, 12), m);
    NextNthIndex(m, 12);
    ModAddMultiple(Index(m), 1, 12);
    IndexInjective(NextNth(m, 12), m);
  }

  /** `n` steps back undo `n` steps forward. */
  lemma StepsBackUndoSteps(m: Month, n: nat)
    ensures PreviousNth(NextNth(m, n), n) == m
  {
    NextNthIndex(m, n);
    PreviousNthIndex(NextNth(m, n), n);
    ModAddReduced(Index(m) + n, -(n as int), 12);
    IndexInjective(PreviousNth(NextNth(m, n), n), m);
  }

  /** `Month::days`: the length of the month in a common year. */
  function Days(m: Month): (d: nat)
    ensures 28 <= d <= 31
    ensures d == 28 <==> m == February
    ensures d == 30 <==> m in {April, June, September, November}
  {
    match m
    case January => 31 case February => 28 case March => 31 case April => 30
    case May => 31 case June => 30 case July => 31 case August => 31
    case September => 30 case October => 31 case November => 30 case December => 31
  }

  /** The proleptic Gregorian leap-year rule. */
  predicate IsLeapYear(year: int)
  {
    (year % 4 == 0 && year % 100 != 0) || year % 400 == 0
  }

  /** `Month::len`: the length of the month, February having 29 days in a leap year. */
  function Len(m: Month, leap: bool): (d: nat)
    ensures d == Days(m) + (if leap && m == February then 1 else 0)
  {
    if leap && m == February then 29 else Days(m)
  }

  /** The months in calendar order. */
  const ALL: seq<Month> := [January, February, March, April, May, June,
                            July, August, September, October, November, December]

  lemma AllInOrder()
    ensures |ALL| == 12
    ensures forall i :: 0 <= i < 12 ==> Index(ALL[i]) == i
  {
  }

  /** The month at index `k` of the calendar order is numbered `k + 1`. */
  lemma NumberOfAll(k: nat)
    ensures k < 12 ==> Number(ALL[k]) == k + 1
  {
    AllInOrder();
  }

  /** `next` walks the calendar order. */
  lemma NextInOrder(i: nat)
    requires i < 11
    ensures Next(ALL[i]) == ALL[i + 1]
  {
    AllInOrder();
    IndexInjective(Next(ALL[i]), ALL[i + 1]);
  }

  /** The days of the months before month index `i`. */
  function DaysBefore(i: nat, leap: bool): (d: nat)
    requires i <= 12
  {
    if i == 0 then 0 else DaysBefore(i - 1, leap) + Len(ALL[i - 1], leap)
  }

  /** A common year has 365 days, a leap year 366. */
  lemma YearLength()
    ensures DaysBefore(12, false) == 365
    ensures DaysBefore(12, true) == 366
  {
    assert DaysBefore(3, false) == 90 && DaysBefore(3, true) == 91;
    assert DaysBefore(6, false) == 181 && DaysBefore(6, true) == 182;
    assert DaysBefore(9, false) == 273 && DaysBefore(9, true) == 274;
  }

  /** `Month::abbr3`: three letters, UpperCamelCase. */
  function Abbr3(m: Month): (s: string)
    ensures |s| == 3
  {
    match m
    case January => "Jan" case February => "Feb" case March => "Mar" case April => "Apr"
    case May => "May" case June => "Jun" case July => "Jul" case August => "Aug"
    case September => "Sep" case October => "Oct" case November => "Nov" case December => "Dec"
  }

  /** `Month::abbr2`: two upper-case letters. */
  function Abbr2(m: Month): (s: string)
    ensures |s| == 2
  {
    match m
    case January => "JA" case February => "FE" case March => "MR" case April => "AP"
    case May => "MY" case June => "JN" case July => "JL" case August => "AU"
    case September => "SE" case October => "OC" case November => "NV" case December => "DE"
  }

  /** `Month::abbr1`: one upper-case letter, shared by June and November. */
  function Abbr1(m: Month): (s: string)
    ensures |s| == 1
  {
    match m
    case January => "J" case February => "F" case March => "M" case April => "P"
    case May => "Y" case June => "N" case July => "L" case August => "U"
    case September => "S" case October => "O" case November => "N" case December => "D"
  }

  /** `Display`: the full English name. */
  function Name(m: Month): (s: string)
    ensures 3 <= |s| <= 9
  {
    match m
    case January => "January" case February => "February" case March => "March"
    case April => "April" case May => "May" case June => "June" case July => "July"
    case August => "August" case September => "September" case October => "October"
    case November => "November" case December => "December"
  }

  /** Every three-letter abbreviation is the start of the full name. */
  lemma Abbr3IsPrefix(m: Month)
    ensures Abbr3(m) == Name(m)[..3]
  {
  }

  /** The one-letter abbreviations coincide only for June and November. */
  lemma Abbr1Collision(a: Month, b: Month)
    ensures Abbr1(a) == Abbr1(b) <==> a == b || {a, b} == {June, November}
  {
  }

  /** One tier of the parser: each month of `months` under the name `f` gives it. */
  function Tier(f: Month -> string, months: seq<Month>): (t: seq<(string, Month)>)
    ensures |t| == |months|
    ensures forall i :: 0 <= i < |t| ==> t[i] == (f(months[i]), months[i])
  {
    seq(|months|, i requires 0 <= i < |months| => (f(months[i]), months[i]))
  }

  /**
   * The names `FromStr` tries, in order: full names, three-letter
   * abbreviations (where "May" is not listed again), two-letter and
   * one-letter abbreviations.
   */
  function ParseTable(): (t: seq<(string, Month)>)
    ensures |t| == 47
  {
    Tier(Name, ALL) + Tier(Abbr3, ALL[..4] + ALL[5..]) + Tier(Abbr2, ALL) + Tier(Abbr1, ALL)
  }

  /** `Month::from_str`: the first table entry equal to `s` ignoring ASCII case. */
  function FromStr(s: string): (r: Result<Month, string>)
    ensures r.Err? <==> forall i :: 0 <= i < |ParseTable()| ==> !EqIgnoreAsciiCase(s, ParseTable()[i].0)
    ensures r.Err? ==> r.error == "Invalid month name."
  {
    match FirstMatch(s, ParseTable())
    case Some(m) => Ok(m)
    case None => Err("Invalid month name.")
  }

  /** Parsing ignores ASCII case: strings equal up to case parse alike. */
  lemma FromStrIgnoresCase(s: string, t: string)
    requires EqIgnoreAsciiCase(s, t)
    ensures FromStr(s) == FromStr(t)
  {
    FirstMatchIgnoresCase(s, t, ParseTable());
  }

  /** Full names are distinct even ignoring case. */
  lemma NamesDistinct(a: Month, b: Month)
    ensures EqIgnoreAsciiCase(Name(a), Name(b)) ==> a == b
  {
    if EqIgnoreAsciiCase(Name(a), Name(b)) {
      EqIgnoreAsciiCasePointwise(Name(a), Name(b));
      assert LowerAscii(Name(a)[0]) == LowerAscii(Name(b)[0]);
      assert LowerAscii(Name(a)[2]) == LowerAscii(Name(b)[2]);
    }
  }
  /** Three-letter abbreviations are distinct even ignoring case. */
  lemma Abbr3Distinct(a: Month, b: Month)
    ensures EqIgnoreAsciiCase(Abbr3(a), Abbr3(b)) ==> a == b
  {
    if EqIgnoreAsciiCase(Abbr3(a), Abbr3(b)) {
      EqIgnoreAsciiCasePointwise(Abbr3(a), Abbr3(b));
      assert LowerAscii(Abbr3(a)[0]) == LowerAscii(Abbr3(b)[0]);
      assert LowerAscii(Abbr3(a)[1]) == LowerAscii(Abbr3(b)[1]);
      assert LowerAscii(Abbr3(a)[2]) == LowerAscii(Abbr3(b)[2]);
    }
  }

  /** Two-letter abbreviations are distinct even ignoring case. */
  lemma Abbr2Distinct(a: Month, b: Month)
    ensures EqIgnoreAsciiCase(Abbr2(a), Abbr2(b)) ==> a == b
  {
    if EqIgnoreAsciiCase(Abbr2(a), Abbr2(b)) {
      EqIgnoreAsciiCasePointwise(Abbr2(a), Abbr2(b));
      assert LowerAscii(Abbr2(a)[0]) == LowerAscii(Abbr2(b)[0]);
      assert LowerAscii(Abbr2(a)[1]) == LowerAscii(Abbr2(b)[1]);
    }
  }

  /** One-letter abbreviations agree ignoring case only where they are equal. */
  lemma Abbr1Distinct(a: Month, b: Month)
    ensures EqIgnoreAsciiCase(Abbr1(a), Abbr1(b)) ==> a == b || {a, b} == {June, November}
  {
    if EqIgnoreAsciiCase(Abbr1(a), Abbr1(b)) {
      EqIgnoreAsciiCasePointwise(Abbr1(a), Abbr1(b));
      assert LowerAscii(Abbr1(a)[0]) == LowerAscii(Abbr1(b)[0]);
      assert Abbr1(a) == Abbr1(b);
      Abbr1Collision(a, b);
    }
  }

  /** A full name meets a three-letter abbreviation only for May. */
  lemma NameMeetsAbbr3(a: Month, b: Month)
    ensures EqIgnoreAsciiCase(Name(a), Abbr3(b)) ==> a == b == May
  {
    if EqIgnoreAsciiCase(Name(a), Abbr3(b)) {
      EqIgnoreAsciiCasePointwise(Name(a), Abbr3(b));
      assert a == May;
      assert LowerAscii(Abbr3(b)[0]) == 'm' && LowerAscii(Abbr3(b)[2]) == 'y';
    }
  }

  lemma AllIndex(m: Month)
    ensures ALL[Index(m)] == m
  {
  }

  /** Where each parser entry comes from. */
  lemma ParseTableEntry(j: nat)
    requires j < 47
    ensures j < 12 ==> ParseTable()[j] == (Name(ALL[j]), ALL[j])
    ensures 12 <= j < 23 ==> ParseTable()[j].0 == Abbr3(ParseTable()[j].1) && ParseTable()[j].1 != May
    ensures 23 <= j < 35 ==> ParseTable()[j] == (Abbr2(ALL[j - 23]), ALL[j - 23])
    ensures 35 <= j ==> ParseTable()[j] == (Abbr1(ALL[j - 35]), ALL[j - 35])
  {
    var others := ALL[..4] + ALL[5..];
    assert forall i :: 0 <= i < 11 ==> others[i] != May;
  }

  /** Any spelling of a full name, in any ASCII case, parses to its month. */
  lemma NameRoundTrip(s: string, m: Month)
    requires EqIgnoreAsciiCase(s, Name(m))
    ensures FromStr(s) == Ok(m)
  {
    var t := ParseTable();
    var i := Index(m);
    assert i < |t| && t[i].1 == m && EqIgnoreAsciiCase(Name(m), t[i].0) by {
      EqIgnoreAsciiCaseReflexive(Name(m));
      AllIndex(m);
      ParseTableEntry(i);
    }
    forall j | 0 <= j < |t| && EqIgnoreAsciiCase(Name(m), t[j].0)
      ensures t[j].1 == m
    {
      ParseTableEntry(j);
      if j < 12 {
        NamesDistinct(m, t[j].1);
      } else if j < 23 {
        NameMeetsAbbr3(m, t[j].1);
      }
    }
    FirstMatchUnique(Name(m), t, i);
    FromStrIgnoresCase(s, Name(m));
  }

  /**
   * Any spelling of a three-letter abbreviation parses to its month; for
   * May the full-name entry answers first, with the same month.
   */
  lemma Abbr3RoundTrip(s: string, m: Month)
    requires EqIgnoreAsciiCase(s, Abbr3(m))
    ensures FromStr(s) == Ok(m)
  {
    var t := ParseTable();
    var i := if m == May then 4 else if Index(m) < 4 then 12 + Index(m) else 11 + Index(m);
    assert i < |t| && t[i].1 == m && EqIgnoreAsciiCase(Abbr3(m), t[i].0) by {
      EqIgnoreAsciiCaseReflexive(Abbr3(m));
      AllIndex(m);
      ParseTableEntry(i);
    }
    forall j | 0 <= j < |t| && EqIgnoreAsciiCase(Abbr3(m), t[j].0)
      ensures t[j].1 == m
    {
      Abbr3MeetsOnlyItsMonth(m, j);
    }
    FirstMatchUnique(Abbr3(m), t, i);
    FromStrIgnoresCase(s, Abbr3(m));
  }

  /** Every entry a three-letter abbreviation matches names its month. */
  lemma Abbr3MeetsOnlyItsMonth(m: Month, j: nat)
    ensures j < 47 && EqIgnoreAsciiCase(Abbr3(m), ParseTable()[j].0) ==> ParseTable()[j].1 == m
  {
    if j < 47 && EqIgnoreAsciiCase(Abbr3(m), ParseTable()[j].0) {
      var t := ParseTable();
      ParseTableEntry(j);
      if j < 12 {
        EqIgnoreAsciiCasePointwise(Abbr3(m), t[j].0);
        EqIgnoreAsciiCasePointwise(t[j].0, Abbr3(m));
        NameMeetsAbbr3(t[j].1, m);
      } else if j < 23 {
        Abbr3Distinct(m, t[j].1);
      }
    }
  }

  /** Any spelling of a two-letter abbreviation parses to its month. */
  lemma Abbr2RoundTrip(s: string, m: Month)
    requires EqIgnoreAsciiCase(s, Abbr2(m))
    ensures FromStr(s) == Ok(m)
  {
    var t := ParseTable();
    var i := 23 + Index(m);
    assert i < |t| && t[i].1 == m && EqIgnoreAsciiCase(Abbr2(m), t[i].0) by {
      EqIgnoreAsciiCaseReflexive(Abbr2(m));
      AllIndex(m);
      ParseTableEntry(i);
    }
    forall j | 0 <= j < |t| && EqIgnoreAsciiCase(Abbr2(m), t[j].0)
      ensures t[j].1 == m
    {
      ParseTableEntry(j);
      if 23 <= j < 35 {
        Abbr2Distinct(m, t[j].1);
      }
    }
    FirstMatchUnique(Abbr2(m), t, i);
    FromStrIgnoresCase(s, Abbr2(m));
  }

  /**
   * Any spelling of a one-letter abbreviation parses to its month, except
   * that "N" is tried for June before November, so November's letter
   * parses to June.
   */
  lemma Abbr1RoundTrip(s: string, m: Month)
    requires EqIgnoreAsciiCase(s, Abbr1(m))
    ensures FromStr(s) == Ok(if m == November then June else m)
  {
    var t := ParseTable();
    var target := if m == November then June else m;
    var i := 35 + Index(target);
    assert i < |t| && t[i].1 == target && EqIgnoreAsciiCase(Abbr1(m), t[i].0) by {
      AllIndex(target);
      ParseTableEntry(i);
      assert Abbr1(target) == Abbr1(m);
      EqIgnoreAsciiCaseReflexive(Abbr1(m));
    }
    forall j | 0 <= j < i
      ensures !EqIgnoreAsciiCase(Abbr1(m), t[j].0)
    {
      Abbr1MissesLongerNames(m, j);
      Abbr1MissesEarlierLetters(m, j);
    }
    FirstMatchAt(Abbr1(m), t, i);
    FromStrIgnoresCase(s, Abbr1(m));
  }

  /** A single letter meets no entry of the first three tiers. */
  lemma Abbr1MissesLongerNames(m: Month, j: nat)
    ensures j < 35 ==> !EqIgnoreAsciiCase(Abbr1(m), ParseTable()[j].0)
  {
    if j < 35 {
      ParseTableEntry(j);
    }
  }

  /** Nor a one-letter entry listed before the month the letter parses to. */
  lemma Abbr1MissesEarlierLetters(m: Month, j: nat)
    ensures 35 <= j < 35 + Index(if m == November then June else m) ==>
      !EqIgnoreAsciiCase(Abbr1(m), ParseTable()[j].0)
  {
    if 35 <= j < 35 + Index(if m == November then June else m) {
      ParseTableEntry(j);
      AllInOrder();
      Abbr1Distinct(m, ALL[j - 35]);
    }
  }

  /** "n" or "N", November's letter, parses to June. */
  lemma NovemberLetterIsJune(s: string)
    requires EqIgnoreAsciiCase(s, Abbr1(November))
    ensures FromStr(s) == Ok(June)
  {
    Abbr1RoundTrip(s, November);
  }

  /** The empty string is not a month name. */
  lemma EmptyIsNotAMonth()
    ensures FromStr("") == Err("Invalid month name.")
  {
    forall j | 0 <= j < |ParseTable()|
      ensures !EqIgnoreAsciiCase("", ParseTable()[j].0)
    {
      ParseTableEntry(j);
    }
  }
}
