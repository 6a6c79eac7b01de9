/**
 * The seven weekdays: their order, numbering from Monday or from Sunday,
 * names and abbreviations, and the case-insensitive parser.
 */
module Weekdays {

  import opened Wrappers
  import opened Text
  import Numeric

  datatype Weekday = Monday | Tuesday | Wednesday | Thursday | Friday | Saturday | Sunday

  /** `Weekday::index_from_monday`: Monday is 0. */
  function IndexFromMonday(d: Weekday): (i: nat)
    ensures i < 7
  {
    match d
    case Monday => 0 case Tuesday => 1 case Wednesday => 2 case Thursday => 3
    case Friday => 4 case Saturday => 5 case Sunday => 6
  }

  /** Distinct weekdays have distinct indices. */
  lemma IndexInjective(a: Weekday, b: Weekday)
    ensures IndexFromMonday(a) == IndexFromMonday(b) <==> a == b
  {
  }

  /** `Weekday::index_from_sunday`: Sunday is 0, so every other day is one later than from Monday. */
  function IndexFromSunday(d: Weekday): (i: nat)
    ensures i == (IndexFromMonday(d) + 1) % 7
  {
    match d
    case Monday => 1 case Tuesday => 2 case Wednesday => 3 case Thursday => 4
    case Friday => 5 case Saturday => 6 case Sunday => 0
  }

  /** `Weekday::number_from_monday`: Monday is 1. */
  function NumberFromMonday(d: Weekday): (n: nat)
    ensures 1 <= n <= 7 && n == IndexFromMonday(d) + 1
  {
    IndexFromMonday(d) + 1
  }

  /** `Weekday::number_from_sunday`: Sunday is 1. */
  function NumberFromSunday(d: Weekday): (n: nat)
    ensures 1 <= n <= 7 && n == IndexFromSunday(d) + 1
    ensures n == NumberFromMonday(d) % 7 + 1
  {
    IndexFromSunday(d) + 1
  }

  /** `Weekday::next`: Sunday wraps to Monday. */
  function Next(d: Weekday): (r: Weekday)
    ensures IndexFromMonday(r) == (IndexFromMonday(d) + 1) % 7
  {
    match d
    case Monday => Tuesday case Tuesday => Wednesday case Wednesday => Thursday
    case Thursday => Friday case Friday => Saturday case Saturday => Sunday
    case Sunday => Monday
  }

  /** `Weekday::previous`: Monday wraps to Sunday. */
  function Previous(d: Weekday): (r: Weekday)
    ensures IndexFromMonday(r) == (IndexFromMonday(d) + 6) % 7
  {
    match d
    case Monday => Sunday case Tuesday => Monday case Wednesday => Tuesday
    case Thursday => Wednesday case Friday => Thursday case Saturday => Friday
    case Sunday => Saturday
  }

  /** Next and previous undo each other. */
  lemma NextPreviousInverse(d: Weekday)
    ensures Previous(Next(d)) == d
    ensures Next(Previous(d)) == d
  {
    IndexInjective(Previous(Next(d)), d);
    IndexInjective(Next(Previous(d)), d);
  }

  /** Counting from Sunday is counting from Monday shifted by one day. */
  lemma SundayIndexIsShifted(d: Weekday)
    ensures IndexFromSunday(Next(d)) == (IndexFromSunday(d) + 1) % 7
    ensures IndexFromSunday(d) == 0 <==> d == Sunday
  {
  }

  /** `n` steps forward with `Weekday::next`. */
  function NextNth(d: Weekday, n: nat): (r: Weekday)
    decreases n
  {
    if n == 0 then d else NextNth(Next(d), n - 1)
  }

  /** `n` steps back with `Weekday::previous`. */
  function PreviousNth(d: Weekday, n: nat): (r: Weekday)
    decreases n
  {
    if n == 0 then d else PreviousNth(Previous(d), n - 1)
  }

  /** Stepping forward `n` days adds `n` to the index, modulo 7. */
  lemma {:induction false} NextNthIndex(d: Weekday, n: nat)
    ensures IndexFromMonday(NextNth(d, n)) == (IndexFromMonday(d) + n) % 7
    decreases n
  {
    if n > 0 {
      NextNthIndex(Next(d), n - 1);
      Numeric.ModAddReduced(IndexFromMonday(d) + 1, n - 1, 7);
    }
  }

  /** Stepping back `n` days subtracts `n` from the index, modulo 7. */
  lemma {:induction false} PreviousNthIndex(d: Weekday, n: nat)
    ensures IndexFromMonday(PreviousNth(d, n)) == (IndexFromMonday(d) - n) % 7
    decreases n
  {
    if n > 0 {
      PreviousNthIndex(Previous(d), n - 1);
      Numeric.ModAddReduced(IndexFromMonday(d) + 6, -(n - 1), 7);
      Numeric.ModAddMultiple(IndexFromMonday(d) - n, 1, 7);
    }
  }

  /** Seven steps from any day, back or forward, come back to it. */
  lemma WeekCycle(d: Weekday)
    ensures NextNth(d, 7) == d
    ensures PreviousNth(d, 7) == d
  {
    NextNthIndex(d, 7);
    Numeric.ModAddMultiple(IndexFromMonday(d), 1, 7);
    IndexInjective(NextNth(d, 7), d);
    PreviousNthIndex(d, 7);
    Numeric.ModAddMultiple(IndexFromMonday(d), -1, 7);
    IndexInjective(PreviousNth(d, 7), d);
  }

  /** `n` steps back undo `n` steps forward. */
  lemma StepsBackUndoSteps(d: Weekday, n: nat)
    ensures PreviousNth(NextNth(d, n), n) == d
  {
    NextNthIndex(d, n);
    PreviousNthIndex(NextNth(d, n), n);
    Numeric.ModAddReduced(IndexFromMonday(d) + n, -(n as int), 7);
    IndexInjective(PreviousNth(NextNth(d, n), n), d);
  }

  /** `Display`: the full English name. */
  function Name(d: Weekday): (s: string)
    ensures 6 <= |s| <= 9
  {
    match d
    case Monday => "Monday" case Tuesday => "Tuesday" case Wednesday => "Wednesday"
    case Thursday => "Thursday" case Friday => "Friday" case Saturday => "Saturday"
    case Sunday => "Sunday"
  }

  /** `Weekday::abbr3` as the source spells it, with "Fru" for Friday. */
  function Abbr3AsWritten(d: Weekday): (s: string)
    ensures |s| == 3
    ensures d != Friday ==> s == Abbr3(d)
  {
    match d
    case Monday => "Mon" case Tuesday => "Tue" case Wednesday => "Wed"
    case Thursday => "Thu" case Friday => "Fru" case Saturday => "Sat"
    case Sunday => "Sun"
  }

  /** `Weekday::abbr3` corrected to "Fri", the spelling the parser accepts. */
  function Abbr3(d: Weekday): (s: string)
    ensures |s| == 3
  {
    match d
    case Monday => "Mon" case Tuesday => "Tue" case Wednesday => "Wed"
    case Thursday => "Thu" case Friday => "Fri" case Saturday => "Sat"
    case Sunday => "Sun"
  }

  /** Every three-letter abbreviation is the start of the full name. */
  lemma Abbr3IsPrefix(d: Weekday)
    ensures Abbr3(d) == Name(d)[..3]
  {
  }

  /** `Weekday::abbr2`: two upper-case letters. */
  function Abbr2(d: Weekday): (s: string)
    ensures |s| == 2
  {
    match d
    case Monday => "MO" case Tuesday => "TU" case Wednesday => "WE"
    case Thursday => "TH" case Friday => "FR" case Saturday => "SA"
    case Sunday => "SU"
  }

  /** `Weekday::abbr1`: one upper-case letter, distinct for every day. */
  function Abbr1(d: Weekday): (s: string)
    ensures |s| == 1
  {
    match d
    case Monday => "M" case Tuesday => "T" case Wednesday => "W"
    case Thursday => "H" case Friday => "F" case Saturday => "S"
    case Sunday => "U"
  }

  /** The spellings the parser knows: 0 full name, 1 three letters, 2 two letters, 3 one letter. */
  function Spelling(style: nat, d: Weekday): (s: string)
    requires style < 4
  {
    if style == 0 then Name(d)
    else if style == 1 then Abbr3(d)
    else if style == 2 then Abbr2(d)
    else Abbr1(d)
  }

  const ALL: seq<Weekday> := [Monday, Tuesday, Wednesday, Thursday, Friday, Saturday, Sunday]

  lemma AllIndex(d: Weekday)
    ensures ALL[IndexFromMonday(d)] == d
  {
  }

  /** The parser's entries, in order: full names, then three, two and one letters. */
  function ParseTable(): (t: seq<(string, Weekday)>)
    ensures |t| == 28
    ensures forall j :: 0 <= j < 28 ==> t[j] == (Spelling(j / 7, ALL[j % 7]), ALL[j % 7])
  {
    seq(28, j requires 0 <= j < 28 => (Spelling(j / 7, ALL[j % 7]), ALL[j % 7]))
  }

  /** `Weekday::from_str`: the first entry equal to `s` ignoring ASCII case. */
  function FromStr(s: string): (r: Result<Weekday, string>)
    ensures r.Err? <==> forall j :: 0 <= j < |ParseTable()| ==> !EqIgnoreAsciiCase(s, ParseTable()[j].0)
    ensures r.Err? ==> r.error == "Invalid weekday name."
  {
    match FirstMatch(s, ParseTable())
    case Some(d) => Ok(d)
    case None => Err("Invalid weekday name.")
  }

  /** Parsing ignores ASCII case. */
  lemma FromStrIgnoresCase(s: string, t: string)
    requires EqIgnoreAsciiCase(s, t)
    ensures FromStr(s) == FromStr(t)
  {
    FirstMatchIgnoresCase(s, t, ParseTable());
  }

  /** No two spellings of different days agree, even ignoring case. */
  lemma SpellingsDistinct(i: nat, a: Weekday, k: nat, b: Weekday)
    requires i < 4 && k < 4
    ensures EqIgnoreAsciiCase(Spelling(i, a), Spelling(k, b)) ==> a == b
  {
    var x, y := Spelling(i, a), Spelling(k, b);
    if EqIgnoreAsciiCase(x, y) {
      EqIgnoreAsciiCasePointwise(x, y);
      assert LowerAscii(x[0]) == LowerAscii(y[0]);
      if |x| >= 2 {
        assert LowerAscii(x[1]) == LowerAscii(y[1]);
      }
      if |x| >= 3 {
        assert LowerAscii(x[2]) == LowerAscii(y[2]);
      }
    }
  }

  /** Any spelling the parser knows, in any ASCII case, parses back to its day. */
  lemma SpellingRoundTrip(s: string, style: nat, d: Weekday)
    requires style < 4 && EqIgnoreAsciiCase(s, Spelling(style, d))
    ensures FromStr(s) == Ok(d)
  {
    var t := ParseTable();
    var x := Spelling(style, d);
    FromStrIgnoresCase(s, x);
    EqIgnoreAsciiCaseReflexive(x);
    AllIndex(d);
    var i := 7 * style + IndexFromMonday(d);
    assert i / 7 == style && i % 7 == IndexFromMonday(d);
    forall j | 0 <= j < |t| && EqIgnoreAsciiCase(x, t[j].0)
      ensures t[j].1 == d
    {
      SpellingsDistinct(style, d, j / 7, ALL[j % 7]);
    }
    FirstMatchUnique(x, t, i);
  }

  /** The display name parses back. */
  lemma NameRoundTrip(d: Weekday)
    ensures FromStr(Name(d)) == Ok(d)
  {
    EqIgnoreAsciiCaseReflexive(Name(d));
    SpellingRoundTrip(Name(d), 0, d);
  }

  /** The corrected three-letter abbreviation parses back for every day. */
  lemma Abbr3RoundTrip(d: Weekday)
    ensures FromStr(Abbr3(d)) == Ok(d)
  {
    EqIgnoreAsciiCaseReflexive(Abbr3(d));
    SpellingRoundTrip(Abbr3(d), 1, d);
  }

  /** "Fru" is none of the spellings the parser knows. */
  lemma FruIsNoSpelling(style: nat, d: Weekday)
    requires style < 4
    ensures !EqIgnoreAsciiCase(Abbr3AsWritten(Friday), Spelling(style, d))
  {
    if style == 1 {
      DifferIgnoringCase(Abbr3AsWritten(Friday), Spelling(style, d), if d == Friday then 2 else 0);
    }
  }

  /** The source's "Fru" is not a weekday name, so its abbreviation of Friday does not parse. */
  lemma FridayAbbreviationAsWrittenIsRejected()
    ensures FromStr(Abbr3AsWritten(Friday)) == Err("Invalid weekday name.")
  {
    var t := ParseTable();
    forall j | 0 <= j < |t|
      ensures !EqIgnoreAsciiCase(Abbr3AsWritten(Friday), t[j].0)
    {
      FruIsNoSpelling(j / 7, ALL[j % 7]);
    }
  }
}
