/**
 * `timecode_ns_u64`: a count of nanoseconds written as seconds,
 * milliseconds, microseconds and nanoseconds, one space-separated word per
 * unit, with the leading units left out while they are zero.
 *
 * The program writes the nanosecond field with `{:06}` although it is
 * always below 1000, so that field always starts with three zeros; the
 * field width is a parameter here, 6 as written and 3 as the other fields.
 */
module Timecode {

  import opened Numeric
  import opened Wrappers
  import opened Text

  /** The `µs` unit. */
  const MICROS: string := ['\U{00B5}', 's']

  /** The quotients and remainders of the three truncating divisions by 1000. */
  datatype Split = Split(us: nat, nsRem: nat, ms: nat, usRem: nat, s: nat, msRem: nat)

  /** `(ns / 1000, ns % 1000)`, then the same on the microseconds and on the milliseconds. */
  function SplitNs(ns: u64): (r: Split)
    ensures r.nsRem < 1000 && r.usRem < 1000 && r.msRem < 1000
    ensures r.ms == r.s * 1000 + r.msRem
    ensures r.us == r.ms * 1000 + r.usRem
    ensures ns == r.us * 1000 + r.nsRem
  {
    var us, nsRem := ns / 1000, ns % 1000;
    var ms, usRem := us / 1000, us % 1000;
    var s, msRem := ms / 1000, ms % 1000;
    Split(us, nsRem, ms, usRem, s, msRem)
  }

  /**
   * The words of the time code with the nanosecond field padded to
   * `nsWidth` places: `{s}s`, `{ms:03}ms`, `{us:03}µs` and `{ns:0w}ns`,
   * from the first non-zero unit on, the first one unpadded.
   */
  function TimecodeWords(ns: u64, nsWidth: nat): (r: seq<string>)
    ensures 1 <= |r| <= 4
  {
    var f := SplitNs(ns);
    if f.s > 0 then
      [Decimal(f.s) + "s", PadNat(f.msRem, 3) + "ms", PadNat(f.usRem, 3) + MICROS, PadNat(f.nsRem, nsWidth) + "ns"]
    else if f.ms > 0 then
      [Decimal(f.msRem) + "ms", PadNat(f.usRem, 3) + MICROS, PadNat(f.nsRem, nsWidth) + "ns"]
    else if f.us > 0 then
      [Decimal(f.usRem) + MICROS, PadNat(f.nsRem, nsWidth) + "ns"]
    else
      [PadNat(f.nsRem, nsWidth) + "ns"]
  }

  /** Words joined by single spaces, as a format string lays them out. */
  function Unwords(ws: seq<string>): string
    requires 1 <= |ws|
    decreases |ws|
  {
    if |ws| == 1 then ws[0] else Unwords(ws[..|ws| - 1]) + " " + ws[|ws| - 1]
  }

  /** The time code with the nanosecond field padded to `nsWidth` places. */
  function TimecodeWidth(ns: u64, nsWidth: nat): string
  {
    Unwords(TimecodeWords(ns, nsWidth))
  }

  /**
   * `timecode_ns_u64` as written: `{s}s {ms:03}ms {us:03}µs {ns:06}ns`, from
   * the first non-zero unit on. It reads back as `ns`, but its nanosecond
   * word always starts with three extra zeros.
   */
  function TimecodeNs(ns: u64): (r: string)
    ensures ReadTimecode(r) == Some(ns)
    ensures var ws := Words(r); ws[|ws| - 1] == "000" + PadNat(ns % 1000, 3) + "ns"
  {
    TimecodeRoundTrip(ns, 6);
    TimecodeWordsRead(ns, 6);
    WordsUnwords(TimecodeWords(ns, 6));
    NanosecondWordAsWritten(ns);
    TimecodeWidth(ns, 6)
  }

  /**
   * The same with the nanosecond field as wide as the millisecond and
   * microsecond fields: it reads back as `ns`, and its last word is the
   * three-digit nanosecond remainder.
   */
  function TimecodeNs3(ns: u64): (r: string)
    ensures ReadTimecode(r) == Some(ns)
    ensures var ws := Words(r); |ws[|ws| - 1]| == 5 && ParseDecimal(ws[|ws| - 1][..3]) == ns % 1000
  {
    TimecodeRoundTrip(ns, 3);
    TimecodeWordsRead(ns, 3);
    WordsUnwords(TimecodeWords(ns, 3));
    NanosecondWordCorrected(ns);
    TimecodeWidth(ns, 3)
  }

  // ---------------------------------------------------------------------
  // A reader for time codes, the reference the formatter is checked against
  // ---------------------------------------------------------------------

  /** Just after the last space before `i`, or 0 if there is none. */
  function WordStart(t: string, i: nat): (k: nat)
    requires i <= |t|
    ensures k <= i
    decreases i
  {
    if i == 0 || t[i - 1] == ' ' then i else WordStart(t, i - 1)
  }

  /** The words of `t` between single spaces. */
  function Words(t: string): (r: seq<string>)
    ensures 1 <= |r|
    decreases |t|
  {
    var k := WordStart(t, |t|);
    if k == 0 then [t] else Words(t[..k - 1]) + [t[k..]]
  }

  /** The first non-digit at or after `i`, or the end. */
  function DigitsFrom(w: string, i: nat): (k: nat)
    requires i <= |w|
    ensures i <= k <= |w|
    decreases |w| - i
  {
    if i == |w| || !('0' <= w[i] <= '9') then i else DigitsFrom(w, i + 1)
  }

  /** Nanoseconds per unit of the unit names the time code uses. */
  function UnitScale(unit: string): (r: Option<nat>)
    ensures r.Some? ==> 1 <= |unit| && !('0' <= unit[0] <= '9')
  {
    if unit == "ns" then Some(1)
    else if unit == MICROS then Some(1000)
    else if unit == "ms" then Some(1000000)
    else if unit == "s" then Some(1000000000)
    else None
  }

  /** The nanoseconds a word stands for: a number followed by a unit. */
  function ReadWord(w: string): (r: Option<nat>)
  {
    var k := DigitsFrom(w, 0);
    if k == 0 then None
    else match UnitScale(w[k..])
      case Some(scale) => Some(ParseDecimal(w[..k]) * scale)
      case None => None
  }

  /** The total of the words, if every one of them reads. */
  function ReadWords(ws: seq<string>): (r: Option<nat>)
    decreases |ws|
  {
    if |ws| == 0 then Some(0)
    else match (ReadWords(ws[..|ws| - 1]), ReadWord(ws[|ws| - 1]))
      case (Some(a), Some(b)) => Some(a + b)
      case _ => None
  }

  /** The nanoseconds a time code stands for, if it reads. */
  function ReadTimecode(t: string): (r: Option<nat>)
  {
    ReadWords(Words(t))
  }

  // ---------------------------------------------------------------------
  // Reading back
  // ---------------------------------------------------------------------

  predicate NoSpace(a: string)
  {
    forall i :: 0 <= i < |a| ==> a[i] != ' '
  }

  /** The four units: each has its scale, and none holds a space. */
  lemma Units()
    ensures UnitScale("ns") == Some(1) && NoSpace("ns")
    ensures UnitScale(MICROS) == Some(1000) && NoSpace(MICROS)
    ensures UnitScale("ms") == Some(1000000) && NoSpace("ms")
    ensures UnitScale("s") == Some(1000000000) && NoSpace("s")
  {
  }

  /** The word that ends at `i` starts just after the space at `k - 1`, or at 0, when no space lies between. */
  lemma {:induction false} WordStartAt(t: string, i: nat, k: nat)
    requires k <= i <= |t|
    requires k == 0 || t[k - 1] == ' '
    requires forall j :: k <= j < i ==> t[j] != ' '
    ensures WordStart(t, i) == k
    decreases i
  {
    if i > k {
      WordStartAt(t, i - 1, k);
    }
  }

  /** The number in a word ends at the first non-digit. */
  lemma {:induction false} DigitsFromAt(w: string, i: nat, k: nat)
    requires i <= k <= |w|
    requires k == |w| || !('0' <= w[k] <= '9')
    requires forall j :: i <= j < k ==> '0' <= w[j] <= '9'
    ensures DigitsFrom(w, i) == k
    decreases k - i
  {
    if i < k {
      DigitsFromAt(w, i + 1, k);
    }
  }

  /** A word without spaces is the whole text. */
  lemma WordsOne(a: string)
    requires NoSpace(a)
    ensures Words(a) == [a]
  {
    WordStartAt(a, |a|, 0);
  }

  /** Text, a space and a word: the word comes last. */
  lemma WordsSnoc(a: string, b: string)
    requires NoSpace(b)
    ensures Words(a + " " + b) == Words(a) + [b]
  {
    var t := a + " " + b;
    var k := |a| + 1;
    assert t[|a|] == ' ';
    assert forall j :: |a| < j < |t| ==> t[j] == b[j - |a| - 1];
    WordStartAt(t, |t|, k);
    assert t[..k - 1] == a;
    assert t[k..] == b;
  }

  /** A number followed by a unit has no space and reads as the number times the unit. */
  lemma FieldWord(d: string, unit: string, scale: nat)
    requires 1 <= |d| && IsDigits(d)
    requires UnitScale(unit) == Some(scale) && NoSpace(unit)
    ensures NoSpace(d + unit)
    ensures ReadWord(d + unit) == Some(ParseDecimal(d) * scale)
  {
    var w := d + unit;
    var k := |d|;
    assert w[|d|] == unit[0];
    assert forall j :: 0 <= j < |d| ==> w[j] == d[j];
    DigitsFromAt(w, 0, k);
    assert w[..k] == d;
    assert w[k..] == unit;
    assert forall j :: |d| <= j < |w| ==> w[j] == unit[j - |d|];
  }

  /** A word that reads, after words that read: the totals add. */
  lemma ReadWordsSnoc(ws: seq<string>, w: string, a: nat, b: nat)
    requires ReadWords(ws) == Some(a) && ReadWord(w) == Some(b)
    ensures ReadWords(ws + [w]) == Some(a + b)
  {
    assert (ws + [w])[..|ws|] == ws;
  }

  lemma ReadWordsOne(w: string)
    ensures ReadWords([w]) == ReadWord(w)
  {
    assert [w][..0] == [];
  }

  /** A number written in full, followed by a unit. */
  lemma DecimalWord(n: nat, unit: string, scale: nat)
    requires UnitScale(unit) == Some(scale) && NoSpace(unit)
    ensures NoSpace(Decimal(n) + unit) && ReadWord(Decimal(n) + unit) == Some(n * scale)
  {
    DecimalRoundTrip(n);
    FieldWord(Decimal(n), unit, scale);
  }

  /** A number padded with zeros, followed by a unit. */
  lemma PaddedWord(n: nat, w: nat, unit: string, scale: nat)
    requires UnitScale(unit) == Some(scale) && NoSpace(unit)
    ensures NoSpace(PadNat(n, w) + unit) && ReadWord(PadNat(n, w) + unit) == Some(n * scale)
  {
    PadNatDigits(n, w);
    PadNatRoundTrip(n, w);
    FieldWord(PadNat(n, w), unit, scale);
  }

  /** Words without spaces, joined by spaces, split back into the same words. */
  lemma {:induction false} WordsUnwords(ws: seq<string>)
    requires 1 <= |ws|
    requires forall i :: 0 <= i < |ws| ==> NoSpace(ws[i])
    ensures Words(Unwords(ws)) == ws
    decreases |ws|
  {
    if |ws| == 1 {
      WordsOne(ws[0]);
      assert [ws[0]] == ws;
    } else {
      var init := ws[..|ws| - 1];
      WordsUnwords(init);
      WordsSnoc(Unwords(init), ws[|ws| - 1]);
      assert init + [ws[|ws| - 1]] == ws;
    }
  }

  /** Which units are non-zero, and the count the fields add up to. */
  lemma SplitMagnitude(ns: u64, f: Split)
    requires f.nsRem < 1000 && f.usRem < 1000 && f.msRem < 1000
    requires f.ms == f.s * 1000 + f.msRem && f.us == f.ms * 1000 + f.usRem && ns == f.us * 1000 + f.nsRem
    ensures f.s > 0 <==> ns >= 1000000000
    ensures f.ms > 0 <==> ns >= 1000000
    ensures f.us > 0 <==> ns >= 1000
    ensures ns == f.s * 1000000000 + f.msRem * 1000000 + f.usRem * 1000 + f.nsRem
    ensures f.s == 0 ==> f.ms == f.msRem
    ensures f.ms == 0 ==> f.us == f.usRem
  {
  }

  /** One word that reads: the whole time code reads, and the word has no space. */
  lemma ReadOne(a: string, x: nat)
    requires NoSpace(a) && ReadWord(a) == Some(x)
    ensures ReadWords([a]) == Some(x)
    ensures forall i :: 0 <= i < |[a]| ==> NoSpace([a][i])
  {
    ReadWordsOne(a);
  }

  /** Two words that read: the totals add. */
  lemma ReadTwo(a: string, b: string, x: nat, y: nat)
    requires NoSpace(a) && ReadWord(a) == Some(x)
    requires NoSpace(b) && ReadWord(b) == Some(y)
    ensures ReadWords([a, b]) == Some(x + y)
    ensures forall i :: 0 <= i < |[a, b]| ==> NoSpace([a, b][i])
  {
    ReadOne(a, x);
    ReadWordsSnoc([a], b, x, y);
    assert [a] + [b] == [a, b];
  }

  lemma ReadThree(a: string, b: string, c: string, x: nat, y: nat, z: nat)
    requires NoSpace(a) && ReadWord(a) == Some(x)
    requires NoSpace(b) && ReadWord(b) == Some(y)
    requires NoSpace(c) && ReadWord(c) == Some(z)
    ensures ReadWords([a, b, c]) == Some(x + y + z)
    ensures forall i :: 0 <= i < |[a, b, c]| ==> NoSpace([a, b, c][i])
  {
    ReadTwo(a, b, x, y);
    ReadWordsSnoc([a, b], c, x + y, z);
    assert [a, b] + [c] == [a, b, c];
  }

  lemma ReadFour(a: string, b: string, c: string, d: string, x: nat, y: nat, z: nat, u: nat)
    requires NoSpace(a) && ReadWord(a) == Some(x)
    requires NoSpace(b) && ReadWord(b) == Some(y)
    requires NoSpace(c) && ReadWord(c) == Some(z)
    requires NoSpace(d) && ReadWord(d) == Some(u)
    ensures ReadWords([a, b, c, d]) == Some(x + y + z + u)
    ensures forall i :: 0 <= i < |[a, b, c, d]| ==> NoSpace([a, b, c, d][i])
  {
    ReadThree(a, b, c, x, y, z);
    ReadWordsSnoc([a, b, c], d, x + y + z, u);
    assert [a, b, c] + [d] == [a, b, c, d];
  }

  /** A time code of a second or more: four words. */
  lemma SecondsWordsRead(ns: u64, width: nat, f: Split)
    requires f == SplitNs(ns) && f.s > 0
    ensures ReadWords(TimecodeWords(ns, width)) == Some(f.s * 1000000000 + f.msRem * 1000000 + f.usRem * 1000 + f.nsRem)
    ensures forall i :: 0 <= i < |TimecodeWords(ns, width)| ==> NoSpace(TimecodeWords(ns, width)[i])
    ensures |TimecodeWords(ns, width)| == 4
  {
    Units();
    DecimalWord(f.s, "s", 1000000000);
    PaddedWord(f.msRem, 3, "ms", 1000000);
    PaddedWord(f.usRem, 3, MICROS, 1000);
    PaddedWord(f.nsRem, width, "ns", 1);
    ReadFour(Decimal(f.s) + "s", PadNat(f.msRem, 3) + "ms", PadNat(f.usRem, 3) + MICROS, PadNat(f.nsRem, width) + "ns",
             f.s * 1000000000, f.msRem * 1000000, f.usRem * 1000, f.nsRem);
  }

  /** A time code from a millisecond up to a second: three words. */
  lemma MillisecondsWordsRead(ns: u64, width: nat, f: Split)
    requires f == SplitNs(ns) && f.s == 0 && f.ms > 0
    ensures ReadWords(TimecodeWords(ns, width)) == Some(f.msRem * 1000000 + f.usRem * 1000 + f.nsRem)
    ensures forall i :: 0 <= i < |TimecodeWords(ns, width)| ==> NoSpace(TimecodeWords(ns, width)[i])
    ensures |TimecodeWords(ns, width)| == 3
  {
    Units();
    DecimalWord(f.msRem, "ms", 1000000);
    PaddedWord(f.usRem, 3, MICROS, 1000);
    PaddedWord(f.nsRem, width, "ns", 1);
    ReadThree(Decimal(f.msRem) + "ms", PadNat(f.usRem, 3) + MICROS, PadNat(f.nsRem, width) + "ns",
              f.msRem * 1000000, f.usRem * 1000, f.nsRem);
  }

  /** A time code from a microsecond up to a millisecond: two words. */
  lemma MicrosecondsWordsRead(ns: u64, width: nat, f: Split)
    requires f == SplitNs(ns) && f.s == 0 && f.ms == 0 && f.us > 0
    ensures ReadWords(TimecodeWords(ns, width)) == Some(f.usRem * 1000 + f.nsRem)
    ensures forall i :: 0 <= i < |TimecodeWords(ns, width)| ==> NoSpace(TimecodeWords(ns, width)[i])
    ensures |TimecodeWords(ns, width)| == 2
  {
    Units();
    DecimalWord(f.usRem, MICROS, 1000);
    PaddedWord(f.nsRem, width, "ns", 1);
    ReadTwo(Decimal(f.usRem) + MICROS, PadNat(f.nsRem, width) + "ns", f.usRem * 1000, f.nsRem);
  }

  /** A time code under a microsecond: one word. */
  lemma NanosecondsWordsRead(ns: u64, width: nat, f: Split)
    requires f == SplitNs(ns) && f.s == 0 && f.ms == 0 && f.us == 0
    ensures ReadWords(TimecodeWords(ns, width)) == Some(f.nsRem)
    ensures forall i :: 0 <= i < |TimecodeWords(ns, width)| ==> NoSpace(TimecodeWords(ns, width)[i])
    ensures |TimecodeWords(ns, width)| == 1
  {
    Units();
    PaddedWord(f.nsRem, width, "ns", 1);
    ReadOne(PadNat(f.nsRem, width) + "ns", f.nsRem);
  }

  /** The words of the time code read back as the nanoseconds, one word per unit from the largest non-zero one. */
  lemma TimecodeWordsRead(ns: u64, width: nat)
    ensures forall i :: 0 <= i < |TimecodeWords(ns, width)| ==> NoSpace(TimecodeWords(ns, width)[i])
    ensures ReadWords(TimecodeWords(ns, width)) == Some(ns)
    ensures |TimecodeWords(ns, width)|
         == if ns >= 1000000000 then 4 else if ns >= 1000000 then 3 else if ns >= 1000 then 2 else 1
  {
    var f := SplitNs(ns);
    SplitMagnitude(ns, f);
    if f.s > 0 {
      SecondsWordsRead(ns, width, f);
    } else if f.ms > 0 {
      MillisecondsWordsRead(ns, width, f);
    } else if f.us > 0 {
      MicrosecondsWordsRead(ns, width, f);
    } else {
      NanosecondsWordsRead(ns, width, f);
    }
  }

  /**
   * Every time code reads back as the nanoseconds it was made from, for
   * any width of the nanosecond field, and it has one word for each unit
   * from the largest non-zero one down to nanoseconds.
   */
  lemma TimecodeRoundTrip(ns: u64, width: nat)
    ensures ReadTimecode(TimecodeWidth(ns, width)) == Some(ns)
    ensures |Words(TimecodeWidth(ns, width))|
         == if ns >= 1000000000 then 4 else if ns >= 1000000 then 3 else if ns >= 1000 then 2 else 1
  {
    var ws := TimecodeWords(ns, width);
    TimecodeWordsRead(ns, width);
    WordsUnwords(ws);
  }

  /** Different counts give different time codes. */
  lemma TimecodeInjective(a: u64, b: u64, width: nat)
    requires TimecodeWidth(a, width) == TimecodeWidth(b, width)
    ensures a == b
  {
    TimecodeRoundTrip(a, width);
    TimecodeRoundTrip(b, width);
  }

  // ---------------------------------------------------------------------
  // The nanosecond field as written
  // ---------------------------------------------------------------------

  /** Padding a number of at most three digits to six places puts three zeros before its three-place form. */
  lemma PadSixIsZerosPadThree(n: nat)
    requires n < 1000
    ensures PadNat(n, 6) == "000" + PadNat(n, 3)
  {
    assert Pow10(3) == 1000;
    PadNatWiden(n, 3, 3);
    assert Zeros(3) == "000";
  }

  /**
   * As written, the last word of every time code is the three-place
   * nanosecond remainder behind three zeros that carry no value: the
   * program's own summary line shows a six-digit nanosecond field
   * `012345ns`, which no remainder below 1000 can produce.
   */
  lemma NanosecondWordAsWritten(ns: u64)
    ensures var ws := TimecodeWords(ns, 6);
      ws[|ws| - 1] == "000" + PadNat(ns % 1000, 3) + "ns"
      && ws[|ws| - 1][..3] == "000"
    ensures TimecodeWords(ns, 6)[|TimecodeWords(ns, 6)| - 1] != "012345ns"
  {
    var f := SplitNs(ns);
    assert f.nsRem == ns % 1000;
    PadSixIsZerosPadThree(f.nsRem);
    var w := "000" + PadNat(f.nsRem, 3) + "ns";
    assert PadNat(f.nsRem, 6) + "ns" == w;
    assert w[..3] == "000";
    assert w[1] == '0';
  }

  /** With the three-place field, the last word is exactly the nanosecond remainder in three digits. */
  lemma NanosecondWordCorrected(ns: u64)
    ensures var ws := TimecodeWords(ns, 3);
      |ws[|ws| - 1]| == 5 && ParseDecimal(ws[|ws| - 1][..3]) == ns % 1000
  {
    var f := SplitNs(ns);
    assert Pow10(3) == 1000;
    PadNatFixedWidth(f.nsRem, 3);
    PadNatRoundTrip(f.nsRem, 3);
    var w := PadNat(f.nsRem, 3) + "ns";
    assert w[..3] == PadNat(f.nsRem, 3);
  }
}
