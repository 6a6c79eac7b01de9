/**
 * The pieces of Rust's string formatting and ASCII comparison that the
 * calendar, Unix-time and timecode code use: `{n}` and `{n:0w}` for
 * integers, and `str::eq_ignore_ascii_case`.
 */
module Text {

  import opened Numeric
  import opened Wrappers

  /** The ASCII digit for `d`. */
  function DigitChar(d: nat): (c: char)
    requires d < 10
    ensures '0' <= c <= '9'
    ensures DigitValue(c) == d
  {
    ('0' as int + d) as char
  }

  function DigitValue(c: char): nat
  {
    if '0' <= c <= '9' then c as int - '0' as int else 0
  }

  predicate IsDigits(s: string)
  {
    forall i :: 0 <= i < |s| ==> '0' <= s[i] <= '9'
  }

  /** `format!("{n}")` for a non-negative integer: decimal, no leading zeros. */
  function Decimal(n: nat): (s: string)
    ensures 1 <= |s|
    ensures IsDigits(s)
    ensures |s| > 1 ==> s[0] != '0'
    decreases n
  {
    if n < 10 then [DigitChar(n)] else Decimal(n / 10) + [DigitChar(n % 10)]
  }

  /** Reads a string of decimal digits back as a number. */
  function ParseDecimal(s: string): nat
    decreases |s|
  {
    if |s| == 0 then 0 else ParseDecimal(s[..|s| - 1]) * 10 + DigitValue(s[|s| - 1])
  }

  /** `Decimal` loses nothing: parsing its output gives the number back. */
  lemma {:induction false} DecimalRoundTrip(n: nat)
    ensures ParseDecimal(Decimal(n)) == n
    decreases n
  {
    var s := Decimal(n);
    if n < 10 {
      assert s[..|s| - 1] == [];
    } else {
      DecimalRoundTrip(n / 10);
      assert s[..|s| - 1] == Decimal(n / 10);
    }
  }

  function Pow10(k: nat): (p: nat)
    ensures p >= 1
  {
    if k == 0 then 1 else 10 * Pow10(k - 1)
  }

  /** A number below `10^w` needs at most `w` digits (and at least one). */
  lemma {:induction false} DecimalLength(n: nat, w: nat)
    requires 1 <= w && n < Pow10(w)
    ensures |Decimal(n)| <= w
    decreases w
  {
    if n >= 10 {
      assert w > 1;
      assert n / 10 < Pow10(w - 1);
      DecimalLength(n / 10, w - 1);
    }
  }

  function Zeros(k: nat): (s: string)
    ensures |s| == k
    ensures forall i :: 0 <= i < k ==> s[i] == '0'
  {
    if k == 0 then [] else Zeros(k - 1) + ['0']
  }

  /** `format!("{n:0w}")` for a non-negative integer: zero-padded on the left to at least `w` characters. */
  function PadNat(n: nat, w: nat): (s: string)
    ensures |s| == Max(w, |Decimal(n)|)
    ensures s == Zeros(|s| - |Decimal(n)|) + Decimal(n)
  {
    var d := Decimal(n);
    if |d| >= w then assert Zeros(0) + d == d; d else Zeros(w - |d|) + d
  }

  /** A zero-padded number is all digits. */
  lemma PadNatDigits(n: nat, w: nat)
    ensures IsDigits(PadNat(n, w))
    ensures 1 <= |PadNat(n, w)|
  {
    var d := Decimal(n);
    if |d| < w {
      var z := Zeros(w - |d|);
      assert PadNat(n, w) == z + d;
      assert forall i :: 0 <= i < |z + d| ==> (z + d)[i] == if i < |z| then z[i] else d[i - |z|];
    }
  }

  /** With `n < 10^w` the padded form is exactly `w` digits and still reads back as `n`. */
  lemma PadNatFixedWidth(n: nat, w: nat)
    requires 1 <= w && n < Pow10(w)
    ensures |PadNat(n, w)| == w
    ensures IsDigits(PadNat(n, w))
  {
    DecimalLength(n, w);
  }

  /** Runs of zeros concatenate. */
  lemma {:induction false} ZerosAppend(a: nat, b: nat)
    ensures Zeros(a) + Zeros(b) == Zeros(a + b)
    decreases b
  {
    if b > 0 {
      ZerosAppend(a, b - 1);
      assert Zeros(a) + Zeros(b) == (Zeros(a) + Zeros(b - 1)) + ['0'];
    }
  }

  /** Widening the padding of a number that already fills its width adds zeros in front. */
  lemma PadNatWiden(n: nat, w: nat, k: nat)
    requires 1 <= w && n < Pow10(w)
    ensures PadNat(n, w + k) == Zeros(k) + PadNat(n, w)
  {
    var d := Decimal(n);
    DecimalLength(n, w);
    ZerosAppend(k, w - |d|);
  }

  /** Leading zeros do not change the value read back. */
  lemma {:induction false} ParseIgnoresLeadingZeros(z: nat, s: string)
    ensures ParseDecimal(Zeros(z) + s) == ParseDecimal(s)
    decreases |s|
  {
    if |s| == 0 {
      assert Zeros(z) + s == Zeros(z);
      ParseZeros(z);
    } else {
      var t := Zeros(z) + s;
      assert t[..|t| - 1] == Zeros(z) + s[..|s| - 1];
      ParseIgnoresLeadingZeros(z, s[..|s| - 1]);
    }
  }

  lemma {:induction false} ParseZeros(z: nat)
    ensures ParseDecimal(Zeros(z)) == 0
    decreases z
  {
    if z > 0 {
      var s := Zeros(z);
      assert s[..|s| - 1] == Zeros(z - 1);
      ParseZeros(z - 1);
    }
  }

  /** The padded form reads back as the number. */
  lemma {:induction false} PadNatRoundTrip(n: nat, w: nat)
    ensures ParseDecimal(PadNat(n, w)) == n
  {
    var d := Decimal(n);
    DecimalRoundTrip(n);
    if |d| < w {
      assert PadNat(n, w) == Zeros(w - |d|) + d;
      ParseIgnoresLeadingZeros(w - |d|, d);
    } else {
      assert PadNat(n, w) == d;
    }
  }

  /** `format!("{n:0w}")` for a signed integer: a minus sign counts toward the width, zeros go after it. */
  function PadInt(n: int, w: nat): (s: string)
    ensures w <= |s|
    ensures 0 <= n ==> IsDigits(s)
    ensures n < 0 <==> (|s| > 0 && s[0] == '-')
  {
    if n >= 0 then PadNatDigits(n, w); PadNat(n, w)
    else
      var rest := if w == 0 then 0 else w - 1;
      PadNatDigits(-n, rest);
      "-" + PadNat(-n, rest)
  }

  /** `u8::to_ascii_lowercase` on one character; everything outside `A`..`Z` is unchanged. */
  function LowerAscii(c: char): (r: char)
    ensures 'A' <= c <= 'Z' ==> r as int == c as int + 32
    ensures !('A' <= c <= 'Z') ==> r == c
  {
    if 'A' <= c <= 'Z' then (c as int + 32) as char else c
  }

  /** `str::eq_ignore_ascii_case`: same length and equal character by character after ASCII lowercasing. */
  predicate EqIgnoreAsciiCase(a: string, b: string)
  {
    |a| == |b| && EqIgnoreAsciiCaseFrom(a, b, 0)
  }

  predicate EqIgnoreAsciiCaseFrom(a: string, b: string, i: nat)
    requires |a| == |b| && i <= |a|
    decreases |a| - i
  {
    i == |a| || (LowerAscii(a[i]) == LowerAscii(b[i]) && EqIgnoreAsciiCaseFrom(a, b, i + 1))
  }

  lemma {:induction false} EqIgnoreAsciiCaseFromAll(a: string, b: string, i: nat)
    requires |a| == |b| && i <= |a|
    ensures EqIgnoreAsciiCaseFrom(a, b, i) <==> forall k :: i <= k < |a| ==> LowerAscii(a[k]) == LowerAscii(b[k])
    decreases |a| - i
  {
    if i < |a| {
      EqIgnoreAsciiCaseFromAll(a, b, i + 1);
    }
  }

  /** The comparison, stated pointwise. */
  lemma EqIgnoreAsciiCasePointwise(a: string, b: string)
    ensures EqIgnoreAsciiCase(a, b) <==> |a| == |b| && forall k :: 0 <= k < |a| ==> LowerAscii(a[k]) == LowerAscii(b[k])
  {
    if |a| == |b| {
      EqIgnoreAsciiCaseFromAll(a, b, 0);
    }
  }

  /** Strings that agree up to ASCII case agree on every case-insensitive comparison. */
  lemma EqIgnoreAsciiCaseSubstitute(s: string, t: string, c: string)
    requires EqIgnoreAsciiCase(s, t)
    ensures EqIgnoreAsciiCase(s, c) <==> EqIgnoreAsciiCase(t, c)
  {
    EqIgnoreAsciiCasePointwise(s, t);
    EqIgnoreAsciiCasePointwise(s, c);
    EqIgnoreAsciiCasePointwise(t, c);
  }

  /** The comparison accepts a string against itself. */
  lemma EqIgnoreAsciiCaseReflexive(s: string)
    ensures EqIgnoreAsciiCase(s, s)
  {
    EqIgnoreAsciiCasePointwise(s, s);
  }

  /**
   * A chain of `if s.eq_ignore_ascii_case(name) { .. } else if ..`: the
   * value of the first entry whose name matches, or nothing.
   */
  function FirstMatch<T>(s: string, table: seq<(string, T)>): (r: Option<T>)
    ensures r.None? <==> forall i :: 0 <= i < |table| ==> !EqIgnoreAsciiCase(s, table[i].0)
    decreases |table|
  {
    if |table| == 0 then None
    else if EqIgnoreAsciiCase(s, table[0].0) then Some(table[0].1)
    else FirstMatch(s, table[1..])
  }

  /** The entry a match selects: the first one whose name matches. */
  lemma {:induction false} FirstMatchAt<T>(s: string, table: seq<(string, T)>, i: nat)
    requires i < |table| && EqIgnoreAsciiCase(s, table[i].0)
    requires forall j :: 0 <= j < i ==> !EqIgnoreAsciiCase(s, table[j].0)
    ensures FirstMatch(s, table) == Some(table[i].1)
    decreases i
  {
    if i > 0 {
      FirstMatchAt(s, table[1..], i - 1);
    }
  }

  /** The chain cannot tell apart strings that differ only in ASCII case. */
  lemma {:induction false} FirstMatchIgnoresCase<T>(s: string, t: string, table: seq<(string, T)>)
    requires EqIgnoreAsciiCase(s, t)
    ensures FirstMatch(s, table) == FirstMatch(t, table)
    decreases |table|
  {
    if |table| > 0 {
      EqIgnoreAsciiCaseSubstitute(s, t, table[0].0);
      FirstMatchIgnoresCase(s, t, table[1..]);
    }
  }
  /** When every matching entry carries the same value, the chain yields that value. */
  lemma {:induction false} FirstMatchUnique<T>(s: string, table: seq<(string, T)>, i: nat)
    requires i < |table| && EqIgnoreAsciiCase(s, table[i].0)
    requires forall j :: 0 <= j < |table| && EqIgnoreAsciiCase(s, table[j].0) ==> table[j].1 == table[i].1
    ensures FirstMatch(s, table) == Some(table[i].1)
    decreases |table|
  {
    if !EqIgnoreAsciiCase(s, table[0].0) {
      var rest := table[1..];
      assert forall j :: 0 <= j < |rest| ==> rest[j] == table[j + 1];
      FirstMatchUnique(s, rest, i - 1);
    }
  }

  /** Two strings that differ, ignoring case, at one position are unequal ignoring case. */
  lemma DifferIgnoringCase(a: string, b: string, k: nat)
    requires k < |a| && k < |b| && LowerAscii(a[k]) != LowerAscii(b[k])
    ensures !EqIgnoreAsciiCase(a, b)
  {
    EqIgnoreAsciiCasePointwise(a, b);
  }
}
