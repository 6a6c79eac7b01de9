/**
 * Rate names and their fixed-width keys. The source hands the name to an
 * external six-bit encoder; this module stands in for it with an injective
 * packing of six bits per character into a key below 2^128, which is all
 * the rate table relies on. The encoder's own bit layout is not modelled.
 */
module NameKeys {

  import opened Wrappers
  import Numeric

  const MAX_NAME_LEN: nat := 21
  const KEY_BOUND: nat := 0x1_0000_0000_0000_0000_0000_0000_0000_0000

  /** A `u128` key. */
  type Key = k: nat | k < 0x1_0000_0000_0000_0000_0000_0000_0000_0000

  datatype EncodeError = InvalidName

  /** The characters a rate name may use: ASCII letters, digits and `_`. */
  predicate ValidChar(c: char)
  {
    ('0' <= c <= '9') || ('A' <= c <= 'Z') || ('a' <= c <= 'z') || c == '_'
  }

  /** At most 21 characters of `[A-Za-z0-9_]`. */
  predicate ValidName(name: string)
  {
    |name| <= MAX_NAME_LEN && forall i :: 0 <= i < |name| ==> ValidChar(name[i])
  }

  /** The six-bit code of a valid character, never 0 so that lengths are recoverable. */
  function Code(c: char): (code: nat)
    requires ValidChar(c)
    ensures 1 <= code < 64
  {
    if '0' <= c <= '9' then c as int - '0' as int + 1
    else if 'A' <= c <= 'Z' then c as int - 'A' as int + 11
    else if c == '_' then 37
    else c as int - 'a' as int + 38
  }

  /** The character of a code in 1..63. */
  function CharOf(code: nat): (c: char)
    requires 1 <= code < 64
  {
    if code <= 10 then ('0' as int + code - 1) as char
    else if code <= 36 then ('A' as int + code - 11) as char
    else if code == 37 then '_'
    else ('a' as int + code - 38) as char
  }

  lemma CodeRoundTrip(c: char)
    requires ValidChar(c)
    ensures CharOf(Code(c)) == c
  {
  }

  function Pow64(n: nat): (p: nat)
    ensures p >= 1
  {
    if n == 0 then 1 else 64 * Pow64(n - 1)
  }

  /** Six bits per character, first character in the lowest bits. */
  function Pack(name: string): (k: nat)
    requires forall i :: 0 <= i < |name| ==> ValidChar(name[i])
    ensures k < Pow64(|name|)
    ensures k == 0 <==> |name| == 0
  {
    if |name| == 0 then 0 else Code(name[0]) + 64 * Pack(name[1..])
  }

  /** Reads the characters back out of a key. */
  function Unpack(key: nat): string
    decreases key
  {
    if key == 0 || key % 64 == 0 then [] else [CharOf(key % 64)] + Unpack(key / 64)
  }

  lemma {:induction false} UnpackPack(name: string)
    requires forall i :: 0 <= i < |name| ==> ValidChar(name[i])
    ensures Unpack(Pack(name)) == name
    decreases |name|
  {
    if |name| > 0 {
      var c := Code(name[0]);
      var p := Pack(name[1..]);
      var k := Pack(name);
      assert k == p * 64 + c;
      Numeric.ModUnique(k, p, c, 64);
      assert k / 64 == p;
      UnpackPack(name[1..]);
      CodeRoundTrip(name[0]);
      assert name == [name[0]] + name[1..];
    }
  }

  lemma {:induction false} Pow64Monotone(m: nat, n: nat)
    requires m <= n
    ensures Pow64(m) <= Pow64(n)
    decreases n
  {
    if m < n {
      Pow64Monotone(m, n - 1);
    }
  }

  lemma {:induction false} Pow64Add(a: nat, b: nat)
    ensures Pow64(a + b) == Pow64(a) * Pow64(b)
    decreases b
  {
    if b > 0 {
      Pow64Add(a, b - 1);
      assert Pow64(a + b) == 64 * (Pow64(a) * Pow64(b - 1));
    }
  }

  /** Keys of names of the longest allowed length still fit in 128 bits. */
  lemma Pow64Bound()
    ensures Pow64(MAX_NAME_LEN) < KEY_BOUND
  {
    assert Pow64(7) == 0x400_0000_0000;
    Pow64Add(7, 7);
    Pow64Add(14, 7);
  }

  /** The encoder: a valid name gets its key, anything else is rejected. */
  function Encode(name: string): (r: Result<Key, EncodeError>)
    ensures r.Ok? <==> ValidName(name)
  {
    if ValidName(name) then
      Pow64Monotone(|name|, MAX_NAME_LEN);
      Pow64Bound();
      Ok(Pack(name))
    else Err(InvalidName)
  }

  /** The decoder, `decode_sixbit`. */
  function Decode(key: Key): string
  {
    Unpack(key)
  }

  /** Decoding a name's key gives the name back. */
  lemma EncodeRoundTrip(name: string)
    requires ValidName(name)
    ensures Decode(Encode(name).value) == name
  {
    UnpackPack(name);
  }

  /** Distinct valid names get distinct keys. */
  lemma EncodeInjective(a: string, b: string)
    requires Encode(a).Ok? && Encode(b).Ok?
    ensures Encode(a) == Encode(b) <==> a == b
  {
    if Encode(a) == Encode(b) {
      EncodeRoundTrip(a);
      EncodeRoundTrip(b);
    }
  }
}
