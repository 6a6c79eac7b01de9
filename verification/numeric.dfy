/**
 * Fixed-width integers of the source, modelled on Dafny's unbounded `int`.
 * Every wrap-around, saturation or truncation the source relies on is
 * written out here once.
 */
module Numeric {

  const I32_MIN: int := -0x8000_0000
  const I32_MAX: int := 0x7FFF_FFFF
  const I64_MIN: int := -0x8000_0000_0000_0000
  const I64_MAX: int := 0x7FFF_FFFF_FFFF_FFFF
  const U32_MAX: int := 0xFFFF_FFFF
  const U64_MODULUS: int := 0x1_0000_0000_0000_0000

  type u8 = x: int | 0 <= x < 0x100
  type u32 = x: int | 0 <= x <= 0xFFFF_FFFF
  type u64 = x: int | 0 <= x < 0x1_0000_0000_0000_0000
  type i32 = x: int | -0x8000_0000 <= x <= 0x7FFF_FFFF
  type i64 = x: int | -0x8000_0000_0000_0000 <= x <= 0x7FFF_FFFF_FFFF_FFFF

  function Max(a: int, b: int): int { if a < b then b else a }

  function Min(a: int, b: int): int { if a < b then a else b }

  /** `i128::clamp(lo, hi)`: the source calls it with `lo <= hi`, otherwise it panics. */
  function Clamp(x: int, lo: int, hi: int): (r: int)
    requires lo <= hi
    ensures lo <= r <= hi
    ensures lo <= x <= hi ==> r == x
    ensures x < lo ==> r == lo
    ensures hi < x ==> r == hi
  {
    if x < lo then lo else if hi < x then hi else x
  }

  /** `lag.clamp(i32::MIN as i128, i32::MAX as i128) as i32`. */
  function ClampI32(x: int): (r: i32)
    ensures I32_MIN <= x <= I32_MAX ==> r == x
    ensures x < I32_MIN ==> r == I32_MIN
    ensures I32_MAX < x ==> r == I32_MAX
  {
    Clamp(x, I32_MIN, I32_MAX)
  }

  /** `i32::saturating_add`: the exact sum, pinned to the nearest bound of `i32`. */
  function SaturatingAddI32(a: i32, b: i32): (r: i32)
    ensures I32_MIN <= a + b <= I32_MAX ==> r == a + b
    ensures a + b < I32_MIN ==> r == I32_MIN
    ensures I32_MAX < a + b ==> r == I32_MAX
  {
    ClampI32(a + b)
  }

  /** A truncating `as u64` cast of a signed value: two's complement wrap modulo 2^64. */
  function WrapU64(x: int): (r: u64)
    ensures 0 <= x < U64_MODULUS ==> r == x
    ensures -U64_MODULUS <= x < 0 ==> r == x + U64_MODULUS
  {
    x % U64_MODULUS
  }

  /** A truncating `as u8` cast. */
  function WrapU8(x: int): (r: u8)
    ensures 0 <= x < 0x100 ==> r == x
    ensures -0x100 <= x < 0 ==> r == x + 0x100
  {
    x % 0x100
  }

  /** A truncating `as u16` cast. */
  function WrapU16(x: int): (r: int)
    ensures 0 <= r < 0x1_0000
    ensures 0 <= x < 0x1_0000 ==> r == x
  {
    x % 0x1_0000
  }

  /** Rust's `/` on signed integers, which rounds toward zero (divisor positive). */
  function TDiv(a: int, b: int): (q: int)
    requires b > 0
    ensures 0 <= a ==> q == a / b
    ensures a < 0 ==> q == -((-a) / b)
  {
    if a >= 0 then a / b else -((-a) / b)
  }

  /** Rust's `%` on signed integers: the remainder takes the sign of the dividend. */
  function TRem(a: int, b: int): (r: int)
    requires b > 0
    ensures 0 <= a ==> r == a % b
    ensures a < 0 ==> r == -((-a) % b)
  {
    if a >= 0 then a % b else -((-a) % b)
  }

  /** Truncating division and remainder put the dividend back together. */
  lemma TruncatedDivision(a: int, b: int)
    requires b > 0
    ensures a == TDiv(a, b) * b + TRem(a, b)
    ensures 0 <= a ==> 0 <= TRem(a, b) < b
    ensures a < 0 ==> -b < TRem(a, b) <= 0
  {
  }

  /** Adding to a value already reduced modulo `m` is the same as adding first and reducing once. */
  lemma {:induction false} ModAddReduced(x: int, v: int, m: int)
    requires m > 0
    ensures (x % m + v) % m == (x + v) % m
  {
    var q := x / m;
    assert x == q * m + x % m;
    assert x + v == (x % m + v) + q * m;
    ModAddMultiple(x % m + v, q, m);
  }

  lemma {:induction false} ModAddMultiple(y: int, q: int, m: int)
    requires m > 0
    ensures (y + q * m) % m == y % m
  {
    var r := y % m;
    var p := y / m;
    assert y == p * m + r;
    assert y + q * m == (p + q) * m + r by {
      assert (p + q) * m == p * m + q * m;
    }
    ModUnique(y + q * m, p + q, r, m);
  }

  /** Division with remainder is unique. */
  lemma {:induction false} ModUnique(a: int, k: int, r: int, m: int)
    requires m > 0 && 0 <= r < m && a == k * m + r
    ensures a % m == r
  {
    var k' := a / m;
    var r' := a % m;
    assert a == k' * m + r';
    assert (k - k') * m == r' - r by {
      assert (k - k') * m == k * m - k' * m;
    }
    MultipleBelowModulus(k - k', m);
  }

  /** Quotient and remainder are unique. */
  lemma DivModUnique(a: int, k: int, r: int, m: int)
    requires m > 0 && 0 <= r < m && a == k * m + r
    ensures a / m == k && a % m == r
  {
    ModUnique(a, k, r, m);
    assert a == (a / m) * m + a % m;
    assert (a / m - k) * m == 0 by {
      assert (a / m - k) * m == (a / m) * m - k * m;
    }
    MultipleBelowModulus(a / m - k, m);
  }

  /** The only multiple of `m` strictly between `-m` and `m` is zero. */
  lemma {:induction false} MultipleBelowModulus(d: int, m: int)
    requires m > 0
    ensures d != 0 ==> d * m >= m || d * m <= -m
  {
    if d > 0 {
      PositiveMultiple(d, m);
    } else if d < 0 {
      PositiveMultiple(-d, m);
      assert d * m == -((-d) * m);
    }
  }

  lemma {:induction false} PositiveMultiple(d: nat, m: int)
    requires m > 0
    ensures d > 0 ==> d * m >= m
    decreases d
  {
    if d > 1 {
      PositiveMultiple(d - 1, m);
      assert d * m == (d - 1) * m + m;
    }
  }
}
