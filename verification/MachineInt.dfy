/** Fixed-width machine integers as the C code uses them: ranges, wrap-around,
    arithmetic shifts, truncating division, and the two saturation macros. */
module MachineInt {

  const TWO31: int := 0x8000_0000
  const TWO32: int := 0x1_0000_0000
  const TWO62: int := 0x4000_0000_0000_0000
  const TWO63: int := 0x8000_0000_0000_0000
  const INT32_MAX: int := TWO31 - 1
  const INT32_MIN: int := -TWO31

  newtype s32 = x: int | -0x8000_0000 <= x < 0x8000_0000
  newtype s64 = x: int | -0x8000_0000_0000_0000 <= x < 0x8000_0000_0000_0000

  predicate InS32(x: int) { -TWO31 <= x < TWO31 }
  predicate InS64(x: int) { -TWO63 <= x < TWO63 }
  predicate InU32(x: int) { 0 <= x < TWO32 }
  predicate IsByte(x: int) { 0 <= x < 256 }

  function Abs(x: int): (r: int)
    ensures r >= 0
  {
    if x < 0 then -x else x
  }

  function Pow2(n: nat): (p: nat)
    ensures p >= 1
  {
    if n == 0 then 1 else 2 * Pow2(n - 1)
  }

  /** The C conversion of an integer to UInt32. */
  function U32(x: int): (r: int)
    ensures InU32(r)
  {
    x % TWO32
  }

  /** The C conversion of an integer to SInt32. */
  function S32(x: int): (r: int)
    ensures InS32(r)
    ensures InS32(x) ==> r == x
  {
    (x + TWO31) % TWO32 - TWO31
  }

  /** The value left when a 64-bit register wraps around. */
  function S64(x: int): (r: int)
    ensures InS64(r)
    ensures InS64(x) ==> r == x
  {
    (x + TWO63) % (2 * TWO63) - TWO63
  }

  /** Arithmetic right shift: the floor of x / 2^n. */
  function Shr(x: int, n: nat): int { x / Pow2(n) }

  /** Left shift, before any truncation to a width. */
  function Shl(x: int, n: nat): int { x * Pow2(n) }

  /** C division, which truncates towards zero. */
  function TruncDiv(n: int, d: int): int
    requires d != 0
  {
    var q := Abs(n) / Abs(d);
    if (n < 0) == (d < 0) then q else -q
  }

  /** The nearest 32-bit value. */
  function ClampS32(x: int): (r: int)
    ensures InS32(r)
    ensures InS32(x) ==> r == x
    ensures x < INT32_MIN ==> r == INT32_MIN
    ensures x > INT32_MAX ==> r == INT32_MAX
  {
    if x < INT32_MIN then INT32_MIN else if x > INT32_MAX then INT32_MAX else x
  }

  // ---------------------------------------------------------------- saturation

  /** SATURATE_S32: the sign bit smeared over the word, exclusive-or INT32_MAX. */
  function SaturateS32(sign: int): int
    requires InS32(sign)
  {
    if sign < 0 then INT32_MIN else INT32_MAX
  }

  /** SHIFT_SATURATE applied to the truncation of a 64-bit value. */
  function ShiftSaturate(x64: int): int {
    if S32(Shr(x64, 32)) != S32(Shr(x64, 31)) then SaturateS32(S32(Shr(x64, 32))) else S32(x64)
  }

  /** COMPARE_SATURATE applied to the truncation of a 64-bit value. */
  function CompareSaturate(x64: int): int {
    if x64 < INT32_MIN then INT32_MIN else if x64 > INT32_MAX then INT32_MAX else S32(x64)
  }

  lemma ShiftSaturateClamps(x64: int)
    requires InS64(x64)
    ensures ShiftSaturate(x64) == CompareSaturate(x64) == ClampS32(x64)
  {
    assert Pow2(31) == TWO31 && Pow2(32) == TWO32 by { Pow2Values(); }
    var hi := Shr(x64, 32);
    assert hi == x64 / TWO32 && Shr(x64, 31) == x64 / TWO31;
    assert x64 / TWO31 == 2 * hi || x64 / TWO31 == 2 * hi + 1;
  }

  // ---------------------------------------------------------------- powers of two

  lemma Pow2Values()
    ensures Pow2(0) == 1 && Pow2(1) == 2 && Pow2(5) == 32 && Pow2(8) == 256
    ensures Pow2(15) == 0x8000 && Pow2(16) == 0x1_0000 && Pow2(27) == 0x800_0000
    ensures Pow2(28) == 0x1000_0000 && Pow2(29) == 0x2000_0000 && Pow2(30) == 0x4000_0000
    ensures Pow2(31) == TWO31 && Pow2(32) == TWO32 && Pow2(33) == 2 * TWO32
    ensures Pow2(61) == 0x2000_0000_0000_0000 && Pow2(62) == 0x4000_0000_0000_0000
    ensures Pow2(63) == TWO63
  {
    assert Pow2(8) == 256;
    assert Pow2(16) == 0x1_0000;
    assert Pow2(24) == 0x100_0000;
    assert Pow2(32) == TWO32;
    assert Pow2(40) == 0x100_0000_0000;
    assert Pow2(48) == 0x1_0000_0000_0000;
    assert Pow2(56) == 0x100_0000_0000_0000;
  }

  lemma {:induction false} Pow2Add(a: nat, b: nat)
    ensures Pow2(a + b) == Pow2(a) * Pow2(b)
  {
    if a != 0 {
      Pow2Add(a - 1, b);
      assert 2 * (Pow2(a - 1) * Pow2(b)) == (2 * Pow2(a - 1)) * Pow2(b);
    }
  }

  lemma {:induction false} Pow2Monotone(a: nat, b: nat)
    requires a <= b
    ensures Pow2(a) <= Pow2(b)
  {
    if a < b { Pow2Monotone(a, b - 1); }
  }

  // ---------------------------------------------------------------- division facts

  /** q is the floor of n / d exactly when d*q <= n < d*(q+1). */
  lemma FloorUnique(n: int, d: int, q: int)
    requires d > 0 && d * q <= n < d * q + d
    ensures n / d == q
  {
    assert n == d * (n / d) + n % d;
    assert d * (n / d - q) == n - n % d - d * q;
    SmallMultiple(d, n / d - q);
  }

  lemma SmallMultiple(d: int, m: int)
    requires -d < d * m < d
    ensures m == 0
  {}

  lemma FloorBounds(n: int, d: int)
    requires d > 0
    ensures d * (n / d) <= n < d * (n / d) + d
  {
    assert n == d * (n / d) + n % d;
  }

  /** Two floors in a row, with a term added between them, are one floor. */
  lemma FloorOfFloor(n: int, a: int, c: int, b: int)
    requires a > 0 && b > 0
    ensures a * b > 0 && (n / a + c) / b == (n + c * a) / (a * b)
  {
    var m := n / a;
    var q := (m + c) / b;
    FloorBounds(n, a);
    FloorBounds(m + c, b);
    assert a * b > 0;
    assert a * (b * q) <= a * (m + c) by { MulMonotone(a, b * q, m + c); }
    assert a * (m + c + 1) <= a * (b * q + b) by { MulMonotone(a, m + c + 1, b * q + b); }
    assert a * (b * q) == (a * b) * q;
    assert a * (b * q + b) == (a * b) * q + a * b;
    assert a * (m + c) == a * m + c * a;
    assert a * (m + c + 1) == a * m + c * a + a;
    FloorUnique(n + c * a, a * b, q);
  }

  lemma ShrShr(x: int, a: nat, b: nat)
    ensures Shr(Shr(x, a), b) == Shr(x, a + b)
  {
    FloorOfFloor(x, Pow2(a), 0, Pow2(b));
    Pow2Add(a, b);
  }

  lemma ShlShl(x: int, a: nat, b: nat)
    ensures Shl(Shl(x, a), b) == Shl(x, a + b)
  {
    Pow2Add(a, b);
    assert (x * Pow2(a)) * Pow2(b) == x * (Pow2(a) * Pow2(b));
  }

  lemma MulMonotone(a: int, x: int, y: int)
    requires a >= 0 && x <= y
    ensures a * x <= a * y
  {}

  lemma DivMonotone(x: int, y: int, d: int)
    requires d > 0 && x <= y
    ensures x / d <= y / d
  {
    FloorBounds(x, d);
    FloorBounds(y, d);
    if y / d < x / d {
      MulMonotone(d, y / d + 1, x / d);
    }
  }

  lemma OneMore(p: int, a: int)
    ensures p * (a + 1) == p * a + p
  {}

  lemma QuotientBelow(m: int, e: int)
    requires m >= 0 && e > 0
    ensures 0 <= m / e <= m
  {
    FloorBounds(m, e);
    if m / e > 0 { MulMonotone(m / e, 1, e); }
  }

  lemma ShrinksTowardsZero(x: int, p: int)
    requires p > 0
    ensures x >= 0 ==> 0 <= x / p <= x
    ensures x < 0 ==> x <= x / p < 0
  {
    FloorBounds(x, p);
    if x >= 0 { QuotientBelow(x, p); }
    else {
      if x / p < x { MulMonotone(p, x / p, x - 1); OneMore(p, x - 1); MulMonotone(-x, 1, p); }
      if x / p >= 0 { MulMonotone(p, 0, x / p); }
    }
  }
}
