/** Rounding, saturating fixed-point quotients. */
module FixedDivide {
  import opened MachineInt

  /** A magnitude with the sign that n / d has. */
  function Signed(m: int, n: int, d: int): int {
    if (n < 0) == (d < 0) then m else -m
  }

  lemma SignedError(m: int, n: int, d: int)
    requires m >= 0 && d != 0
    ensures Abs(Signed(m, n, d) * d - n) == Abs(m * Abs(d) - Abs(n))
    ensures Abs(Signed(m, n, d) * d) == m * Abs(d)
  {
    assert Signed(m, n, d) * d == if n < 0 then -(m * Abs(d)) else m * Abs(d);
    assert m * Abs(d) >= 0;
  }

  /** The integer nearest to a / e, halves up. */
  function NearestMagnitude(a: int, e: int): (m: int)
    requires a >= 0 && e > 0
    ensures m >= 0
    ensures 2 * a - e < 2 * (m * e) <= 2 * a + e
  {
    FloorBounds(2 * a + e, 2 * e);
    var m := (2 * a + e) / (2 * e);
    assert (2 * e) * m == 2 * (m * e);
    m
  }

  /** The integer nearest to n / d, the one further from zero of two equally near. */
  function RoundHalfAway(n: int, d: int): (q: int)
    requires d != 0
    ensures 2 * Abs(q * d - n) <= Abs(d)
    ensures 2 * Abs(q * d - n) == Abs(d) ==> Abs(q * d) > Abs(n)
  {
    var m := NearestMagnitude(Abs(n), Abs(d));
    SignedError(m, n, d);
    Signed(m, n, d)
  }

  /** The dividend moved away from zero by d >> 1, the C shift that floors. */
  function Biased(n: int, d: int): int {
    if (Shr(n, 32) < 0) != (d < 0) then n - Shr(d, 1) else n + Shr(d, 1)
  }

  function BiasedQuotient(n: int, d: int): int
    requires d != 0
  {
    TruncDiv(Biased(n, d), d)
  }

  /** The size of the rounding term: half of |d|, upwards for a negative d. */
  function Half(d: int): (h: int)
    ensures h >= 0
  {
    if d > 0 then d / 2 else (1 - d) / 2
  }

  lemma BiasedMagnitude(n: int, d: int)
    requires d != 0
    ensures BiasedQuotient(n, d) == Signed((Abs(n) + Half(d)) / Abs(d), n, d)
    ensures Biased(n, d) == if n < 0 then n - Half(d) else n + Half(d)
  {
    Pow2Values();
    FloorBounds(n, TWO32);
    if Biased(n, d) == 0 {
      FloorUnique(0, Abs(d), 0);
    }
  }

  /** The shift floors, so an odd negative divisor is halved upwards in magnitude;
      the result is wrong for the one remainder just below one half. */
  predicate HalvesUp(n: int, d: int)
    requires d != 0
  {
    d < 0 && d % 2 == 1 && Abs(n) % Abs(d) == (Abs(d) - 1) / 2
  }

  /** Division of magnitudes with the two rounding terms, by the remainder. */
  lemma MagnitudeByRemainder(a: int, e: int, h: int)
    requires a >= 0 && e > 0 && 0 <= h <= e
    ensures (a + h) / e == a / e + (if a % e + h >= e then 1 else 0)
    ensures NearestMagnitude(a, e) == a / e + (if 2 * (a % e) >= e then 1 else 0)
  {
    var k, r := a / e, a % e;
    assert a == e * k + r;
    var k1 := if r + h >= e then k + 1 else k;
    assert e * (k + 1) == e * k + e;
    FloorUnique(a + h, e, k1);
    var k2 := if 2 * r >= e then k + 1 else k;
    assert (2 * e) * k2 == 2 * (e * k2);
    FloorUnique(2 * a + e, 2 * e, k2);
  }

  /** Exactly what the biased division returns, for every dividend and divisor. */
  lemma BiasedQuotientExactly(n: int, d: int)
    requires d != 0
    ensures BiasedQuotient(n, d) == RoundHalfAway(n, d) + (if HalvesUp(n, d) then Signed(1, n, d) else 0)
  {
    BiasedMagnitude(n, d);
    MagnitudeByRemainder(Abs(n), Abs(d), Half(d));
  }

  /** The quotient is the nearest integer exactly when the divisor is not of that
      kind; in every case it is at most one half unit plus 1/(2|d|) away. */
  lemma NearestExactlyWhen(n: int, d: int)
    requires d != 0
    ensures 2 * Abs(BiasedQuotient(n, d) * d - n) <= Abs(d) <==> !HalvesUp(n, d)
    ensures 2 * Abs(BiasedQuotient(n, d) * d - n) <= Abs(d) + 1
  {
    BiasedQuotientExactly(n, d);
    if HalvesUp(n, d) {
      BiasedMagnitude(n, d);
      MagnitudeByRemainder(Abs(n), Abs(d), Half(d));
      UpperNeighbour(Abs(n), Abs(d));
      SignedError(Abs(n) / Abs(d) + 1, n, d);
    }
  }

  lemma UpperNeighbour(a: int, e: int)
    requires a >= 0 && e > 0 
    ensures a / e >= 0 && (a / e + 1) * e - a == e - a % e
  {
    assert a == e * (a / e) + a % e;
    assert (a / e + 1) * e == e * (a / e) + e;
  }

  /** The rounding term and the quotient stay inside 64 bits. */
  predicate DivisionFits(n: int, d: int)
    requires d != 0
  {
    InS64(Biased(n, d)) && InS64(BiasedQuotient(n, d))
  }

  function Divide64by32giving32(n: int, d: int): (r: int)
    requires InS64(n) && InS32(d) && (d != 0 ==> DivisionFits(n, d))
    ensures d != 0 ==> r == ClampS32(BiasedQuotient(n, d))
    ensures d != 0 && !HalvesUp(n, d) ==> r == ClampS32(RoundHalfAway(n, d))
    ensures d == 0 ==> r == if n < 0 then INT32_MIN else if n > 0 then INT32_MAX else 0
  {
    if d != 0 then
      var q := TruncDiv(Biased(n, d), d);
      ShiftSaturateClamps(q);
      BiasedQuotientExactly(n, d);
      ShiftSaturate(q)
    else if n < 0 then INT32_MIN
    else if n > 0 then INT32_MAX
    else 0
  }

  /** A divisor of -1 shows the fault: 5 / -1 comes out as -6, and 0 / -1 as -1. */
  lemma MinusOneIsOffByOne()
    ensures HalvesUp(5, -1) && DivisionFits(5, -1) && Divide64by32giving32(5, -1) == -6
    ensures HalvesUp(0, -1) && DivisionFits(0, -1) && Divide64by32giving32(0, -1) == -1
  {
    Pow2Values();
  }

  /** Dividends this far inside 64 bits need no further check. */
  lemma SmallDividendFits(n: int, d: int)
    requires d != 0 && InS32(d) && -TWO63 + TWO31 < n < TWO63 - TWO31
    ensures DivisionFits(n, d)
  {
    BiasedMagnitude(n, d);
    QuotientBelow(Abs(n) + Half(d), Abs(d));
  }

  // ---------------------------------------------------------------- fixed-point division

  /** x * 2^n / y. For n of 32 and more, numerators that would lose bits saturate early. */
  function FixedNDiv(x: int, y: int, n: nat): (r: int)
    requires InS32(x) && InS32(y) && n <= 63
    ensures x == 0 ==> r == 0
    ensures x != 0 && y == 0 ==> r == if x < 0 then INT32_MIN else INT32_MAX
    ensures x != 0 && y != 0 ==> r == ClampS32(BiasedQuotient(Shl(x, n), y))
    ensures x != 0 && y != 0 && !HalvesUp(Shl(x, n), y) ==> r == ClampS32(RoundHalfAway(Shl(x, n), y))
  {
    if x == 0 then 0
    else if y == 0 then SaturateS32(x)
    else
      BiasedQuotientExactly(Shl(x, n), y);
      if n > 31 && Shr(S32(Abs(x)), 63 - n) != 0 then
        EarlySaturation(x, y, n);
        SaturateS32(if (x < 0) != (y < 0) then -1 else 0)
      else
        var z := if n > 31 then Shl(Shl(x, 31), n - 31) else Shl(x, n);
        ShiftedDividend(x, n);
        SmallDividendFits(z, y);
        Divide64by32giving32(z, y)
  }

  /** Early saturation fires only when the true quotient is out of range, and then
      with its sign. */
  lemma EarlySaturation(x: int, y: int, n: nat)
    requires InS32(x) && InS32(y) && y != 0 && 31 < n <= 63
    requires Shr(S32(Abs(x)), 63 - n) != 0
    ensures ClampS32(BiasedQuotient(Shl(x, n), y)) == if (x < 0) != (y < 0) then INT32_MIN else INT32_MAX
    ensures Abs(Shl(x, n)) >= TWO32 * Abs(y)
  {
    LostBits(x, n);
    LargeQuotient(Shl(x, n), y);
  }

  lemma LargeQuotient(m: int, y: int)
    requires InS32(y) && y != 0 && Abs(m) >= TWO63
    ensures ClampS32(BiasedQuotient(m, y)) == if (m < 0) != (y < 0) then INT32_MIN else INT32_MAX
    ensures Abs(m) >= TWO32 * Abs(y)
  {
    BiasedMagnitude(m, y);
    DivMonotone(TWO32 * Abs(y), Abs(m) + Half(y), Abs(y));
    FloorUnique(TWO32 * Abs(y), Abs(y), TWO32);
  }

  lemma LostBits(x: int, n: nat)
    requires InS32(x) && 31 < n <= 63
    requires Shr(S32(Abs(x)), 63 - n) != 0
    ensures Abs(Shl(x, n)) >= TWO63 && (Shl(x, n) < 0) == (x < 0)
  {
    ShlMagnitude(x, n);
    EnoughBits(x, 63 - n);
    MulMonotone(Pow2(n), Pow2(63 - n), Abs(x));
    Pow2Split(n);
  }

  lemma EnoughBits(x: int, k: nat)
    requires InS32(x) && k <= 31
    ensures Shr(S32(Abs(x)), k) != 0 <==> Abs(x) >= Pow2(k)
  {
    Pow2Monotone(k, 31);
    Pow2Values();
    var s := S32(Abs(x));
    FloorBounds(s, Pow2(k));
    if 0 <= s < Pow2(k) {
      FloorUnique(s, Pow2(k), 0);
    }
  }

  lemma Pow2Split(n: nat)
    requires n <= 63
    ensures Pow2(n) * Pow2(63 - n) == TWO63
  {
    Pow2Add(n, 63 - n);
    Pow2Values();
  }

  lemma ShlMagnitude(x: int, n: nat)
    ensures Abs(Shl(x, n)) == Pow2(n) * Abs(x)
    ensures (Shl(x, n) < 0) == (x < 0) && (Shl(x, n) == 0) == (x == 0)
  {
    MulMonotone(Pow2(n), 0, Abs(x));
    assert x * Pow2(n) == if x < 0 then -(Pow2(n) * Abs(x)) else Pow2(n) * Abs(x);
    if x != 0 { MulMonotone(Pow2(n), 1, Abs(x)); }
  }

  /** Numerators let through leave room for the rounding term. */
  lemma ShiftedDividend(x: int, n: nat)
    requires InS32(x) && n <= 63
    requires n > 31 ==> Shr(S32(Abs(x)), 63 - n) == 0
    ensures n > 31 ==> Shl(Shl(x, 31), n - 31) == Shl(x, n) && InS64(Shl(x, 31))
    ensures -TWO63 + TWO31 < Shl(x, n) < TWO63 - TWO31
  {
    ShlMagnitude(x, n);
    if n > 31 {
      KeptBits(x, n);
      ShlShl(x, 31, n - 31);
    } else {
      SmallShift(x, n);
    }
    SmallShift(x, 31);
  }

  lemma SmallShift(x: int, n: nat)
    requires InS32(x) && n <= 31
    ensures Pow2(n) * Abs(x) <= 0x4000_0000_0000_0000 && InS64(Shl(x, n))
  {
    ShlMagnitude(x, n);
    assert Pow2(n) <= TWO31 by { Pow2Monotone(n, 31); Pow2Values(); }
    assert Pow2(n) * Abs(x) <= Pow2(n) * TWO31 by { MulMonotone(Pow2(n), Abs(x), TWO31); }
  }

  lemma KeptBits(x: int, n: nat)
    requires InS32(x) && 31 < n <= 63
    requires Shr(S32(Abs(x)), 63 - n) == 0
    ensures Pow2(n) * Abs(x) <= TWO63 - TWO32
  {
    EnoughBits(x, 63 - n);
    Pow2Split(n);
    ProductBelow(Pow2(n), Abs(x), Pow2(63 - n));
    WidePower(n);
  }

  lemma ProductBelow(p: int, a: int, b: int)
    requires p >= 0 && a + 1 <= b
    ensures p * a + p <= p * b
  {
    MulMonotone(p, a + 1, b);
    OneMore(p, a);
  }

  lemma WidePower(n: nat)
    requires n >= 32
    ensures Pow2(n) >= TWO32
  {
    Pow2Monotone(32, n);
    Pow2Values();
  }

  /** 16.16 quotient. */
  function FixDiv(x: int, y: int): (r: int)
    requires InS32(x) && InS32(y)
    ensures x != 0 ==> r == FixedNDiv(x, y, 16)
    ensures x == 0 ==> r == if y == -1 then -1 else 0
  {
    FixedShift(x, y, 16);
    Divide64by32giving32(Shl(x, 16), y)
  }

  /** 2.30 quotient. */
  function FracDiv(x: int, y: int): (r: int)
    requires InS32(x) && InS32(y)
    ensures x != 0 ==> r == FixedNDiv(x, y, 30)
    ensures x == 0 ==> r == if y == -1 then -1 else 0
  {
    FixedShift(x, y, 30);
    Divide64by32giving32(Shl(x, 30), y)
  }

  lemma FixedShift(x: int, y: int, n: nat)
    requires InS32(x) && InS32(y) && 0 < n <= 30
    ensures InS64(Shl(x, n)) && (y != 0 ==> DivisionFits(Shl(x, n), y))
    ensures y != 0 ==> BiasedQuotient(0, y) == if y == -1 then -1 else 0
    ensures (Shl(x, n) < 0) == (x < 0) && (Shl(x, n) == 0) == (x == 0)
  {
    ShiftedDividend(x, n);
    ShlMagnitude(x, n);
    if y != 0 {
      SmallDividendFits(Shl(x, n), y);
      ZeroDividend(y);
    }
  }

  lemma ZeroDividend(y: int)
    requires y != 0
    ensures BiasedQuotient(0, y) == if y == -1 then -1 else 0
  {
    BiasedMagnitude(0, y);
    if y != -1 { FloorUnique(Half(y), Abs(y), 0); }
  }
}
