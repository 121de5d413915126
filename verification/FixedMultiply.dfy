/** Rounding, saturating fixed-point products. */
module FixedMultiply {
  import opened MachineInt

  /** The integer nearest to num / den, the upper one of two equally near. */
  function RoundHalfUp(num: int, den: int): (q: int)
    requires den > 0
    ensures 2 * num - den < 2 * (den * q) <= 2 * num + den
  {
    FloorBounds(2 * num + den, 2 * den);
    (2 * num + den) / (2 * den)
  }

  lemma RoundHalfUpUnique(num: int, den: int, q: int)
    requires den > 0
    requires 2 * num - den < 2 * (den * q) <= 2 * num + den
    ensures q == RoundHalfUp(num, den)
  {
    assert den * (q - RoundHalfUp(num, den)) == den * q - den * RoundHalfUp(num, den);
    SmallMultiple(den, q - RoundHalfUp(num, den));
  }

  /** Adding half a unit before an arithmetic shift rounds to nearest. */
  lemma RoundingShift(p: int, n: nat)
    requires n > 0
    ensures Shr(p + Pow2(n - 1), n) == RoundHalfUp(p, Pow2(n))
  {
    FloorBounds(p + Pow2(n - 1), Pow2(n));
    RoundHalfUpUnique(p, Pow2(n), Shr(p + Pow2(n - 1), n));
  }

  /** A product of two 32-bit values has magnitude at most 2^62. */
  lemma ProductRange(x: int, y: int)
    requires InS32(x) && InS32(y)
    ensures -0x4000_0000_0000_0000 < x * y <= 0x4000_0000_0000_0000
  {
    if x >= 0 {
      MulMonotone(x, -TWO31, y);
      MulMonotone(x, y, TWO31 - 1);
      MulMonotone(TWO31, x, TWO31 - 1);
    } else {
      MulMonotone(-x, -TWO31, y);
      MulMonotone(-x, y, TWO31 - 1);
      MulMonotone(TWO31, -x, TWO31);
      MulMonotone(TWO31 - 1, -x, TWO31);
      assert x * y == -((-x) * y);
    }
  }

  /** A product of two 32-bit values, shifted down n bits, rounded and saturated.
      Every n for which the C shifts are defined is allowed. */
  function FixedNMul(x: int, y: int, n: nat): (r: int)
    requires InS32(x) && InS32(y) && n <= 94
    ensures r == ClampS32(RoundHalfUp(x * y, Pow2(n)))
  {
    var p := x * y;
    ProductRange(x, y);
    var (p1, n1) := if n > 31 then (Shr(p, 31), n - 31) else (p, n);
    NMulStages(p, n);
    var p2 := if n1 > 0 then p1 + Pow2(n1 - 1) else p1;
    assert InS64(p2);
    var p3 := Shr(p2, n1);
    ShiftSaturateClamps(p3);
    ShiftSaturate(p3)
  }

  /** Shifting past 31 bits in two stages rounds once, and stays in 64 bits. */
  lemma NMulStages(p: int, n: nat)
    requires n <= 94 && -0x4000_0000_0000_0000 <= p <= 0x4000_0000_0000_0000
    ensures n > 31 ==> InS64(Shr(p, 31) + Pow2(n - 32))
    ensures n > 31 ==> Shr(Shr(p, 31) + Pow2(n - 32), n - 31) == RoundHalfUp(p, Pow2(n))
    ensures 0 < n <= 31 ==> InS64(p + Pow2(n - 1)) && Shr(p + Pow2(n - 1), n) == RoundHalfUp(p, Pow2(n))
    ensures n == 0 ==> Shr(p, 0) == RoundHalfUp(p, 1)
    ensures InS64(RoundHalfUp(p, Pow2(n)))
  {
    RoundHalfUpRange(p, Pow2(n));
    if n > 31 {
      TwoStageShift(p, n);
    } else if n > 0 {
      Pow2Values();
      RoundingShift(p, n);
      Pow2Monotone(n - 1, 30);
    } else {
      RoundHalfUpUnique(p, 1, p);
    }
  }

  lemma TwoStageShift(p: int, n: nat)
    requires 31 < n <= 94 && -0x4000_0000_0000_0000 <= p <= 0x4000_0000_0000_0000
    ensures InS64(Shr(p, 31) + Pow2(n - 32))
    ensures Shr(Shr(p, 31) + Pow2(n - 32), n - 31) == RoundHalfUp(p, Pow2(n))
  {
    assert Shr(Shr(p, 31) + Pow2(n - 32), n - 31) == Shr(p + Pow2(n - 1), n) by {
      var (a, b, c) := (Pow2(31), Pow2(n - 31), Pow2(n - 32));
      FloorOfFloor(p, a, c, b);
      assert c * a == Pow2(n - 1) by { Pow2Add(n - 32, 31); }
      assert a * b == Pow2(n) by { Pow2Add(31, n - 31); }
    }
    RoundingShift(p, n);
    assert InS64(Shr(p, 31) + Pow2(n - 32)) by {
      Pow2Values();
      Pow2Monotone(n - 32, 62);
      DivMonotone(p, 0x4000_0000_0000_0000, TWO31);
      DivMonotone(-0x4000_0000_0000_0000, p, TWO31);
    }
  }

  /** Rounding never takes a quotient further out than one past the numerator. */
  lemma RoundHalfUpRange(p: int, den: int)
    requires den > 0
    ensures -Abs(p) - 1 <= RoundHalfUp(p, den) <= Abs(p) + 1
  {
    NearMultiple(p, den, RoundHalfUp(p, den));
  }

  lemma NearMultiple(p: int, den: int, q: int)
    requires den > 0 && 2 * Abs(den * q - p) <= den
    ensures Abs(q) <= Abs(p) + 1
  {
    AbsMultiple(den, q);
    if Abs(q) > Abs(p) + 1 {
      MulMonotone(den, Abs(p) + 2, Abs(q));
      MulMonotone(Abs(p), 1, den);
      TwoMore(den, Abs(p));
    }
  }

  lemma AbsMultiple(den: int, q: int)
    requires den > 0
    ensures Abs(den * q) == den * Abs(q)
  {}

  lemma TwoMore(den: int, a: int)
    ensures den * (a + 2) == a * den + 2 * den
  {}

  /** 16.16 product. */
  function FixMul(x: int, y: int): (r: int)
    requires InS32(x) && InS32(y)
    ensures r == FixedNMul(x, y, 16)
  {
    ProductRange(x, y);
    Pow2Values();
    NMulStages(x * y, 16);
    var p := Shr(x * y + 0x8000, 16);
    ShiftSaturateClamps(p);
    ShiftSaturate(p)
  }

  /** 2.30 product. */
  function FracMul(x: int, y: int): (r: int)
    requires InS32(x) && InS32(y)
    ensures r == FixedNMul(x, y, 30)
  {
    ProductRange(x, y);
    Pow2Values();
    NMulStages(x * y, 30);
    var p := Shr(x * y + 0x2000_0000, 30);
    ShiftSaturateClamps(p);
    ShiftSaturate(p)
  }
}
