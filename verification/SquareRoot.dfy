/** Digit-by-digit square roots, which keep the partial remainder in 32 bits. */
module SquareRoot {
  import opened MachineInt

  const TWO30: int := 0x4000_0000
  const TWO60: int := 0x1000_0000_0000_0000

  // ---------------------------------------------------------------- specification

  /** r is the floor of the square root of x. */
  predicate IsFloorRoot(r: int, x: int) { r >= 0 && r * r <= x < r * r + 2 * r + 1 }

  /** r is an integer nearest to the square root of x: |r - sqrt(x)| <= 1/2. */
  predicate IsNearestRoot(r: int, x: int) {
    r >= 0 && 4 * x <= (2 * r + 1) * (2 * r + 1) && (r > 0 ==> (2 * r - 1) * (2 * r - 1) <= 4 * x)
  }

  function FloorRoot(x: nat): (r: nat)
    ensures IsFloorRoot(r, x)
  {
    if x == 0 then 0
    else
      var r := FloorRoot(x - 1);
      assert (r + 1) * (r + 1) == r * r + 2 * r + 1;
      if r * r + 2 * r + 1 <= x then r + 1 else r
  }

  lemma FloorRootUnique(r: int, x: nat)
    requires IsFloorRoot(r, x)
    ensures r == FloorRoot(x)
  {
    var f := FloorRoot(x);
    NotLess(r, f, x);
    NotLess(f, r, x);
  }

  lemma NotLess(r: int, f: int, x: int)
    requires IsFloorRoot(r, x) && IsFloorRoot(f, x)
    ensures r >= f
  {
    if r < f {
      SquareMonotone(r + 1, f);
      NextSquare(r);
    }
  }

  lemma NextSquare(r: int)
    ensures (r + 1) * (r + 1) == r * r + 2 * r + 1
  {}

  lemma SquareMonotone(a: int, b: int)
    requires 0 <= a <= b
    ensures a * a <= b * b
  {}

  /** No two neighbouring integers are equally near to the root of an integer. */
  lemma NearestRootUnique(r: int, s: int, x: int)
    requires IsNearestRoot(r, x) && IsNearestRoot(s, x)
    ensures r == s
  {
    NotNearer(r, s, x);
    NotNearer(s, r, x);
  }

  lemma NotNearer(r: int, s: int, x: int)
    requires IsNearestRoot(r, x) && IsNearestRoot(s, x)
    ensures r >= s
  {
    if r < s {
      SquareMonotone(2 * r + 1, 2 * s - 1);
      if r + 1 < s { StrictSquares(2 * r + 1, 2 * s - 1); }
      OddSquare(r);
    }
  }

  lemma StrictSquares(a: int, b: int)
    requires 0 <= a < b
    ensures a * a < b * b
  {}

  lemma OddSquare(r: int)
    ensures (2 * r + 1) * (2 * r + 1) == 4 * (r * r + r) + 1
  {}

  // ---------------------------------------------------------------- one digit

  /** The three registers of the loop. */
  datatype Registers = Registers(root: int, remHi: int, remLo: int)

  /** One pass of the loop body, with the wrap-around of its unsigned registers. */
  function Digit(s: Registers): Registers {
    var remHi := U32(s.remHi * 4) + s.remLo / TWO30;
    var remLo := U32(s.remLo * 4);
    var root := S32(s.root * 2);
    var testDiv := U32(root * 2 + 1);
    if remHi >= testDiv then Registers(root + 1, remHi - testDiv, remLo)
    else Registers(root, remHi, remLo)
  }

  function Digits(s: Registers, count: nat): Registers {
    if count == 0 then s else Digit(Digits(s, count - 1))
  }

  /** The registers hold the floor root of p and its remainder. */
  ghost predicate Holds(s: Registers, p: int) {
    && InU32(s.remLo)
    && IsFloorRoot(s.root, p)
    && s.remHi == p - s.root * s.root
  }

  /** Two more bits of the argument become one more bit of the root, as long as
      the remainder has two bits to spare. */
  lemma DigitStep(s: Registers, p: int)
    requires Holds(s, p) && s.remHi < TWO30 && s.root < TWO30
    ensures Holds(Digit(s), 4 * p + s.remLo / TWO30)
  {
    var e := s.remLo / TWO30;
    var rem := 4 * s.remHi + e;
    DigitValue(s, rem);
    if rem >= 4 * s.root + 1 {
      OddDigit(s.root, p, e);
    } else {
      EvenDigit(s.root, p, e);
    }
  }

  lemma EvenDigit(r: int, p: int, e: int)
    requires IsFloorRoot(r, p) && 0 <= e < 4 && 4 * (p - r * r) + e < 4 * r + 1
    ensures IsFloorRoot(2 * r, 4 * p + e) && 4 * p + e - (2 * r) * (2 * r) == 4 * (p - r * r) + e
  {
    DoubledSquares(r);
  }

  lemma OddDigit(r: int, p: int, e: int)
    requires IsFloorRoot(r, p) && 0 <= e < 4 && 4 * (p - r * r) + e >= 4 * r + 1
    ensures IsFloorRoot(2 * r + 1, 4 * p + e)
    ensures 4 * p + e - (2 * r + 1) * (2 * r + 1) == 4 * (p - r * r) + e - 4 * r - 1
  {
    DoubledSquares(r);
  }

  lemma DoubledSquares(r: int)
    ensures (2 * r) * (2 * r) == 4 * (r * r) && (2 * r + 1) * (2 * r + 1) == 4 * (r * r) + 4 * r + 1
  {}

  lemma DigitValue(s: Registers, rem: int)
    requires 0 <= s.root < TWO30 && 0 <= s.remHi < TWO30 && InU32(s.remLo)
    requires rem == 4 * s.remHi + s.remLo / TWO30
    ensures Digit(s) == if rem >= 4 * s.root + 1 then Registers(2 * s.root + 1, rem - 4 * s.root - 1, U32(4 * s.remLo))
                        else Registers(2 * s.root, rem, U32(4 * s.remLo))
  {
    Wraps(s);
  }

  lemma Wraps(s: Registers)
    requires 0 <= s.root < TWO30 && 0 <= s.remHi < 2 * TWO30
    ensures U32(s.remHi * 4) == if s.remHi < TWO30 then 4 * s.remHi else 4 * s.remHi - TWO32
    ensures S32(s.root * 2) == 2 * s.root && U32(2 * s.root * 2 + 1) == 4 * s.root + 1
  {}

  lemma RootBound(r: int, b: int, p: int)
    requires IsFloorRoot(r, p) && b > 0 && p < b * b
    ensures r < b
  {
    if r >= b { SquareMonotone(b, r); }
  }

  /** After count digits the registers hold the root of all the bits shifted out:
      the value is conserved between the consumed part and the low register. */
  lemma {:induction false} DigitsHold(s: Registers, p: int, count: nat) returns (q: int)
    requires Holds(s, p)
    requires Pow2(2 * count) * (p * TWO32 + s.remLo) < TWO60 * TWO32
    ensures Holds(Digits(s, count), q)
    ensures q * TWO32 + Digits(s, count).remLo == Pow2(2 * count) * (p * TWO32 + s.remLo)
  {
    if count == 0 {
      q := p;
    } else {
      var v := p * TWO32 + s.remLo;
      var w := Pow2(2 * count - 2) * v;
      FourTimes(count, v);
      var q0 := DigitsHold(s, p, count - 1);
      var t := Digits(s, count - 1);
      RootBound(t.root, 0x2000_0000, q0);
      DigitStep(t, q0);
      LowWordMoves(t);
      q := 4 * q0 + t.remLo / TWO30;
    }
  }

  lemma FourTimes(count: nat, v: int)
    requires count > 0 && v >= 0
    ensures Pow2(2 * count) * v == 4 * (Pow2(2 * count - 2) * v) && Pow2(2 * count - 2) * v >= 0
  {
    var p := Pow2(2 * count - 2);
    assert Pow2(2 * count) == 4 * p;
    MulMonotone(p, 0, v);
    Reassociate(4, p, v);
  }

  lemma Reassociate(a: int, b: int, c: int)
    ensures (a * b) * c == a * (b * c)
  {}

  lemma LowWordMoves(t: Registers)
    requires InU32(t.remLo)
    ensures Digit(t).remLo == 4 * t.remLo - TWO32 * (t.remLo / TWO30)
  {}

  // ---------------------------------------------------------------- the last digit and the rounding

  function Rounded(s: Registers): int {
    if s.remHi > U32(s.root) then S32(s.root + 1) else s.root
  }

  lemma RoundedIsNearest(s: Registers, x: int)
    requires Holds(s, x) && s.root < TWO31 && (s.remHi > s.root ==> s.root < TWO31 - 1)
    ensures IsNearestRoot(Rounded(s), x)
  {
    OddSquare(s.root);
    OddSquare(s.root + 1);
    OddSquare(s.root - 1);
    DoubledSquares(s.root);
    assert (s.root + 1) * (s.root + 1) == s.root * s.root + 2 * s.root + 1;
    assert (s.root - 1) * (s.root - 1) == s.root * s.root - 2 * s.root + 1;
  }

  /** The remainder left over before the last digit needs more than 30 bits. */
  ghost predicate RemainderOverflows(x: nat) {
    x / 4 - FloorRoot(x / 4) * FloorRoot(x / 4) >= TWO30
  }

  /** When the remainder overflows, the shifted remainder has lost 2^32, so the
      last bit comes out 0 where it is 1, and the rounding cannot make up for it. */
  lemma LastDigit(s: Registers, x: int)
    requires 0 <= x < TWO62 && Holds(s, x / 4) && x == 4 * (x / 4) + s.remLo / TWO30
    ensures IsNearestRoot(Rounded(Digit(s)), x) <==> s.remHi < TWO30
    ensures InS32(Rounded(Digit(s)))
  {
    RootBound(s.root, TWO30, x / 4);
    if s.remHi < TWO30 {
      DigitStep(s, x / 4);
      DigitValue(s, 4 * s.remHi + s.remLo / TWO30);
      RoundedIsNearest(Digit(s), x);
    } else {
      OverflowedDigit(s, 4 * s.remHi + s.remLo / TWO30);
      DoubledSquares(s.root);
      TooLow(2 * s.root, 4 * s.remHi + s.remLo / TWO30, x);
    }
  }

  lemma OverflowedDigit(s: Registers, rem: int)
    requires 0 <= s.root < TWO30 <= s.remHi <= 2 * s.root && InU32(s.remLo) && rem == 4 * s.remHi + s.remLo / TWO30
    ensures rem >= TWO32 && Digit(s) == Registers(2 * s.root, rem - TWO32, U32(4 * s.remLo))
    ensures Rounded(Digit(s)) == (if rem - TWO32 > 2 * s.root then 2 * s.root + 1 else 2 * s.root)
  {
    Wraps(s);
  }

  /** With a remainder of 32 bits or more the nearest root lies above r, by more than
      rounding up once can mend. */
  lemma TooLow(r: int, rem: int, x: int)
    requires 0 <= r < 2 * TWO30 && rem >= TWO32 && x == r * r + rem
    ensures !IsNearestRoot(r, x) && (rem - TWO32 > r ==> !IsNearestRoot(r + 1, x))
  {
    OddSquare(r);
    OddSquare(r + 1);
    assert (r + 1) * (r + 1) == r * r + 2 * r + 1;
  }

  /** The smallest argument with such a remainder lies 2^32 above 2^60. */
  lemma FirstOverflow(x: nat)
    ensures x < TWO60 + TWO32 ==> !RemainderOverflows(x)
    ensures RemainderOverflows(TWO60 + TWO32)
  {
    var r := FloorRoot(x / 4);
    if RemainderOverflows(x) {
      SquareMonotone(0x2000_0000, r);
    }
    FloorRootUnique(0x2000_0000, (TWO60 + TWO32) / 4);
  }

  // ---------------------------------------------------------------- the routines

  /** The digit loop that all the roots share. */
  method ShiftInDigits(s: Registers, count: nat) returns (t: Registers)
    ensures t == Digits(s, count)
  {
    var root, remHi, remLo := s.root, s.remHi, s.remLo;
    for i := 0 to count
      invariant Registers(root, remHi, remLo) == Digits(s, i)
    {
      remHi := U32(remHi * 4) + remLo / TWO30;
      remLo := U32(remLo * 4);
      root := S32(root * 2);
      var testDiv := U32(root * 2 + 1);
      if remHi >= testDiv {
        remHi := remHi - testDiv;
        root := root + 1;
      }
    }
    t := Registers(root, remHi, remLo);
  }

  /** The root of a 64-bit integer, documented for arguments of up to 62 bits. */
  method FixedSqrt64to32(x: int) returns (root: int)
    requires 0 <= x < TWO62
    ensures InS32(root)
    ensures IsNearestRoot(root, x) <==> !RemainderOverflows(x)
  {
    var regs := Registers(0, 0, x / TWO32);
    if regs.remLo != 0 {
      regs := ShiftInDigits(regs, 16);
    }
    HighWord(x);
    var start := regs.(remLo := U32(x));
    regs := ShiftInDigits(start, 16);
    root := Rounded(regs);
    LowWord(start, x);
  }

  /** The first loop takes in the high word; for a high word of zero it does nothing. */
  lemma HighWord(x: int)
    requires 0 <= x < TWO62
    ensures var t := Digits(Registers(0, 0, x / TWO32), 16);
            && Holds(t, x / TWO32) && t.remLo == 0
            && (x / TWO32 == 0 ==> t == Registers(0, 0, 0))
  {
    Pow2Values();
    var q := DigitsHold(Registers(0, 0, x / TWO32), 0, 16);
    var t := Digits(Registers(0, 0, x / TWO32), 16);
    assert q == x / TWO32 && t.remLo == 0;
    if q == 0 { RootBound(t.root, 1, 0); }
  }

  lemma LowWord(s: Registers, x: int)
    requires 0 <= x < TWO62 && Holds(s, x / TWO32) && s.remLo == x % TWO32
    ensures InS32(Rounded(Digits(s, 16)))
    ensures IsNearestRoot(Rounded(Digits(s, 16)), x) <==> !RemainderOverflows(x)
  {
    Pow2Values();
    var q := DigitsHold(s, x / TWO32, 15);
    FinalDigit(Digits(s, 15), q, x);
  }

  /** All but the last digit done, with the last two bits on top of the low register. */
  lemma FinalDigit(t: Registers, q: int, x: int)
    requires 0 <= x < TWO62 && Holds(t, q)
    requires 4 * (q * TWO32 + t.remLo) == x * TWO32
    ensures InS32(Rounded(Digit(t)))
    ensures IsNearestRoot(Rounded(Digit(t)), x) <==> !RemainderOverflows(x)
  {
    assert x == 4 * q + t.remLo / TWO30 && q == x / 4;
    LastDigit(t, x);
    FloorRootUnique(t.root, q);
  }

  /** The root of a fixed-point number with an even number n of fraction bits. */
  method FixedNSqrt(a: int, n: nat) returns (root: int)
    requires 0 <= a < TWO31 && n % 2 == 0 && 0 <= Shl(a, n) < TWO62
    ensures InS32(root)
    ensures IsNearestRoot(root, Shl(a, n)) <==> !RemainderOverflows(Shl(a, n))
  {
    NSqrtDigits(a, n, Shl(a, n));
    var count := 15 + n / 2;
    var remLo := U32(a);
    assert remLo == a;
    var regs := ShiftInDigits(Registers(0, 0, remLo), count + 1);
    root := Rounded(regs);
  }

  lemma NSqrtDigits(a: int, n: nat, x: int)
    requires 0 <= a < TWO31 && n % 2 == 0 && 0 <= x == Shl(a, n) < TWO62
    ensures var t := Rounded(Digits(Registers(0, 0, a), 16 + n / 2));
            InS32(t) && (IsNearestRoot(t, x) <==> !RemainderOverflows(x))
  {
    var q := AllButOne(a, n, x);
    FinalDigit(Digits(Registers(0, 0, a), 15 + n / 2), q, x);
  }

  lemma AllButOne(a: int, n: nat, x: int) returns (q: int)
    requires 0 <= a < TWO31 && n % 2 == 0 && 0 <= x == Shl(a, n) < TWO62
    ensures var t := Digits(Registers(0, 0, a), 15 + n / 2);
            Holds(t, q) && 4 * (q * TWO32 + t.remLo) == x * TWO32
  {
    ScaledArgument(a, n);
    q := DigitsHold(Registers(0, 0, a), 0, 15 + n / 2);
  }

  lemma ScaledArgument(a: int, n: nat)
    requires n % 2 == 0
    ensures 4 * (Pow2(2 * (15 + n / 2)) * a) == Shl(a, n) * TWO32
  {
    assert Pow2(2 * (15 + n / 2)) == TWO30 * Pow2(n) by {
      Pow2Add(30, n);
      Pow2Values();
    }
    assert (TWO30 * Pow2(n)) * a == TWO30 * (a * Pow2(n));
  }

  /** Every argument below 2^60 gets its nearest root; so do all 16.16 numbers. */
  lemma FixSqrtAlwaysNearest(a: int)
    requires 0 <= a < TWO31
    ensures Shl(a, 16) < TWO60 && !RemainderOverflows(Shl(a, 16))
  {
    Pow2Values();
    FirstOverflow(Shl(a, 16));
  }

  /** The root of a 16.16 number, correctly rounded. */
  method FixSqrt(a: int) returns (root: int)
    requires 0 <= a < TWO31
    ensures InS32(root) && IsNearestRoot(root, Shl(a, 16))
  {
    FixSqrtAlwaysNearest(a);
    root := FixedNSqrt(a, 16);
  }

  /** The root of a 2.30 number: correctly rounded up to 1, but not always above. */
  method FracSqrt(a: int) returns (root: int)
    requires 0 <= a < TWO31
    ensures InS32(root) && (IsNearestRoot(root, Shl(a, 30)) <==> !RemainderOverflows(Shl(a, 30)))
    ensures a < 0x4000_0004 ==> IsNearestRoot(root, Shl(a, 30))
  {
    FracArgument(a);
    root := FixedNSqrt(a, 30);
  }

  lemma FracArgument(a: int)
    requires 0 <= a < TWO31
    ensures 0 <= Shl(a, 30) < TWO62 && (a < 0x4000_0004 ==> !RemainderOverflows(Shl(a, 30)))
  {
    ShlBy30(a);
    if a < 0x4000_0004 {
      FirstOverflow(Shl(a, 30));
    }
  }

  /** Four units above 1 the loop returns 1, where the nearest root is two units more. */
  lemma FracSqrtWrong(a: int, n: nat)
    requires a == 0x4000_0004 && n == 30
    ensures Shl(a, n) == TWO60 + TWO32 && RemainderOverflows(TWO60 + TWO32)
    ensures Rounded(Digits(Registers(0, 0, a), 16 + n / 2)) == TWO30
    ensures IsNearestRoot(TWO30 + 2, TWO60 + TWO32) && !IsNearestRoot(TWO30, TWO60 + TWO32)
  {
    ShlBy30(a);
    FirstOverflow(TWO60 + TWO32);
    var q := AllButOne(a, n, TWO60 + TWO32);
    var t := Digits(Registers(0, 0, a), 15 + n / 2);
    LastPart(q, t.remLo);
    StaysAtOne(t);
    NearOne();
  }

  lemma NearOne()
    ensures IsNearestRoot(TWO30 + 2, TWO60 + TWO32) && !IsNearestRoot(TWO30, TWO60 + TWO32)
  {}

  lemma ShlBy30(a: int)
    ensures Shl(a, 30) == a * TWO30
  {
    Pow2Values();
  }

  lemma LastPart(q: int, lo: int)
    requires InU32(lo) && 4 * (q * TWO32 + lo) == (TWO60 + TWO32) * TWO32
    ensures q == 0x400_0000_4000_0000 && lo == 0
  {}

  /** The remainder of 2^30 loses its top bits in the last shift, and the last bit is 0. */
  lemma StaysAtOne(t: Registers)
    requires Holds(t, 0x400_0000_4000_0000) && t.remLo == 0
    ensures Rounded(Digit(t)) == TWO30
  {
    FloorRootUnique(t.root, 0x400_0000_4000_0000);
    FloorRootUnique(0x2000_0000, 0x400_0000_4000_0000);
  }
}
