/** The 64-by-64-bit divider that shifts its operands to keep as much precision
    as 64 bits allow, and the leading-zero count it relies on. */
module NormalisingDivide {
  import opened MachineInt
  import opened FixedDivide
  import opened FixedMultiply

  // ---------------------------------------------------------------- leading zeros

  /** A count of zeros so far, and the word still to be searched. */
  datatype Search = Search(zeros: int, lo: int)

  /** One halving step: the upper part of the word is empty, or holds the top bit. */
  function Probe(s: Search, w: nat): Search {
    var hi := Shr(s.lo, w);
    if hi == 0 then Search(s.zeros + w, s.lo) else Search(s.zeros, hi)
  }

  /** The bit pattern of a 64-bit integer, read as an unsigned number. */
  function Bits(x: int): (u: int)
    requires InS64(x)
    ensures 0 <= u < 2 * TWO63 && (x >= 0 ==> u == x) && (x < 0 ==> u >= TWO63)
  {
    if x < 0 then x + 2 * TWO63 else x
  }

  function LeadingZeros64(x: int): (n: int)
    requires InS64(x)
    ensures x < 0 ==> n == 0
    ensures x == 0 ==> n == 63
    ensures x > 0 ==> 0 < n <= 63 && Pow2(63 - n) <= x < Pow2(64 - n)
  {
    var hi, lo := U32(Shr(x, 32)), U32(x);
    var s := if hi == 0 then Search(32, lo) else Search(0, hi);
    SearchStarts(x, s);
    SearchEnds(s, Bits(x));
    Probe(Probe(Probe(Probe(Probe(s, 16), 8), 4), 2), 1).zeros
  }

  /** The word to be searched is the part of u below the counted zeros, cut to w
      bits, and holds its top bit; for u = 0 everything above w bits is counted. */
  ghost predicate Brackets(s: Search, w: nat, u: int) {
    && 0 <= s.zeros && s.zeros + w <= 64
    && 0 <= s.lo < Pow2(w)
    && (if u > 0 then 0 < s.lo == Shr(u, 64 - w - s.zeros) else s.lo == 0 && s.zeros + w == 64)
  }

  lemma SearchStarts(x: int, s: Search)
    requires InS64(x)
    requires var hi := U32(Shr(x, 32)); s == if hi == 0 then Search(32, U32(x)) else Search(0, hi)
    ensures Brackets(s, 32, Bits(x))
  {
    Pow2Values();
    TwoWords(x);
  }

  lemma TwoWords(x: int)
    requires InS64(x)
    ensures U32(x / TWO32) == Bits(x) / TWO32 && U32(x) == Bits(x) % TWO32
  {
    FloorBounds(x, TWO32);
    FloorBounds(Bits(x), TWO32);
  }

  lemma ProbeBrackets(s: Search, w: nat, u: int)
    requires u >= 0 && Brackets(s, 2 * w, u)
    ensures Brackets(Probe(s, w), w, u)
  {
    var hi := Shr(s.lo, w);
    Pow2Add(w, w);
    FloorBounds(s.lo, Pow2(w));
    SmallQuotient(s.lo, Pow2(w));
    if u > 0 {
      ShrShr(u, 64 - 2 * w - s.zeros, w);
    }
  }

  lemma SmallQuotient(n: int, p: int)
    requires p > 0 && 0 <= n < p * p
    ensures 0 <= n / p < p && (n / p == 0 <==> n < p)
  {
    FloorBounds(n, p);
    if n / p >= p { MulMonotone(p, p, n / p); }
    if n / p < 0 { MulMonotone(p, n / p, -1); }
    if n < p { FloorUnique(n, p, 0); }
  }

  lemma SearchEnds(s: Search, u: int)
    requires 0 <= u < 2 * TWO63 && Brackets(s, 32, u)
    ensures var n := Probe(Probe(Probe(Probe(Probe(s, 16), 8), 4), 2), 1).zeros;
            0 <= n <= 63 && (u == 0 ==> n == 63) && (u > 0 ==> Pow2(63 - n) <= u < Pow2(64 - n))
            && (u >= TWO63 <==> n == 0)
  {
    ProbeBrackets(s, 16, u);
    var s1 := Probe(s, 16);
    ProbeBrackets(s1, 8, u);
    var s2 := Probe(s1, 8);
    ProbeBrackets(s2, 4, u);
    var s3 := Probe(s2, 4);
    ProbeBrackets(s3, 2, u);
    var s4 := Probe(s3, 2);
    ProbeBrackets(s4, 1, u);
    TopBit(Probe(s4, 1), u);
  }

  lemma TopBit(s: Search, u: int)
    requires 0 <= u < 2 * TWO63 && Brackets(s, 1, u)
    ensures 0 <= s.zeros <= 63 && (u == 0 ==> s.zeros == 63)
    ensures u > 0 ==> Pow2(63 - s.zeros) <= u < Pow2(64 - s.zeros)
    ensures u >= TWO63 <==> s.zeros == 0
  {
    if u > 0 {
      LeadingBit(s, u);
    } else {
      assert s.zeros == 63;
    }
  }

  lemma LeadingBit(s: Search, u: int)
    requires 0 < u < 2 * TWO63 && Brackets(s, 1, u)
    ensures 0 <= s.zeros <= 63 && Pow2(63 - s.zeros) <= u < Pow2(64 - s.zeros)
    ensures u >= TWO63 <==> s.zeros == 0
  {
    assert Pow2(63) == TWO63 by { Pow2Values(); }
    OneTime(u, Pow2(63 - s.zeros));
    if s.zeros > 0 { Pow2Monotone(64 - s.zeros, 63); }
  }

  lemma OneTime(u: int, p: int)
    requires p > 0 && u / p == 1
    ensures p <= u < 2 * p
  {
    FloorBounds(u, p);
  }

  // ---------------------------------------------------------------- the divider

  const TWO61: int := 0x2000_0000_0000_0000

  /** How far an operand can be shifted up; -1 when it is too large already. */
  function HeadRoom(num: int): (u: int)
    requires InS64(num) && num != -TWO63
    ensures -1 <= u <= 61
  {
    LeadingZeros64(Abs(num)) - 2
  }

  /** Each C shift by a register is by less than the 64 bits of its operand, and none
      negates the least integer. */
  predicate ShiftsDefined(num: int, den: int, n: int)
    requires InS64(num) && InS64(den)
  {
    && (n > 0 ==> num != -TWO63 && n - HeadRoom(num) <= 95)
    && (n < 0 ==> den != -TWO63 && -n - HeadRoom(den) <= 95)
  }

  /** Adding half the divisor fits 64 bits. Shifted operands leave room for that. */
  predicate BiasFits(num: int, den: int, n: int)
    requires InS64(num) && InS64(den) && den != 0 && (n < 0 ==> den != -TWO63)
  {
    && (n == 0 ==> DivisionFits(num, den))
    && (n < 0 ==> QuotientBiasFits(num, den, -n))
  }

  predicate QuotientBiasFits(num: int, den: int, m: nat)
    requires InS64(den) && den != -TWO63
  {
    m <= HeadRoom(den) ==> Shl(den, m) != 0 && DivisionFits(num, Shl(den, m))
  }

  /** r is within two units of N / den, or is the 32-bit limit that N / den exceeds
      or comes within two units of. */
  ghost predicate WithinTwoUnits(r: int, N: int, den: int) {
    || Abs(r * den - N) <= 2 * Abs(den)
    || (r == INT32_MAX && (N < 0) == (den < 0) && Abs(N) >= (TWO31 - 2) * Abs(den))
    || (r == INT32_MIN && (N < 0) != (den < 0) && Abs(N) >= (TWO31 - 2) * Abs(den))
  }

  predicate WithinOneUnit(r: int, N: int, den: int) { Abs(r * den - N) <= Abs(den) }

  /** A negative divisor that is shifted down to zero: the saturation then looks at
      the numerator only and gets the wrong sign. */
  ghost predicate DivisorVanishes(num: int, den: int, n: nat)
    requires InS64(num) && num != -TWO63
  {
    num != 0 && den < 0 && n > HeadRoom(num) && RoundHalfUp(den, Pow2(n - HeadRoom(num))) == 0
  }

  function Raised(num: int, u: int): int
    requires u >= -1
  {
    if u >= 0 then Shl(num, u) else Shr(num, 1) + num % 2
  }

  function Lowered(den: int, k: nat): int {
    if k == 0 then den else Shr(S64(Shr(den, k - 1) + 1), 1)
  }

  /** What the final division gives, or the saturation for a zero divisor. */
  function Quotient(num: int, den: int): int {
    if den != 0 then ClampS32(BiasedQuotient(num, den))
    else if num < 0 then INT32_MIN else if num > 0 then INT32_MAX else 0
  }

  /** Shift an operand up, or down by the one bit that makes headroom. */
  method Raise(operand: s64, u: int) returns (r: s64)
    requires operand as int != -TWO63 && -1 <= u <= HeadRoom(operand as int)
    ensures r as int == Raised(operand as int, u)
  {
    RaiseStaysInside(operand as int, u);
    r := operand;
    var upShift := u;
    if upShift > 0 {
      if upShift > 31 {
        r := Shl(r as int, 31) as s64;
        upShift := upShift - 31;
        ShlShl(operand as int, 31, upShift);
      }
      r := Shl(r as int, upShift) as s64;
    } else if upShift < 0 {
      var low := r % 2;
      r := Shr(r as int, 1) as s64;
      r := r + low;
    } else {
      assert Shl(r as int, 0) == r as int;
    }
  }

  /** No intermediate value of raising leaves 64 bits. */
  lemma RaiseStaysInside(x: int, u: int)
    requires InS64(x) && x != -TWO63 && -1 <= u <= HeadRoom(x)
    ensures InS64(Raised(x, u)) && (u > 31 ==> InS64(Shl(x, 31))) && (u == -1 ==> InS64(Shr(x, 1)))
  {
    if u >= 0 {
      ShiftedFits(x, u);
      if u > 31 { ShiftedFits(x, 31); }
    } else {
      assert Pow2(1) == 2;
    }
  }

  /** Shift an operand down almost all the way, round, and finish. The increment can wrap. */
  method Lower(operand: s64, k: nat) returns (r: s64)
    ensures r as int == Lowered(operand as int, k)
  {
    r := operand;
    var downShift := k;
    if downShift > 0 {
      if downShift > 31 {
        r := Shr64(r, 31);
        downShift := downShift - 31;
        ShrShr(operand as int, 31, downShift - 1);
      }
      downShift := downShift - 1;
      if downShift > 0 {
        r := Shr64(r, downShift);
      } else {
        assert Shr(r as int, 0) == r as int;
      }
      r := S64(r as int + 1) as s64;
      r := Shr64(r, 1);
    }
  }

  function Shr64(x: s64, i: nat): (r: s64)
    ensures r as int == Shr(x as int, i)
  {
    ShrinksTowardsZero(x as int, Pow2(i));
    Shr(x as int, i) as s64
  }

  /** num * 2^n / den for 64-bit num and den; a negative n divides by a power of two. */
  method FixNDiv64(num0: s64, den0: s64, n: int) returns (r: int)
    requires den0 != 0 ==> ShiftsDefined(num0 as int, den0 as int, n) && BiasFits(num0 as int, den0 as int, n)
    ensures den0 == 0 ==> r == if num0 < 0 then INT32_MIN else if num0 > 0 then INT32_MAX else 0
    ensures den0 != 0 && (n == 0 || 0 < n <= HeadRoom(num0 as int)) ==>
              r == ClampS32(BiasedQuotient(Shl(num0 as int, n), den0 as int))
    ensures den0 != 0 && 0 < n && HeadRoom(num0 as int) < n ==>
              (WithinTwoUnits(r, Shl(num0 as int, n), den0 as int) <==> !DivisorVanishes(num0 as int, den0 as int, n))
    ensures den0 != 0 && n < 0 && -n <= HeadRoom(den0 as int) ==>
              r == ClampS32(BiasedQuotient(num0 as int, Shl(den0 as int, -n)))
    ensures den0 != 0 && n < 0 && HeadRoom(den0 as int) < -n ==>
              (WithinOneUnit(r, num0 as int, Shl(den0 as int, -n)) <==> !IncrementWraps(num0 as int, -n - HeadRoom(den0 as int)))
  {
    var num, den := num0, den0;
    if den != 0 {
      if n > 0 {
        num, den := ShiftForProduct(num, den, n);
      } else if n < 0 {
        num, den := ShiftForQuotient(num, den, -n);
      } else {
        assert Shl(num as int, 0) == num as int;
      }
    }
    r := Divide(num, den);
  }

  /** The division proper, and the limits that stand for division by zero. */
  method Divide(num: s64, den: s64) returns (r: int)
    requires den != 0 ==> DivisionFits(num as int, den as int)
    ensures r == Quotient(num as int, den as int)
  {
    if den != 0 {
      var q := TruncDiv(Biased(num as int, den as int), den as int);
      ShiftSaturateClamps(q);
      r := ShiftSaturate(q);
    } else {
      r := if num < 0 then INT32_MIN else if num > 0 then INT32_MAX else 0;
    }
  }

  /** Make the numerator as large as it can be, and the divisor smaller for the rest. */
  method ShiftForProduct(num0: s64, den0: s64, n: nat) returns (num: s64, den: s64)
    requires n > 0 && num0 as int != -TWO63 && den0 != 0
    ensures den != 0 ==> DivisionFits(num as int, den as int)
    ensures n <= HeadRoom(num0 as int) ==>
              Quotient(num as int, den as int) == ClampS32(BiasedQuotient(Shl(num0 as int, n), den0 as int))
    ensures HeadRoom(num0 as int) < n ==>
              (WithinTwoUnits(Quotient(num as int, den as int), Shl(num0 as int, n), den0 as int)
               <==> !DivisorVanishes(num0 as int, den0 as int, n))
  {
    var nZeros := LeadingZeros64(if num0 < 0 then -(num0 as int) else num0 as int);
    var upShift := nZeros - 2;
    if upShift > n {
      upShift := n;
    }
    var downShift := n - upShift;
    Outcome(num0 as int, den0 as int, n, upShift, downShift);
    num := Raise(num0, upShift);
    den := Lower(den0, downShift);
  }

  /** Make the divisor as large as it can be, and the numerator smaller for the rest. */
  method ShiftForQuotient(num0: s64, den0: s64, m: nat) returns (num: s64, den: s64)
    requires m > 0 && den0 as int != -TWO63 && den0 != 0 && QuotientBiasFits(num0 as int, den0 as int, m)
    ensures den != 0 && DivisionFits(num as int, den as int)
    ensures m <= HeadRoom(den0 as int) ==>
              Quotient(num as int, den as int) == ClampS32(BiasedQuotient(num0 as int, Shl(den0 as int, m)))
    ensures HeadRoom(den0 as int) < m ==>
              (WithinOneUnit(Quotient(num as int, den as int), num0 as int, Shl(den0 as int, m))
               <==> !IncrementWraps(num0 as int, m - HeadRoom(den0 as int)))
  {
    var nZeros := LeadingZeros64(if den0 < 0 then -(den0 as int) else den0 as int);
    var upShift := nZeros - 2;
    if upShift > m {
      upShift := m;
    }
    var downShift := m - upShift;
    QuotientOutcome(num0 as int, den0 as int, m, upShift, downShift);
    den := Raise(den0, upShift);
    num := Lower(num0, downShift);
  }

  lemma RaisedFits(num: int, n: nat)
    requires InS64(num) && num != -TWO63 && n > 0
    ensures var u := if HeadRoom(num) > n then n else HeadRoom(num);
            && -TWO62 <= Raised(num, u) <= TWO62
            && (num != 0 && u < n ==> Abs(Raised(num, u)) >= TWO61)
            && (u >= 0 ==> Abs(Raised(num, u)) < TWO62)
            && (num < 0) == (Raised(num, u) < 0) && (num == 0) == (Raised(num, u) == 0)
  {
    var u := if HeadRoom(num) > n then n else HeadRoom(num);
    if u >= 0 {
      ShiftedFits(num, u);
    } else {
      HalvedFits(num);
    }
  }

  lemma ShiftedFits(num: int, u: nat)
    requires InS64(num) && num != -TWO63 && u <= HeadRoom(num)
    ensures Abs(Shl(num, u)) < TWO62 && (num != 0 && u == HeadRoom(num) ==> Abs(Shl(num, u)) >= TWO61)
    ensures (num < 0) == (Shl(num, u) < 0) && (num == 0) == (Shl(num, u) == 0)
  {
    ShlMagnitude(num, u);
    if num != 0 { ShiftedUp(Abs(num), u, LeadingZeros64(Abs(num))); }
  }

  lemma HalvedFits(num: int)
    requires InS64(num) && num != -TWO63 && HeadRoom(num) == -1
    ensures -TWO62 <= Raised(num, -1) <= TWO62 && Abs(Raised(num, -1)) >= TWO61
    ensures (num < 0) == (Raised(num, -1) < 0)
  {
    Pow2Values();
  }

  lemma ShiftedUp(a: int, u: nat, z: int)
    requires u <= z - 2 && z <= 63 && Pow2(63 - z) <= a < Pow2(64 - z)
    ensures Pow2(u) * a < TWO62 && (u == z - 2 ==> Pow2(u) * a >= TWO61)
  {
    assert Pow2(u) * Pow2(64 - z) == Pow2(64 - z + u) <= TWO62 by {
      Pow2Add(u, 64 - z);
      Pow2Monotone(64 - z + u, 62);
      Pow2Values();
    }
    MulMonotone(Pow2(u), a + 1, Pow2(64 - z));
    if u == z - 2 {
      assert Pow2(u) * Pow2(63 - z) == TWO61 by { Pow2Add(u, 63 - z); Pow2Values(); }
      MulMonotone(Pow2(u), Pow2(63 - z), a);
    }
    OneMore(Pow2(u), a);
  }

  // ---------------------------------------------------------------- accuracy

  /** Both operands scaled: the numerator exactly but for the bit dropped when it is
      shifted down, the denominator to the nearest. */
  ghost predicate Scaled(N: int, den: int, K: int, num1: int, den1: int) {
    && K > 0
    && 0 <= 2 * (K * num1 - N) <= K
    && 2 * Abs(den - K * den1) <= K
  }

  lemma AbsProduct(x: int, y: int)
    ensures Abs(x * y) == Abs(x) * Abs(y)
  {}

  /** A quotient that fits 32 bits has a denominator of at least 30 bits. */
  lemma DenominatorLarge(q: int, num1: int, den1: int)
    requires Abs(num1) >= TWO61 && -TWO31 <= q <= TWO31
    requires 2 * Abs(q * den1 - num1) <= Abs(den1) + 1
    ensures Abs(q) + 4 <= 3 * Abs(den1)
  {
    AbsProduct(q, den1);
    MulMonotone(Abs(den1), Abs(q), TWO31);
    LargeByMagnitude(Abs(q) * Abs(den1), Abs(den1), Abs(num1));
  }

  lemma LargeByMagnitude(p: int, d: int, m: int)
    requires m >= TWO61 && 2 * m <= 2 * p + d + 1 && p <= TWO31 * d
    ensures d >= 0x4000_0000
  {}

  lemma UnsaturatedError(q: int, N: int, den: int, K: int, num1: int, den1: int)
    requires Scaled(N, den, K, num1, den1)
    requires 2 * Abs(q * den1 - num1) <= Abs(den1) + 1
    requires Abs(q) + 4 <= 3 * Abs(den1)
    ensures Abs(q * den - N) <= 2 * Abs(den)
  {
    var d := Abs(den1);
    var e1, e2, e3 := den - K * den1, q * den1 - num1, K * num1 - N;
    ErrorSplits(q, N, den, K, num1, den1);
    ProductBound(q, e1, K);
    ProductBound(K, e2, d + 1);
    AbsProduct(K, den1);
    KTimes(K, Abs(q), d);
    CollectErrors(q * e1, K * e2, e3, Abs(q) * K, K * d, K, Abs(den));
  }

  /** The total error: of the denominator, of the division, of the numerator. */
  lemma ErrorSplits(q: int, N: int, den: int, K: int, num1: int, den1: int)
    ensures q * den - N == q * (den - K * den1) + K * (q * den1 - num1) + (K * num1 - N)
  {
    assert q * (den - K * den1) == q * den - q * (K * den1);
    assert K * (q * den1 - num1) == K * (q * den1) - K * num1;
    assert q * (K * den1) == K * (q * den1);
  }

  lemma ProductBound(x: int, e: int, b: int)
    requires 2 * Abs(e) <= b
    ensures 2 * Abs(x * e) <= Abs(x) * b
  {
    AbsProduct(x, e);
    MulMonotone(Abs(x), 2 * Abs(e), b);
    assert Abs(x) * (2 * Abs(e)) == 2 * (Abs(x) * Abs(e));
  }

  lemma KTimes(K: int, q: int, d: int)
    requires K > 0 && q + 4 <= 3 * d
    ensures K * (d + 1) == K * d + K && q * K + 4 * K <= 3 * (K * d)
  {
    MulMonotone(K, q + 4, 3 * d);
    assert K * (q + 4) == q * K + 4 * K && K * (3 * d) == 3 * (K * d);
  }

  lemma CollectErrors(a: int, b: int, c: int, qK: int, Kd: int, K: int, den: int)
    requires 2 * Abs(a) <= qK && 2 * Abs(b) <= Kd + K && 0 <= 2 * c <= K
    requires qK + 4 * K <= 3 * Kd && 2 * den >= 2 * Kd - K
    ensures Abs(a + b + c) <= 2 * den
  {}

  /** A quotient past the 32-bit range comes from a true one within two units of it;
      so does a denominator that vanishes. */
  lemma SaturatedQuotient(q: int, N: int, den: int, K: int, num1: int, den1: int)
    requires Scaled(N, den, K, num1, den1)
    requires den1 != 0 ==> 2 * Abs(q * den1 - num1) <= Abs(den1) + 1 && Abs(q) >= TWO31
    requires Abs(num1) >= TWO61
    ensures Abs(N) >= (TWO31 - 2) * Abs(den)
  {
    var d, m := Abs(den1), Abs(num1);
    QuotientProduct(q, num1, den1);
    NumeratorLarge(Abs(q) * d, d, m);
    KScales(K, m, d);
    AbsProduct(K, num1);
    AbsProduct(K, den1);
    UndoScaling(N, den, K, K * num1, K * den1);
  }

  lemma QuotientProduct(q: int, num1: int, den1: int)
    requires den1 != 0 ==> 2 * Abs(q * den1 - num1) <= Abs(den1) + 1 && Abs(q) >= TWO31
    ensures den1 != 0 ==> 2 * (Abs(q) * Abs(den1)) <= 2 * Abs(num1) + Abs(den1) + 1
    ensures den1 != 0 ==> Abs(q) * Abs(den1) >= TWO31 * Abs(den1)
  {
    AbsProduct(q, den1);
    if den1 != 0 { MulMonotone(Abs(den1), TWO31, Abs(q)); }
  }

  lemma UndoScaling(N: int, den: int, K: int, num: int, div: int)
    requires 0 <= 2 * (num - N) <= K && 2 * Abs(den - div) <= K
    requires 2 * Abs(num) - K >= (TWO31 - 2) * (2 * Abs(div) + K)
    ensures Abs(N) >= (TWO31 - 2) * Abs(den)
  {}

  lemma NumeratorLarge(p: int, d: int, m: int)
    requires m >= TWO61 && d >= 0 && (d > 0 ==> 2 * p <= 2 * m + d + 1 && p >= TWO31 * d)
    ensures 2 * m - 1 >= (TWO31 - 2) * (2 * d + 1)
  {}

  lemma KScales(K: int, m: int, d: int)
    requires K > 0 && 2 * m - 1 >= (TWO31 - 2) * (2 * d + 1)
    ensures 2 * (K * m) - K >= (TWO31 - 2) * (2 * (K * d) + K)
  {
    MulMonotone(K, (TWO31 - 2) * (2 * d + 1), 2 * m - 1);
    assert K * (2 * m - 1) == 2 * (K * m) - K;
    assert K * ((TWO31 - 2) * (2 * d + 1)) == (TWO31 - 2) * (2 * (K * d) + K);
  }

  /** The one denominator whose rounding increment leaves 64 bits. */
  ghost predicate IncrementWraps(den: int, k: nat) { k == 1 && den == TWO63 - 1 }

  /** The increment leaves 64 bits for the largest operand shifted by one bit, and for no
      other. */
  lemma IncrementWrapsExactly(den: int, k: nat)
    requires InS64(den) && k > 0
    ensures InS64(Shr(den, k - 1) + 1) <==> !IncrementWraps(den, k)
  {
    if IncrementWraps(den, k) {
      assert Shr(den, 0) == den;
    } else {
      LoweredFits(den, k);
    }
  }

  lemma LoweredRounds(den: int, k: nat)
    requires InS64(den) && k > 0 && !IncrementWraps(den, k)
    ensures Lowered(den, k) == RoundHalfUp(den, Pow2(k))
  {
    LoweredFits(den, k);
    HalvedShift(den, k);
    RoundingShift(den, k);
  }

  lemma HalvedShift(den: int, k: nat)
    requires k > 0
    ensures (Shr(den, k - 1) + 1) / 2 == Shr(den + Pow2(k - 1), k)
  {
    ShiftThenHalve(den, Pow2(k - 1), Pow2(k));
  }

  lemma LoweredFits(den: int, k: nat)
    requires InS64(den) && k > 0 && !IncrementWraps(den, k)
    ensures InS64(Shr(den, k - 1) + 1)
    ensures Lowered(den, k) == (Shr(den, k - 1) + 1) / 2
    ensures -TWO62 <= Lowered(den, k) <= TWO62
  {
    AlmostShifted(den, k - 1);
    FinishShift(Shr(den, k - 1));
  }

  lemma FinishShift(h: int)
    requires InS64(h) && h < TWO63 - 1
    ensures Shr(S64(h + 1), 1) == (h + 1) / 2 && -TWO62 <= (h + 1) / 2 <= TWO62
  {
    assert Pow2(1) == 2;
  }

  lemma ShiftThenHalve(den: int, p: int, p2: int)
    requires p > 0 && p2 == 2 * p
    ensures (den / p + 1) / 2 == (den + p) / p2
  {
    FloorOfFloor(den, p, 1, 2);
  }

  lemma AlmostShifted(den: int, j: nat)
    requires InS64(den)
    ensures InS64(Shr(den, j)) && (j > 0 ==> -TWO62 <= Shr(den, j) < TWO62) && (j == 0 ==> Shr(den, j) == den)
  {
    if j > 0 {
      ShrShr(den, 1, j - 1);
      Pow2Values();
      ShrinksTowardsZero(den / 2, Pow2(j - 1));
    }
  }

  lemma NumeratorScales(num: int, n: nat, u: int, k: nat)
    requires u >= -1 && u + k == n && k > 0
    ensures 0 <= 2 * (Pow2(k) * Raised(num, u) - Shl(num, n)) <= Pow2(k)
  {
    if u >= 0 {
      ShiftedExactly(num, u, k);
    } else {
      ShiftedDownByOne(num, n);
    }
  }

  lemma ShiftedExactly(num: int, u: nat, k: nat)
    ensures Pow2(k) * Shl(num, u) == Shl(num, u + k)
  {
    ShlShl(num, u, k);
    Commuted(Shl(num, u), Pow2(k));
  }

  lemma Commuted(a: int, b: int)
    ensures a * b == b * a
  {}

  lemma ShiftedDownByOne(num: int, n: nat)
    ensures 0 <= 2 * (Pow2(n + 1) * Raised(num, -1) - Shl(num, n)) <= Pow2(n + 1)
  {
    assert Pow2(1) == 2;
    RoundedHalf(Pow2(n), num, Raised(num, -1));
  }

  lemma RoundedHalf(p: int, num: int, num1: int)
    requires p > 0 && 2 * num1 == num + num % 2
    ensures 0 <= 2 * ((2 * p) * num1 - num * p) <= 2 * p
  {
    assert (2 * p) * num1 == p * (num + num % 2);
    assert p * (num + num % 2) == num * p + p * (num % 2);
  }

  lemma MagnitudesFit(num1: int, den1: int)
    requires den1 != 0 && Abs(num1) + Half(den1) < TWO63
    ensures DivisionFits(num1, den1)
  {
    BiasedMagnitude(num1, den1);
    QuotientBelow(Abs(num1) + Half(den1), Abs(den1));
  }

  lemma Outcome(num: int, den: int, n: nat, u: int, k: nat)
    requires InS64(num) && num != -TWO63 && InS64(den) && den != 0 && n > 0
    requires u == (if HeadRoom(num) > n then n else HeadRoom(num)) && k == n - u
    ensures Lowered(den, k) != 0 ==> DivisionFits(Raised(num, u), Lowered(den, k))
    ensures k == 0 ==> Quotient(Raised(num, u), Lowered(den, k)) == ClampS32(BiasedQuotient(Shl(num, n), den))
    ensures k > 0 ==> (WithinTwoUnits(Quotient(Raised(num, u), Lowered(den, k)), Shl(num, n), den)
                       <==> !DivisorVanishes(num, den, n))
  {
    RaisedFits(num, n);
    var num1, den1 := Raised(num, u), Lowered(den, k);
    if k == 0 {
      MagnitudesFit(num1, den);
    } else if IncrementWraps(den, k) {
      WrappedCase(num, n);
      MagnitudesFit(num1, den1);
    } else {
      InexactCase(num, den, n, u, k);
    }
  }

  lemma InexactCase(num: int, den: int, n: nat, u: int, k: nat)
    requires InS64(num) && num != -TWO63 && InS64(den) && den != 0 && n > 0
    requires u == HeadRoom(num) && k == n - u > 0 && !IncrementWraps(den, k)
    ensures Lowered(den, k) != 0 ==> DivisionFits(Raised(num, u), Lowered(den, k))
    ensures WithinTwoUnits(Quotient(Raised(num, u), Lowered(den, k)), Shl(num, n), den)
            <==> !DivisorVanishes(num, den, n)
  {
    RaisedFits(num, n);
    LoweredRounds(den, k);
    LoweredFits(den, k);
    NumeratorScales(num, n, u, k);
    Vanishes(num, den, n, u, k);
    EitherCase(Raised(num, u), Lowered(den, k), Shl(num, n), den, Pow2(k));
  }

  lemma Vanishes(num: int, den: int, n: nat, u: int, k: nat)
    requires InS64(num) && num != -TWO63 && u == HeadRoom(num) && k == n - u > 0
    requires Lowered(den, k) == RoundHalfUp(den, Pow2(k))
    ensures (num < 0) == (Shl(num, n) < 0) && (num == 0) == (Shl(num, n) == 0)
    ensures DivisorVanishes(num, den, n) <==> Lowered(den, k) == 0 && Shl(num, n) != 0 && den < 0
  {
    ShlMagnitude(num, n);
  }

  lemma EitherCase(num1: int, den1: int, N: int, den: int, K: int)
    requires den != 0 && K > 0 && den1 == RoundHalfUp(den, K) && 0 <= 2 * (K * num1 - N) <= K
    requires Abs(num1) <= TWO62 && Abs(den1) <= TWO62
    requires (num1 < 0) == (N < 0) && (num1 == 0) == (N == 0) && (N != 0 ==> Abs(num1) >= TWO61)
    ensures den1 != 0 ==> DivisionFits(num1, den1)
    ensures WithinTwoUnits(Quotient(num1, den1), N, den) <==> !(den1 == 0 && N != 0 && den < 0)
  {
    DenominatorNear(den, K);
    if den1 == 0 {
      VanishedCase(num1, N, den, K);
    } else {
      MagnitudesFit(num1, den1);
      RegularCase(num1, den1, N, den, K);
    }
  }

  lemma DenominatorNear(den: int, K: int)
    requires den != 0 && K > 0
    ensures var den1 := RoundHalfUp(den, K);
            2 * Abs(den - K * den1) <= K && (den1 != 0 ==> (den1 < 0) == (den < 0))
  {
    var den1 := RoundHalfUp(den, K);
    if den1 > 0 { MulMonotone(K, 1, den1); }
    if den1 < 0 { MulMonotone(K, den1, -1); }
  }

  lemma VanishedCase(num1: int, N: int, den: int, K: int)
    requires den != 0 && Scaled(N, den, K, num1, 0)
    requires (num1 < 0) == (N < 0) && (num1 == 0) == (N == 0) && (N != 0 ==> Abs(num1) >= TWO61)
    ensures WithinTwoUnits(Quotient(num1, 0), N, den) <==> !(N != 0 && den < 0)
  {
    var r := Quotient(num1, 0);
    if N != 0 {
      SaturatedQuotient(0, N, den, K, num1, 0);
      if den < 0 {
        assert Abs(r * den - N) >= Abs(r) * Abs(den);
        MulMonotone(Abs(den), 3, Abs(r));
      }
    }
  }

  lemma RegularCase(num1: int, den1: int, N: int, den: int, K: int)
    requires den != 0 && den1 != 0 && Scaled(N, den, K, num1, den1)
    requires (den1 < 0) == (den < 0)
    requires (num1 < 0) == (N < 0) && (num1 == 0) == (N == 0) && (N != 0 ==> Abs(num1) >= TWO61)
    ensures WithinTwoUnits(Quotient(num1, den1), N, den)
  {
    if N == 0 {
      ZeroQuotient(den1);
      SmallProduct(BiasedQuotient(0, den1), den);
    } else {
      RegularNonzero(num1, den1, N, den, K);
    }
  }

  lemma SmallProduct(q: int, den: int)
    requires -1 <= q <= 1
    ensures Abs(q * den) <= 2 * Abs(den)
  {}

  lemma RegularNonzero(num1: int, den1: int, N: int, den: int, K: int)
    requires den != 0 && den1 != 0 && Scaled(N, den, K, num1, den1)
    requires (den1 < 0) == (den < 0) && (num1 < 0) == (N < 0) && Abs(num1) >= TWO61 && N != 0
    ensures WithinTwoUnits(Quotient(num1, den1), N, den)
  {
    var q := BiasedQuotient(num1, den1);
    NearestExactlyWhen(num1, den1);
    if InS32(q) {
      DenominatorLarge(q, num1, den1);
      UnsaturatedError(q, N, den, K, num1, den1);
    } else {
      QuotientSign(num1, den1);
      SaturatedQuotient(q, N, den, K, num1, den1);
    }
  }

  lemma QuotientSign(num1: int, den1: int)
    requires den1 != 0
    ensures var q := BiasedQuotient(num1, den1);
            (q > 0 ==> (num1 < 0) == (den1 < 0)) && (q < 0 ==> (num1 < 0) != (den1 < 0))
  {
    BiasedMagnitude(num1, den1);
    QuotientBelow(Abs(num1) + Half(den1), Abs(den1));
  }

  lemma ZeroQuotient(den1: int)
    requires den1 != 0
    ensures -1 <= BiasedQuotient(0, den1) <= 1
  {
    BiasedMagnitude(0, den1);
    if den1 != -1 { FloorUnique(Half(den1), Abs(den1), 0); }
  }

  lemma WrappedQuotient(num1: int)
    requires Abs(num1) < TWO62
    ensures -1 <= Quotient(num1, -TWO62) <= 1
  {
    BiasedMagnitude(num1, -TWO62);
  }

  lemma Doubled(x: int, n: nat)
    ensures Shl(x, n + 1) == 2 * Shl(x, n)
  {
    ShlShl(x, n, 1);
    assert Pow2(1) == 2;
  }

  lemma WrongSignIsNear(q: int, num1: int)
    requires -1 <= q <= 1 && Abs(num1) < TWO62
    ensures Abs(q * (TWO63 - 1) - 2 * num1) <= 2 * (TWO63 - 1)
  {}

  /** The wrapped increment turns the denominator negative; as the true quotient is
      below one here, even the wrong sign stays within two units. */
  lemma WrappedCase(num: int, n: nat)
    requires InS64(num) && num != -TWO63 && n > 0 && HeadRoom(num) == n - 1
    ensures Lowered(TWO63 - 1, 1) == -TWO62
    ensures WithinTwoUnits(Quotient(Raised(num, n - 1), -TWO62), Shl(num, n), TWO63 - 1)
    ensures !DivisorVanishes(num, TWO63 - 1, n)
  {
    RaisedFits(num, n);
    var num1 := Raised(num, n - 1);
    Doubled(num, n - 1);
    WrappedQuotient(num1);
    WrongSignIsNear(Quotient(num1, -TWO62), num1);
    LargestWraps();
  }

  // ---------------------------------------------------------------- negative shifts

  lemma QuotientOutcome(num: int, den: int, m: nat, u: int, k: nat)
    requires InS64(num) && InS64(den) && den != -TWO63 && den != 0 && m > 0 && QuotientBiasFits(num, den, m)
    requires u == (if HeadRoom(den) > m then m else HeadRoom(den)) && k == m - u
    ensures Raised(den, u) != 0 && DivisionFits(Lowered(num, k), Raised(den, u))
    ensures k == 0 ==> Quotient(Lowered(num, k), Raised(den, u)) == ClampS32(BiasedQuotient(num, Shl(den, m)))
    ensures k > 0 ==> (WithinOneUnit(Quotient(Lowered(num, k), Raised(den, u)), num, Shl(den, m)) <==> !IncrementWraps(num, k))
  {
    RaisedFits(den, m);
    if k > 0 {
      if IncrementWraps(num, k) {
        WrappedNumerator(den, m);
      } else {
        LoweredNumerator(num, den, m, u, k);
      }
    }
  }

  lemma LoweredNumerator(num: int, den: int, m: nat, u: int, k: nat)
    requires InS64(num) && InS64(den) && den != -TWO63 && den != 0 && m > 0
    requires u == HeadRoom(den) && k == m - u > 0 && !IncrementWraps(num, k)
    ensures Raised(den, u) != 0 && DivisionFits(Lowered(num, k), Raised(den, u))
    ensures WithinOneUnit(Quotient(Lowered(num, k), Raised(den, u)), num, Shl(den, m))
  {
    RaisedFits(den, m);
    LoweredRounds(num, k);
    LoweredFits(num, k);
    NumeratorScales(den, m, u, k);
    MagnitudesFit(Lowered(num, k), Raised(den, u));
    var num1, den1, K := Lowered(num, k), Raised(den, u), Pow2(k);
    RoundedNear(num, K);
    QuotientNear(num1, den1, num, Shl(den, m), K);
  }

  lemma RoundedNear(n: int, K: int)
    requires K > 0
    ensures 2 * Abs(n - K * RoundHalfUp(n, K)) <= K
  {}

  /** Both operands scaled by K: the quotient of the scaled ones is within one unit. */
  lemma QuotientNear(num1: int, den1: int, N: int, D: int, K: int)
    requires K > 0 && TWO61 <= Abs(den1) && Abs(num1) <= TWO62
    requires 2 * Abs(N - K * num1) <= K && 0 <= 2 * (K * den1 - D) <= K
    ensures WithinOneUnit(Quotient(num1, den1), N, D)
  {
    var q := BiasedQuotient(num1, den1);
    NearestExactlyWhen(num1, den1);
    QuotientSmall(q, num1, den1);
    NearErrors(q, N, D, K, num1, den1);
  }

  lemma NearErrors(q: int, N: int, D: int, K: int, num1: int, den1: int)
    requires K > 0 && TWO61 <= Abs(den1) && Abs(q) <= 2 && 2 * Abs(q * den1 - num1) <= Abs(den1) + 1
    requires 2 * Abs(N - K * num1) <= K && 0 <= 2 * (K * den1 - D) <= K
    ensures WithinOneUnit(q, N, D)
  {
    ErrorSplits2(q, N, D, K, num1, den1);
    ProductBound(q, K * den1 - D, K);
    ProductBound(K, q * den1 - num1, Abs(den1) + 1);
    AbsProduct(K, den1);
    KOnce(K, Abs(q), Abs(den1));
    CollectNear(q * (K * den1 - D), K * (q * den1 - num1), K * num1 - N, Abs(q) * K, K * Abs(den1), K, Abs(D));
  }

  lemma QuotientSmall(q: int, num1: int, den1: int)
    requires TWO61 <= Abs(den1) && Abs(num1) <= TWO62 && 2 * Abs(q * den1 - num1) <= Abs(den1) + 1
    ensures Abs(q) <= 2
  {
    NearMagnitude(q * den1, num1, Abs(den1));
    AbsProduct(q, den1);
    if Abs(q) >= 3 { MulMonotone(Abs(den1), 3, Abs(q)); }
  }

  lemma NearMagnitude(m: int, x: int, d: int)
    requires 2 * Abs(m - x) <= d + 1
    ensures 2 * Abs(m) <= 2 * Abs(x) + d + 1
  {}

  lemma ErrorSplits2(q: int, N: int, D: int, K: int, num1: int, den1: int)
    ensures q * D - N == K * (q * den1 - num1) + (K * num1 - N) - q * (K * den1 - D)
  {
    assert q * (K * den1 - D) == q * (K * den1) - q * D;
    assert K * (q * den1 - num1) == K * (q * den1) - K * num1;
    assert q * (K * den1) == K * (q * den1);
  }

  lemma KOnce(K: int, q: int, d: int)
    requires K > 0 && 0 <= q <= 2 && d >= TWO61
    ensures K * (d + 1) == K * d + K && q * K <= 2 * K && K * d >= 6 * K
  {
    MulMonotone(K, 6, d);
    MulMonotone(K, q, 2);
  }

  lemma CollectNear(a: int, b: int, c: int, qK: int, Kd: int, K: int, D: int)
    requires 2 * Abs(a) <= qK && 2 * Abs(b) <= Kd + K && 2 * Abs(c) <= K
    requires qK <= 2 * K && Kd >= 6 * K && 2 * D >= 2 * Kd - K
    ensures Abs(b + c - a) <= D
  {}

  /** The largest numerator, shifted by one bit, wraps to the other sign. As the true
      quotient is larger than one here, the result is more than two units off. */
  lemma WrappedNumerator(den: int, m: nat)
    requires InS64(den) && den != -TWO63 && den != 0 && m > 0 && HeadRoom(den) == m - 1
    ensures var num1, den1 := Lowered(TWO63 - 1, 1), Raised(den, m - 1);
            && den1 != 0 && num1 == -TWO62 && DivisionFits(num1, den1)
            && Abs(Quotient(num1, den1) * Shl(den, m) - (TWO63 - 1)) > 2 * Abs(Shl(den, m))
  {
    RaisedFits(den, m);
    var den1 := Raised(den, m - 1);
    LargestWraps();
    MagnitudesFit(-TWO62, den1);
    Doubled(den, m - 1);
    OppositeSign(den1);
    FarOff(Quotient(-TWO62, den1), den1);
  }

  lemma LargestWraps()
    ensures Lowered(TWO63 - 1, 1) == -TWO62
  {
    Pow2Values();
  }

  lemma OppositeSign(den1: int)
    requires TWO61 <= Abs(den1) < TWO62
    ensures var q := Quotient(-TWO62, den1); if den1 > 0 then q <= -1 else q >= 1
  {
    var q := BiasedQuotient(-TWO62, den1);
    NearestExactlyWhen(-TWO62, den1);
    QuotientSign(-TWO62, den1);
    assert q != 0;
  }

  lemma FarOff(q: int, den1: int)
    requires TWO61 <= Abs(den1) < TWO62 && (if den1 > 0 then q <= -1 else q >= 1)
    ensures Abs(q * (2 * den1) - (TWO63 - 1)) > 2 * Abs(2 * den1)
  {
    if den1 > 0 { MulMonotone(2 * den1, q, -1); } else { MulMonotone(-(2 * den1), 1, q); }
  }

  /** Such a call: the largest numerator over 2^61, halved once more. */
  lemma NumeratorWrapReached()
    ensures var num, den := TWO63 - 1, TWO61;
            && HeadRoom(den) == 0 && IncrementWraps(num, 1) && Quotient(Lowered(num, 1), Raised(den, 0)) == -2
  {
    Pow2Values();
    HeadRoomIs(TWO61, 61);
    LargestWraps();
    assert Shl(TWO61, 0) == TWO61;
    BiasedMagnitude(-TWO62, TWO61);
  }

  // ---------------------------------------------------------------- the two faults

  /** A call that meets the vanishing divisor: 2^62 * 2 / -1 saturates at the wrong end. */
  lemma VanishingDivisorReached()
    ensures var num := TWO62;
            && HeadRoom(num) == -1 && DivisorVanishes(num, -1, 1) && Lowered(-1, 2) == 0
            && Shl(num, 1) == TWO63 && Quotient(Raised(num, -1), 0) == INT32_MAX
            && !WithinTwoUnits(INT32_MAX, Shl(num, 1), -1)
  {
    Pow2Values();
    HeadRoomIs(TWO62, 62);
    assert Shl(TWO62, 1) == TWO63 && Shr(-1, 1) == -1;
    assert Shr(S64(0), 1) == 0;
    assert RoundHalfUp(-1, 4) == 0 && Pow2(2) == 4;
  }

  lemma HeadRoomIs(num: int, top: nat)
    requires top <= 62 && num == Pow2(top) && InS64(num)
    ensures HeadRoom(num) == 61 - top
  {
    var z := LeadingZeros64(num);
    if 63 - z < top { Pow2Monotone(64 - z, top); }
    if 63 - z > top { Pow2Strict(top, 63 - z); }
  }

  lemma Pow2Strict(a: nat, b: nat)
    requires a < b
    ensures Pow2(a) < Pow2(b)
  {
    Pow2Monotone(a, b - 1);
  }

  /** A call that meets the wrapping increment: with the largest divisor a positive
      quotient of about one half comes out as -1, further off than 0 or 1. */
  lemma IncrementWrapReached()
    ensures var num, den := TWO61, TWO63 - 1;
            && HeadRoom(num) == 0 && IncrementWraps(den, 1) && Lowered(den, 1) == -TWO62
            && Quotient(Raised(num, 0), -TWO62) == -1
            && 2 * Abs(-1 * den - Shl(num, 1)) > Abs(den)
  {
    Pow2Values();
    HeadRoomIs(TWO61, 61);
    assert Shl(TWO61, 0) == TWO61 && Shl(TWO61, 1) == TWO62;
    LargestWraps();
    HalfComesOutWrong();
  }

  lemma HalfComesOutWrong()
    ensures Quotient(TWO61, -TWO62) == -1
  {
    BiasedMagnitude(TWO61, -TWO62);
  }
}
