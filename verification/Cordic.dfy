/** CORDIC rotation and polarisation: the angle reduction, the growth of the vector
    at each pseudo-rotation, and the block normalisation that makes room for it. */
module Cordic {
  import opened MachineInt
  import opened RealFacts

  const QUARTER: int := 90 * 65536
  const COSCALE: int := 0x11616E8E
  const COSCALE_SQUARED: int := 85029373775337156
  const UNIT: int := 0x1000_0000_0000_0000   // 2^60, the square of 1.0 in 2.30 format

  /** The arctangents of 2, 1, 1/2, ..., 2^-22 in 16.16 degrees. */
  const ARCTAN: seq<int> := [
    4157273, 2949120, 1740967, 919879, 466945, 234379, 117304, 58666,
    29335, 14668, 7334, 3667, 1833, 917, 458, 229,
    115, 57, 29, 14, 7, 4, 2, 1
  ]
  const STEPS: nat := 24

  datatype Vec = Vec(x: int, y: int)
  {
    function Norm(): int { x * x + y * y }
    function Negated(): Vec { Vec(-x, -y) }
  }

  // ---------------------------------------------------------------- one pseudo-rotation

  /** The coordinate scaled by the tangent of step i: 2, 1, 1/2, ... */
  function Tangent(c: int, i: nat): int { if i == 0 then 2 * c else Shr(c, i - 1) }

  /** One pseudo-rotation, in the negative direction or the positive one. */
  function Step(v: Vec, i: nat, negative: bool): Vec {
    if negative then Vec(v.x + Tangent(v.y, i), v.y - Tangent(v.x, i))
    else Vec(v.x - Tangent(v.y, i), v.y + Tangent(v.x, i))
  }

  /** The vector after pseudo-rotations in the given directions. */
  function Turned(v: Vec, negative: seq<bool>): Vec {
    if negative == [] then v
    else Step(Turned(v, negative[..|negative| - 1]), |negative| - 1, negative[|negative| - 1])
  }

  // ---------------------------------------------------------------- growth of the norm

  /** 4^-s */
  function Quarter(s: nat): (q: real)
    ensures 0.0 < q <= 1.0
  {
    if s == 0 then 1.0 else Quarter(s - 1) / 4.0
  }

  function Grown(g: real, q: real): (h: real)
    ensures g >= 1.0 && q >= 0.0 ==> h >= 1.0
  {
    g * (1.0 + q)
  }

  /** The factor by which i pseudo-rotations multiply the squared length. */
  function Gain(i: nat): (g: real)
    ensures g >= 1.0
  {
    if i == 0 then 1.0 else if i == 1 then 5.0 else Grown(Gain(i - 1), Quarter(i - 2))
  }

  /** What the truncation of its two shifts can add to or take from the squared
      length in one step. */
  const ERROR: int := 0x2_0000_0002

  /** n1 is n0 grown by 1 + 4^-s, up to what one step can truncate. */
  ghost predicate GrowsBy(n0: int, n1: int, s: nat) {
    RAbs(n1 as real - Grown(n0 as real, Quarter(s))) <= ERROR as real
  }

  /** A shifted step grows the norm by 1 + 4^-s, up to the bits that it truncates. */
  lemma ShiftedStepGain(v: Vec, s: nat, negative: bool)
    requires InS32(v.x) && InS32(v.y)
    ensures GrowsBy(v.Norm(), Step(v, s + 1, negative).Norm(), s)
  {
    ShiftedStepNorm(v, s, negative);
    RealGain(Step(v, s + 1, negative).Norm(), v.Norm(), s);
  }

  lemma ShiftedStepNorm(v: Vec, s: nat, negative: bool)
    requires InS32(v.x) && InS32(v.y)
    ensures var n0, n1 := v.Norm(), Step(v, s + 1, negative).Norm();
            Abs((Pow2(s) * Pow2(s)) * (n1 - n0) - n0) <= ERROR * (Pow2(s) * Pow2(s))
  {
    var p, w := Pow2(s), Step(v, s + 1, negative);
    ScaledStep(v, s, negative);
    if negative {
      ScaledNorm(v.x, v.y, p, -(v.y % p), v.x % p, w.x, w.y, v.Norm(), w.Norm());
    } else {
      ScaledNorm(v.y, v.x, p, -(v.x % p), v.y % p, w.y, w.x, v.Norm(), w.Norm());
    }
  }

  lemma ScaledStep(v: Vec, s: nat, negative: bool)
    ensures var p, w := Pow2(s), Step(v, s + 1, negative);
            && 0 <= v.x % p < p && 0 <= v.y % p < p
            && (negative ==> p * w.x == p * v.x + v.y - v.y % p && p * w.y == p * v.y - v.x + v.x % p)
            && (!negative ==> p * w.x == p * v.x - v.y + v.y % p && p * w.y == p * v.y + v.x - v.x % p)
  {
    var p := Pow2(s);
    Truncation(v.y, v.x, p);
    Truncation(v.x, v.y, p);
    assert Step(v, s + 1, negative) == if negative then Vec(v.x + v.y / p, v.y - v.x / p) else Vec(v.x - v.y / p, v.y + v.x / p);
  }

  /** (p*u, p*v) is (p*x + y, p*y - x) moved by (b, a), each less than p in magnitude. */
  lemma ScaledNorm(x: int, y: int, p: int, b: int, a: int, u: int, v: int, n0: int, n1: int)
    requires InS32(x) && InS32(y) && p > 0 && Abs(a) < p && Abs(b) < p
    requires p * u == p * x + y + b && p * v == p * y - x + a
    requires n0 == x * x + y * y && n1 == u * u + v * v
    ensures Abs((p * p) * (n1 - n0) - n0) <= ERROR * (p * p)
  {
    var m1, m2 := 2 * (b * (p * x + y)) + b * b, 2 * (a * (p * y - x)) + a * a;
    MovedNorm(x, y, p, b, a, u, v, n0, n1);
    MoveBound(p, x, y, b);
    MoveBound(p, y, -x, a);
    Collect((p * p) * (n1 - n0), n0, m1, m2, p * p);
  }

  lemma Collect(t: int, n: int, m1: int, m2: int, q: int)
    requires t == n + m1 + m2
    requires Abs(m1) <= 0x1_0000_0001 * q && Abs(m2) <= 0x1_0000_0001 * q
    ensures Abs(t - n) <= ERROR * q
  {}

  lemma MovedNorm(x: int, y: int, p: int, b: int, a: int, u: int, v: int, n0: int, n1: int)
    requires p * u == p * x + y + b && p * v == p * y - x + a
    requires n0 == x * x + y * y && n1 == u * u + v * v
    ensures (p * p) * (n1 - n0) == n0 + (2 * (b * (p * x + y)) + b * b) + (2 * (a * (p * y - x)) + a * a)
  {
    MovedSquares(p, u, p * x + y, b);
    MovedSquares(p, v, p * y - x, a);
    TurnedSquares(p, x, y);
    Distribute(p * p, u * u, v * v, x * x, y * y);
  }

  lemma Truncation(x: int, y: int, p: int)
    requires p > 0
    ensures 0 <= y % p < p
    ensures p * (x + y / p) == p * x + y - y % p
    ensures p * (x - y / p) == p * x - y + y % p
  {
    assert p * (y / p) == y - y % p;
  }

  lemma MovedSquares(p: int, u: int, X: int, b: int)
    requires p * u == X + b
    ensures (p * p) * (u * u) == X * X + 2 * (b * X) + b * b
  {
    assert (p * p) * (u * u) == (p * u) * (p * u);
  }

  lemma TurnedSquares(p: int, x: int, y: int)
    ensures (p * x + y) * (p * x + y) + (p * y - x) * (p * y - x)
         == (p * p) * (x * x) + (p * p) * (y * y) + x * x + y * y
  {
    assert (p * x + y) * (p * x + y) == (p * p) * (x * x) + 2 * (p * (x * y)) + y * y by {
      assert (p * x) * (p * x) == (p * p) * (x * x) && (p * x) * y == p * (x * y);
    }
    assert (p * y - x) * (p * y - x) == (p * p) * (y * y) - 2 * (p * (x * y)) + x * x by {
      assert (p * y) * (p * y) == (p * p) * (y * y) && (p * y) * x == p * (x * y);
    }
  }

  lemma MoveBound(p: int, x: int, y: int, b: int)
    requires Abs(x) <= TWO31 && Abs(y) <= TWO31 && p > 0 && Abs(b) < p
    ensures Abs(2 * (b * (p * x + y)) + b * b) <= 0x1_0000_0001 * (p * p)
  {
    var X := p * x + y;
    ProductAtMost(p, x, p, TWO31);
    ProductAtMost(b, X, p - 1, TWO31 * (p + 1));
    ProductAtMost(b, b, p, p);
    OneLess(p);
    AddUp(b * X, b * b, p * p);
  }

  lemma ProductAtMost(a: int, b: int, c: int, d: int)
    requires Abs(a) <= c && Abs(b) <= d
    ensures Abs(a * b) <= c * d
  {
    assert Abs(a * b) == Abs(a) * Abs(b);
    MulMonotone(Abs(a), Abs(b), d);
    MulMonotone(d, Abs(a), c);
  }

  lemma OneLess(p: int)
    ensures (p - 1) * (TWO31 * (p + 1)) == TWO31 * (p * p) - TWO31
  {}

  lemma AddUp(bX: int, bb: int, pp: int)
    requires Abs(bX) <= TWO31 * pp - TWO31 && Abs(bb) <= pp
    ensures Abs(2 * bX + bb) <= 0x1_0000_0001 * pp
  {}

  lemma Distribute(q: int, a: int, b: int, c: int, d: int)
    ensures q * ((a + b) - (c + d)) == q * a + q * b - q * c - q * d
  {}

  lemma {:induction false} QuarterIsInverse(s: nat)
    ensures Quarter(s) * (Pow2(s) * Pow2(s)) as real == 1.0
  {
    if s > 0 {
      QuarterIsInverse(s - 1);
      var p := Pow2(s - 1);
      assert Pow2(s) * Pow2(s) == 4 * (p * p);
    }
  }

  lemma RealGain(n1: int, n0: int, s: nat)
    requires Abs((Pow2(s) * Pow2(s)) * (n1 - n0) - n0) <= ERROR * (Pow2(s) * Pow2(s))
    ensures GrowsBy(n0, n1, s)
  {
    QuarterIsInverse(s);
    DivideOut(Pow2(s) * Pow2(s), Quarter(s), n1, n0);
  }

  lemma DivideOut(q: int, r: real, n1: int, n0: int)
    requires Abs(q * (n1 - n0) - n0) <= ERROR * q && r * q as real == 1.0 && r > 0.0
    ensures RAbs(n1 as real - Grown(n0 as real, r)) <= ERROR as real
  {
    CastProduct(q, n1 - n0);
    CastProduct(ERROR, q);
    DivideThrough(q as real, r, (n1 - n0) as real, n0 as real, ERROR as real);
    Expand(n0 as real, r);
  }

  lemma DivideThrough(q: real, r: real, d: real, n: real, e: real)
    requires -(e * q) <= q * d - n <= e * q && r * q == 1.0 && r > 0.0
    ensures RAbs(d - r * n) <= e
  {
    Undo(q, r, d, n);
    RealMonotone(r, -(e * q), q * d - n);
    RealMonotone(r, q * d - n, e * q);
    Undo(q, r, e, 0.0);
    Undo(q, r, -e, 0.0);
  }

  lemma Undo(q: real, r: real, d: real, n: real)
    requires r * q == 1.0
    ensures r * (q * d - n) == d - r * n && r * (d * q) == d
  {
    assert r * (q * d) == (r * q) * d;
  }

  lemma Expand(n: real, r: real)
    ensures Grown(n, r) == n + r * n
  {}

  // ---------------------------------------------------------------- the size of the gain

  lemma GainAfter13()
    ensures 13.5590956610542 <= Gain(13) <= 13.5590956610553
  {
    assert Quarter(1) == 1.0 / 4.0 && Quarter(2) == 1.0 / 16.0 && Quarter(3) == 1.0 / 64.0 && Quarter(4) == 1.0 / 256.0 && Quarter(5) == 1.0 / 1024.0;
    assert Quarter(6) == 1.0 / 4096.0 && Quarter(7) == 1.0 / 16384.0 && Quarter(8) == 1.0 / 65536.0 && Quarter(9) == 1.0 / 262144.0 && Quarter(10) == 1.0 / 1048576.0 && Quarter(11) == 1.0 / 4194304.0;
    assert 12.5000000000000 <= Gain(3) <= 12.5000000000001;
    assert 13.2812500000000 <= Gain(4) <= 13.2812500000002;
    assert 13.4887695312500 <= Gain(5) <= 13.4887695312503;
    assert 13.5414600372314 <= Gain(6) <= 13.5414600372318;
    assert 13.5546841192990 <= Gain(7) <= 13.5546841192995;
    assert 13.5579933683515 <= Gain(8) <= 13.5579933683521;
    assert 13.5588208825951 <= Gain(9) <= 13.5588208825958;
    assert 13.5590277737828 <= Gain(10) <= 13.5590277737836;
    assert 13.5590794973689 <= Gain(11) <= 13.5590794973698;
    assert 13.5590924283147 <= Gain(12) <= 13.5590924283157;
    assert 13.5590956610542 <= Gain(13) <= 13.5590956610553;
  }

  /** h is g, or larger by at most a share of c - 2q. */
  ghost predicate Within(g: real, h: real, c: real, q: real) {
    g <= h <= g * (1.0 + c - 2.0 * q)
  }

  /** The factors after the k-th add less than two parts in 4^(k-1). */
  lemma {:induction false} GainTail(k: nat, j: nat)
    requires 2 <= k <= j && Quarter(k - 1) <= 0.25
    ensures Within(Gain(k), Gain(j), 2.0 * Quarter(k - 1), Quarter(j - 1))
  {
    if j > k {
      GainTail(k, j - 1);
      assert Gain(j) == Grown(Gain(j - 1), Quarter(j - 2));
      TailStep(Gain(k), Gain(j - 1), Quarter(j - 2), 2.0 * Quarter(k - 1));
    } else {
      WithinSelf(Gain(k), Quarter(k - 1));
    }
  }

  lemma WithinSelf(g: real, q: real)
    ensures Within(g, g, 2.0 * q, q)
  {
    assert 1.0 + 2.0 * q - 2.0 * q == 1.0;
  }

  lemma TailStep(g: real, h: real, q: real, c: real)
    requires g >= 0.0 && 0.0 < q && 0.0 <= c <= 0.5 && Within(g, h, c, q)
    ensures Within(g, Grown(h, q), c, q / 4.0)
  {
    var b := 1.0 + c - 2.0 * q;
    RealMonotone(h, 1.0, 1.0 + q);
    RealMonotone(1.0 + q, h, g * b);
    assert (1.0 + q) * (g * b) == g * (b * (1.0 + q));
    TailFactor(c, q);
    RealMonotone(g, b * (1.0 + q), 1.0 + c - q / 2.0);
  }

  lemma TailFactor(c: real, q: real)
    requires 0.0 < q && 0.0 <= c <= 0.5
    ensures (1.0 + c - 2.0 * q) * (1.0 + q) <= 1.0 + c - q / 2.0
  {
    RealMonotone(q, c - 2.0 * q, 0.5);
  }

  /** COSCALE is the reciprocal of the growth: it cancels it to nine digits. */
  lemma GainCancelled(j: nat)
    requires j >= 13
    ensures 13.5590956610542 <= Gain(j) <= 13.55909729
    ensures Near(COSCALE_SQUARED as real, UNIT as real, Gain(j), 137438953472.0)
    ensures COSCALE_SQUARED == COSCALE * COSCALE
  {
    GainAfter13();
    QuarterOf12();
    GainTail(13, j);
    TailSize(Gain(13), Gain(j), 2.0 * Quarter(12), Quarter(j - 1));
  }

  lemma QuarterOf12()
    ensures Quarter(12) == 0.000244140625 / 4096.0
  {
    assert Quarter(3) == 0.015625 && Quarter(6) == 0.000244140625 && Quarter(9) == 0.000244140625 / 64.0;
  }

  lemma TailSize(g: real, h: real, c: real, q: real)
    requires 13.5590956610542 <= g <= 13.5590956610553 && q > 0.0 && Within(g, h, c, q)
    requires 0.0 <= c <= 0.0000001193
    ensures 13.5590956610542 <= h <= 13.55909729
  {
    RealMonotone(g, 1.0 + c - 2.0 * q, 1.0 + c);
    RealMonotone(1.0 + c, g, 13.5590956610553);
  }

  lemma {:induction false} GainMonotone(i: nat, j: nat)
    requires i <= j
    ensures Gain(i) <= Gain(j)
  {
    if i < j {
      GainMonotone(i, j - 1);
      if j >= 2 { Grows(Gain(j - 1), Quarter(j - 2)); }
    }
  }

  lemma Grows(g: real, q: real)
    requires g >= 0.0 && q >= 0.0
    ensures g <= Grown(g, q)
  {
    RealMonotone(g, 1.0, 1.0 + q);
  }

  // ---------------------------------------------------------------- any run of pseudo-rotations

  /** After i steps the squared length has grown by the gain, whatever the directions. */
  ghost predicate GainHolds(n0: int, n1: int, i: nat) {
    Near(n0 as real, n1 as real, Gain(i), Allowance(i))
  }

  /** n1 is g times n0, give or take b. */
  ghost predicate Near(n0: real, n1: real, g: real, b: real) { RAbs(n1 - g * n0) <= b }

  /** What i steps can truncate altogether. */
  function Allowance(i: nat): real { if i == 0 then 0.0 else 2.0 * ERROR as real * (i - 1) as real }

  const START: int := 0x200_0000_0000_0000   // 2^57: both coordinates at most 2^28

  /** Both coordinates fit 32 bits. */
  predicate Fits(v: Vec) { InS32(v.x) && InS32(v.y) }

  lemma {:induction false} TurnedNorm(v: Vec, negative: seq<bool>)
    requires v.Norm() <= START && |negative| <= STEPS
    ensures GainHolds(v.Norm(), Turned(v, negative).Norm(), |negative|)
    ensures Fits(Turned(v, negative))
  {
    var i := |negative|;
    if i == 0 {
      SquaresFit(v, v.Norm());
    } else {
      var w, neg := Turned(v, negative[..i - 1]), negative[i - 1];
      TurnedNorm(v, negative[..i - 1]);
      if i == 1 {
        FirstStep(v, neg);
      } else {
        ShiftedStepGain(w, i - 2, neg);
        GainStep(v.Norm(), w.Norm(), Step(w, i - 1, neg).Norm(), i);
      }
      NormFits(v, Turned(v, negative), i);
    }
  }

  /** The first step, which shifts left, is exact. */
  lemma FirstStep(v: Vec, neg: bool)
    ensures GainHolds(v.Norm(), Step(v, 0, neg).Norm(), 1)
  {
    assert Step(v, 0, neg).Norm() == 5 * v.Norm();
  }

  lemma GainStep(n0: int, n1: int, n2: int, i: nat)
    requires i >= 2 && GainHolds(n0, n1, i - 1) && GrowsBy(n1, n2, i - 2)
    ensures GainHolds(n0, n2, i)
  {
    SmallShare(i - 2);
    StepError(n0 as real, n1 as real, n2 as real, Gain(i - 1), Quarter(i - 2), ERROR as real, Allowance(i - 1));
  }

  lemma {:induction false} SmallShare(s: nat)
    ensures 0.0 <= Allowance(s + 1) && Allowance(s + 1) * Quarter(s) <= ERROR as real
  {
    if s == 1 {
      assert Quarter(1) == 0.25;
    } else if s > 1 {
      SmallShare(s - 1);
      assert Quarter(s) == Quarter(s - 1) / 4.0;
      assert Allowance(s + 1) <= 2.0 * Allowance(s);
      RealMonotone(Quarter(s), Allowance(s + 1), 2.0 * Allowance(s));
    }
  }

  lemma StepError(n0: real, n1: real, n2: real, g: real, q: real, e: real, b: real)
    requires Near(n0, n1, g, b) && RAbs(n2 - Grown(n1, q)) <= e
    requires q > 0.0 && b >= 0.0 && b * q <= e
    ensures Near(n0, n2, Grown(g, q), b + 2.0 * e)
  {
    var d := n1 - g * n0;
    assert (g * (1.0 + q)) * n0 == (g * n0) * (1.0 + q);
    assert n1 * (1.0 + q) - (g * n0) * (1.0 + q) == d + q * d;
    RealMonotone(q, d, b);
    RealMonotone(q, -b, d);
    assert b * q == q * b && q * -b == -(q * b);
    assert RAbs(q * d) <= e;
    assert Grown(n1, q) - Grown(g, q) * n0 == d + q * d;
  }

  lemma NormFits(v: Vec, w: Vec, i: nat)
    requires v.Norm() <= START && i <= STEPS && GainHolds(v.Norm(), w.Norm(), i)
    ensures Fits(w)
  {
    NormNotNegative(v);
    NormBelow(v.Norm(), w.Norm(), i);
    SquaresFit(w, w.Norm());
  }

  lemma NormNotNegative(v: Vec)
    ensures v.Norm() >= 0
  {}

  lemma NormBelow(n0: int, n1: int, i: nat)
    requires 0 <= n0 <= START && i <= STEPS && GainHolds(n0, n1, i)
    ensures n1 < 0x4000_0000_0000_0000
  {
    GainMonotone(i, STEPS);
    GainCancelled(STEPS);
    NearBelow(n0 as real, n1 as real, Gain(i), Allowance(i));
  }

  lemma NearBelow(n0: real, n1: real, g: real, b: real)
    requires 0.0 <= n0 <= 144115188075855872.0 && g <= 13.6 && b <= 1000000000000.0 && Near(n0, n1, g, b)
    ensures n1 < 4611686018427387904.0
  {
    RealMonotone(n0, g, 13.6);
    AddAllowance(n0, n1, g * n0, b);
  }

  lemma AddAllowance(n0: real, n1: real, p: real, b: real)
    requires 0.0 <= n0 <= 144115188075855872.0 && p <= n0 * 13.6 && b <= 1000000000000.0 && n1 <= p + b
    ensures n1 < 4611686018427387904.0
  {}

  lemma SquaresFit(v: Vec, n: int)
    requires v.Norm() <= n < 0x4000_0000_0000_0000
    ensures Fits(v)
  {
    FitsSquare(v.x, v.Norm() - v.y * v.y);
    FitsSquare(v.y, v.Norm() - v.x * v.x);
  }

  lemma FitsSquare(x: int, s: int)
    requires s == x * x < 0x4000_0000_0000_0000
    ensures InS32(x)
  {
    if x >= TWO31 {
      MulMonotone(x, TWO31, x);
    } else if x < -TWO31 {
      MulMonotone(-x, TWO31, -x);
    }
  }

  // ---------------------------------------------------------------- the angle

  /** An angle within a quarter turn, and the half turns taken off to get there. */
  datatype Reduced = Reduced(angle: int, halfTurns: int)

  function Reduce(theta: int): (r: Reduced)
    ensures -QUARTER <= r.angle <= QUARTER
    ensures theta == r.angle + 2 * QUARTER * r.halfTurns
    ensures -QUARTER <= theta <= QUARTER ==> r == Reduced(theta, 0)
    decreases Abs(theta)
  {
    if theta < -QUARTER then
      var r := Reduce(theta + 2 * QUARTER);
      Reduced(r.angle, r.halfTurns - 1)
    else if theta > QUARTER then
      var r := Reduce(theta - 2 * QUARTER);
      Reduced(r.angle, r.halfTurns + 1)
    else Reduced(theta, 0)
  }

  /** The angle still to be turned after i steps, each in the direction of its sign. */
  function Residual(angle: int, i: nat): int
    requires i <= STEPS
  {
    if i == 0 then angle
    else
      var r := Residual(angle, i - 1);
      if r < 0 then r + ARCTAN[i - 1] else r - ARCTAN[i - 1]
  }

  function Directions(angle: int, i: nat): (d: seq<bool>)
    requires i <= STEPS
    ensures |d| == i
  {
    if i == 0 then [] else Directions(angle, i - 1) + [Residual(angle, i - 1) < 0]
  }

  /** The angle turned by steps in the given directions. */
  function AngleSum(negative: seq<bool>): int
    requires |negative| <= STEPS
  {
    if negative == [] then 0
    else
      var i := |negative| - 1;
      AngleSum(negative[..i]) + (if negative[i] then -ARCTAN[i] else ARCTAN[i])
  }

  lemma {:induction false} AngleConserved(angle: int, i: nat)
    requires i <= STEPS
    ensures angle == AngleSum(Directions(angle, i)) + Residual(angle, i)
  {
    if i > 0 {
      AngleConserved(angle, i - 1);
      AngleSumAppend(Directions(angle, i - 1), Residual(angle, i - 1) < 0);
    }
  }

  lemma AngleSumAppend(d: seq<bool>, negative: bool)
    requires |d| < STEPS
    ensures AngleSum(d + [negative]) == AngleSum(d) + (if negative then -ARCTAN[|d|] else ARCTAN[|d|])
  {
    assert (d + [negative])[..|d|] == d;
  }

  lemma {:induction false} AngleSumBound(negative: seq<bool>)
    requires |negative| <= STEPS
    ensures Abs(AngleSum(negative)) <= 4157273 * |negative|
  {
    if negative != [] {
      AngleSumBound(negative[..|negative| - 1]);
    }
  }

  /** How far from zero the residual can be before step i. */
  function Reach(i: nat): int
    requires i <= STEPS
  {
    if i == 0 then QUARTER
    else
      var overshoot := Reach(i - 1) - ARCTAN[i - 1];
      if overshoot > ARCTAN[i - 1] then overshoot else ARCTAN[i - 1]
  }

  lemma {:induction false} ResidualReach(angle: int, i: nat)
    requires -QUARTER <= angle <= QUARTER && i <= STEPS
    ensures -Reach(i) <= Residual(angle, i) <= Reach(i)
  {
    if i > 0 { ResidualReach(angle, i - 1); }
  }

  /** The table is dense enough to converge, to one unit in 16.16 degrees. */
  lemma AngleConverges(theta: int)
    ensures var r := Reduce(theta);
            Abs(theta - 2 * QUARTER * r.halfTurns - AngleSum(Directions(r.angle, STEPS))) <= 1
  {
    var r := Reduce(theta);
    AngleConserved(r.angle, STEPS);
    ResidualReach(r.angle, STEPS);
    assert Reach(4) == 919879;
    assert Reach(8) == 58666;
    assert Reach(12) == 3667;
    assert Reach(16) == 230;
    assert Reach(20) == 15;
    assert Reach(24) == 1;
  }

  // ---------------------------------------------------------------- the routines

  function Shr32(c: s32, i: nat): (r: s32)
    ensures r as int == Shr(c as int, i)
  {
    ShrinksTowardsZero(c as int, Pow2(i));
    Shr(c as int, i) as s32
  }

  /** The vector handed to the pseudo-rotations: turned by the half turns taken off. */
  function HalfTurned(v: Vec, halfTurns: int): Vec {
    if halfTurns % 2 == 0 then v else v.Negated()
  }

  lemma HalfTurnParity(v: Vec, h: int)
    ensures HalfTurned(v, h + 1) == HalfTurned(v, h - 1) == HalfTurned(v, h).Negated()
  {}

  /** Take half turns off the angle, negating the vector for each. */
  method ReduceAngle(px: s32, py: s32, theta0: s32) returns (x: s32, y: s32, theta: s32)
    requires px > -0x8000_0000 && py > -0x8000_0000
    ensures var r := Reduce(theta0 as int);
            theta as int == r.angle && Vec(x as int, y as int) == HalfTurned(Vec(px as int, py as int), r.halfTurns)
  {
    x, y, theta := px, py, theta0;
    ghost var r, v := Reduce(theta0 as int), Vec(px as int, py as int);
    ghost var taken := 0;
    while theta as int < -QUARTER
      invariant Reduce(theta as int) == Reduced(r.angle, r.halfTurns - taken)
      invariant Vec(x as int, y as int) == HalfTurned(v, taken)
      decreases -(theta as int)
    {
      x, y := -x, -y;
      theta := theta + 2 * 5898240;
      HalfTurnParity(v, taken);
      taken := taken - 1;
    }
    while theta as int > QUARTER
      invariant -QUARTER <= theta as int
      invariant Reduce(theta as int) == Reduced(r.angle, r.halfTurns - taken)
      invariant Vec(x as int, y as int) == HalfTurned(v, taken)
      decreases theta as int
    {
      x, y := -x, -y;
      theta := theta - 2 * 5898240;
      HalfTurnParity(v, taken);
      taken := taken + 1;
    }
  }

  /** The registers after i pseudo-rotations of v through the angle. */
  ghost predicate After(i: nat, v: Vec, angle: int, x: int, y: int, theta: int) {
    && v.Norm() <= START && -QUARTER <= angle <= QUARTER && i <= STEPS
    && Vec(x, y) == Turned(v, Directions(angle, i)) && theta == Residual(angle, i)
  }

  /** Pseudo-rotation i of the coordinates: the first shifts left, the others right. */
  method TurnStep(i: nat, px: s32, py: s32, negative: bool) returns (x: s32, y: s32)
    requires i == 0 ==> Abs(px as int) < 0x4000_0000 && Abs(py as int) < 0x4000_0000
    requires Fits(Step(Vec(px as int, py as int), i, negative))
    ensures Vec(x as int, y as int) == Step(Vec(px as int, py as int), i, negative)
  {
    if i == 0 {
      if negative {
        x, y := px + 2 * py, py - 2 * px;
      } else {
        x, y := px - 2 * py, py + 2 * px;
      }
    } else if negative {
      x, y := px + Shr32(py, i - 1), py - Shr32(px, i - 1);
    } else {
      x, y := px - Shr32(py, i - 1), py + Shr32(px, i - 1);
    }
  }

  /** Pseudo-rotation i, in the direction of the angle still to be turned. */
  method TurnOnce(i: nat, px: s32, py: s32, ptheta: s32, ghost v: Vec, ghost angle: int)
    returns (x: s32, y: s32, theta: s32)
    requires i < STEPS && After(i, v, angle, px as int, py as int, ptheta as int)
    ensures After(i + 1, v, angle, x as int, y as int, theta as int)
  {
    DirectionsFit(v, angle, i);
    FitsTwice(v);
    x, y := TurnStep(i, px, py, ptheta < 0);
    theta := NextAngle(i, ptheta, angle);
  }

  /** An angle moved up or down by the i-th table entry. */
  function TableTurn(i: nat, theta: s32, up: bool): (r: s32)
    requires i < STEPS && Abs(theta as int) < 0x4000_0000
    ensures r as int == theta as int + (if up then ARCTAN[i] else -ARCTAN[i])
  {
    if up then theta + ARCTAN[i] as s32 else theta - ARCTAN[i] as s32
  }

  method NextAngle(i: nat, ptheta: s32, ghost angle: int) returns (theta: s32)
    requires i < STEPS && -QUARTER <= angle <= QUARTER && ptheta as int == Residual(angle, i)
    ensures theta as int == Residual(angle, i + 1)
  {
    ResidualFits(angle, i);
    theta := TableTurn(i, ptheta, ptheta < 0);
  }

  /** Turn the vector back and forth by the angles of the table. */
  method TurnBy(px: s32, py: s32, angle: s32) returns (x: s32, y: s32)
    requires Vec(px as int, py as int).Norm() <= START
    requires -QUARTER <= angle as int <= QUARTER
    ensures Vec(x as int, y as int) == Turned(Vec(px as int, py as int), Directions(angle as int, STEPS))
  {
    ghost var v := Vec(px as int, py as int);
    var theta := angle;
    x, y := px, py;
    for i := 0 to STEPS
      invariant After(i, v, angle as int, x as int, y as int, theta as int)
    {
      x, y, theta := TurnOnce(i, x, y, theta, v, angle as int);
    }
  }

  lemma {:induction false} ResidualFits(angle: int, i: nat)
    requires -QUARTER <= angle <= QUARTER && i <= STEPS
    ensures -QUARTER <= Residual(angle, i) <= QUARTER
  {
    if i > 0 { ResidualFits(angle, i - 1); }
  }

  /** Rotate a vector by theta, up to the gain. All registers are 32 bits wide, so
      verifying the body shows that none of them overflows. */
  method PseudoRotate(px: s32, py: s32, theta: s32) returns (x: s32, y: s32)
    requires Vec(px as int, py as int).Norm() <= START
    ensures var r := Reduce(theta as int);
            Vec(x as int, y as int) == Turned(HalfTurned(Vec(px as int, py as int), r.halfTurns), Directions(r.angle, STEPS))
    ensures GainHolds(Vec(px as int, py as int).Norm(), Vec(x as int, y as int).Norm(), STEPS)
  {
    ghost var v, r := Vec(px as int, py as int), Reduce(theta as int);
    FitsTwice(v);
    HalfTurnNorm(v, r.halfTurns);
    TurnedNorm(HalfTurned(v, r.halfTurns), Directions(r.angle, STEPS));
    var angle: s32;
    x, y, angle := ReduceAngle(px, py, theta);
    x, y := TurnBy(x, y, angle);
  }

  lemma HalfTurnNorm(v: Vec, halfTurns: int)
    ensures HalfTurned(v, halfTurns).Norm() == v.Norm()
  {}

  /** The next vector along the reduction of the angle, and that it fits. */
  lemma DirectionsFit(v: Vec, angle: int, i: nat)
    requires v.Norm() <= START && i < STEPS
    ensures var d := Directions(angle, i + 1);
            Turned(v, d) == Step(Turned(v, Directions(angle, i)), i, Residual(angle, i) < 0) && Fits(Turned(v, d))
  {
    TurnedNorm(v, Directions(angle, i + 1));
    assert Directions(angle, i + 1)[..i] == Directions(angle, i);
  }

  lemma FitsTwice(v: Vec)
    requires v.Norm() <= START
    ensures Abs(v.x) < 0x4000_0000 && Abs(v.y) < 0x4000_0000
  {
    SmallSquare(v.x, v.Norm() - v.y * v.y);
    SmallSquare(v.y, v.Norm() - v.x * v.x);
  }

  lemma SmallSquare(x: int, s: int)
    requires s == x * x <= START
    ensures Abs(x) < 0x4000_0000
  {
    if x >= 0x4000_0000 {
      MulMonotone(x, 0x4000_0000, x);
    } else if x <= -0x4000_0000 {
      MulMonotone(-x, 0x4000_0000, -x);
    }
  }

  // ---------------------------------------------------------------- cosine and sine

  /** The point at angle theta of the unit circle: for every theta its squared length
      is one, to within 2^-21. */
  method FracCosineSine(theta: s32) returns (cosine: s32, sine: s32)
    ensures Abs(Vec(cosine as int, sine as int).Norm() - UNIT) <= 0x80_0000_0000
    ensures var r := Reduce(theta as int);
            Vec(cosine as int, sine as int) == Turned(HalfTurned(Vec(COSCALE, 0), r.halfTurns), Directions(r.angle, STEPS))
  {
    ghost var n0 := Vec(COSCALE, 0).Norm();
    assert n0 == COSCALE_SQUARED;
    cosine, sine := PseudoRotate(291597966, 0, theta);
    UnitLength(n0, Vec(cosine as int, sine as int).Norm());
  }

  lemma UnitLength(n0: int, n1: int)
    requires n0 == COSCALE_SQUARED && GainHolds(n0, n1, STEPS)
    ensures Abs(n1 - UNIT) <= 0x80_0000_0000
  {
    GainCancelled(STEPS);
    BothNear(n0 as real, n1 as real, UNIT as real, Gain(STEPS), Allowance(STEPS), 137438953472.0);
  }

  lemma BothNear(n0: real, n1: real, u: real, g: real, b: real, c: real)
    requires Near(n0, n1, g, b) && Near(n0, u, g, c)
    ensures RAbs(n1 - u) <= b + c
  {}

  // ---------------------------------------------------------------- normalisation

  /** A coordinate scaled by 2^-e, its magnitude rounded down. */
  function Scaled(c: int, e: int): int {
    if e <= 0 then Shl(c, -e) else if c < 0 then -Shr(-c, e) else Shr(c, e)
  }

  /** Scale two magnitudes until the larger lies in [2^27, 2^28]. */
  method Normalise(big0: s32, small0: s32) returns (big: s32, small: s32, e: int)
    requires 0 <= small0 <= big0 && big0 > 0
    ensures 0 <= small <= big && 0x800_0000 <= big <= 0x1000_0000
    ensures big as int == Scaled(big0 as int, e) && small as int == Scaled(small0 as int, e)
  {
    big, small, e := big0, small0, 0;
    assert Pow2(0) == 1;
    while big < 0x800_0000
      invariant e <= 0 && 0 < big && 0 <= small <= big && (e < 0 ==> big < 0x1000_0000)
      invariant big as int == Shl(big0 as int, -e) && small as int == Shl(small0 as int, -e)
      decreases 0x800_0000 - big as int
    {
      ShlShl(big0 as int, -e, 1);
      ShlShl(small0 as int, -e, 1);
      assert Pow2(1) == 2;
      big, small, e := 2 * big, 2 * small, e - 1;
    }
    assert e < 0 ==> big <= 0x1000_0000;
    while big > 0x1000_0000
      invariant 0x800_0000 <= big && 0 <= small <= big
      invariant e <= 0 || (big as int == Shr(big0 as int, e) && small as int == Shr(small0 as int, e))
      invariant e <= 0 ==> big as int == Scaled(big0 as int, e) && small as int == Scaled(small0 as int, e)
      invariant e < 0 ==> big <= 0x1000_0000
      decreases big as int
    {
      ShrShr(big0 as int, e, 1);
      ShrShr(small0 as int, e, 1);
      DivMonotone(small as int, big as int, 2);
      assert Pow2(1) == 2;
      big, small, e := Shr32(big, 1), Shr32(small, 1), e + 1;
    }
  }

  /** Block-normalise a vector for the pseudo-rotations. */
  method FxPreNorm(argx: s32, argy: s32) returns (x: s32, y: s32, shiftexp: int)
    requires argx > -0x8000_0000 && argy > -0x8000_0000 && (argx != 0 || argy != 0)
    ensures x as int == Scaled(argx as int, shiftexp) && y as int == Scaled(argy as int, shiftexp)
    ensures 0x800_0000 <= Abs(x as int) <= 0x1000_0000 || 0x800_0000 <= Abs(y as int) <= 0x1000_0000
    ensures Abs(x as int) <= 0x1000_0000 && Abs(y as int) <= 0x1000_0000
    ensures Vec(x as int, y as int).Norm() <= START
  {
    x := if argx < 0 then -argx else argx;
    y := if argy < 0 then -argy else argy;
    if x < y {
      y, x, shiftexp := Normalise(y, x);
    } else {
      x, y, shiftexp := Normalise(x, y);
    }
    ScaledSign(argx as int, shiftexp);
    ScaledSign(argy as int, shiftexp);
    x := if argx < 0 then -x else x;
    y := if argy < 0 then -y else y;
    BoxNorm(Vec(x as int, y as int));
  }

  lemma ScaledSign(c: int, e: int)
    ensures Scaled(c, e) == if c < 0 then -Scaled(-c, e) else Scaled(Abs(c), e)
  {
    if e <= 0 {
      assert Shl(-c, -e) == -Shl(c, -e);
    }
  }

  lemma BoxNorm(v: Vec)
    requires Abs(v.x) <= 0x1000_0000 && Abs(v.y) <= 0x1000_0000
    ensures v.Norm() <= START
  {
    assert v.x * v.x == Abs(v.x) * Abs(v.x) && v.y * v.y == Abs(v.y) * Abs(v.y);
    MulMonotone(Abs(v.x), Abs(v.x), 0x1000_0000);
    MulMonotone(Abs(v.y), Abs(v.y), 0x1000_0000);
  }

  // ---------------------------------------------------------------- polarisation

  /** Directions that turn the vector towards the x axis at every step. */
  function PolarDirections(v: Vec, i: nat): (d: seq<bool>)
    requires i <= STEPS
    ensures |d| == i
  {
    if i == 0 then []
    else
      var d := PolarDirections(v, i - 1);
      d + [Turned(v, d).y >= 0]
  }

  function Polar(v: Vec, i: nat): Vec
    requires i <= STEPS
  {
    Turned(v, PolarDirections(v, i))
  }

  lemma PolarStep(v: Vec, i: nat)
    requires i < STEPS
    ensures Polar(v, i + 1) == Step(Polar(v, i), i, Polar(v, i).y >= 0)
    ensures AngleSum(PolarDirections(v, i + 1))
         == AngleSum(PolarDirections(v, i)) + (if Polar(v, i).y >= 0 then -ARCTAN[i] else ARCTAN[i])
  {
    var d, negative := PolarDirections(v, i), Polar(v, i).y >= 0;
    AngleSumAppend(d, negative);
    assert (d + [negative])[..i] == d;
  }

  /** The distance from the axis is at most 2^(1-s) of the x coordinate, and a unit
      for each shift that has truncated. */
  ghost predicate NearAxis(w: Vec, s: nat) {
    w.x >= 0 && Pow2(s) * Abs(w.y) <= 2 * w.x + Pow2(s) * s
  }

  lemma {:induction false} PolarConverges(v: Vec, i: nat)
    requires v.x >= 0 && i < STEPS
    ensures NearAxis(Polar(v, i + 1), i)
  {
    PolarStep(v, i);
    if i > 0 {
      PolarConverges(v, i - 1);
      AxisStep(Polar(v, i), i - 1);
    }
  }

  lemma AxisStep(w: Vec, s: nat)
    requires NearAxis(w, s)
    ensures NearAxis(Step(w, s + 1, w.y >= 0), s + 1)
  {
    var p, f := Pow2(s), Shr(w.x, s);
    FloorBounds(w.x, p);
    ShrinksTowardsZero(w.x, p);
    ShrinksTowardsZero(w.y, p);
    var u := Step(w, s + 1, w.y >= 0);
    assert u.x >= w.x && Abs(u.y) == Abs(Abs(w.y) - f);
    AxisDistance(p, s, w.x, Abs(w.y), f);
    Doubled(p, Abs(u.y), s + 1);
  }

  lemma AxisDistance(p: int, s: nat, x: int, a: int, f: int)
    requires p > 0 && p * a <= 2 * x + p * s && p * f <= x < p * f + p && a >= 0 && f >= 0
    ensures p * Abs(a - f) <= x + p * (s + 1)
  {
    assert p * (s + 1) == p * s + p;
    assert p * (a - f) == p * a - p * f && p * (f - a) == p * f - p * a;
    MulMonotone(p, 0, a);
    MulMonotone(p, 0, s);
  }

  lemma Doubled(p: int, a: int, s: int)
    ensures (2 * p) * a == 2 * (p * a) && (2 * p) * s == 2 * (p * s)
  {}

  /** The angle the polarisation starts from: a half turn when the vector was negated. */
  function PolarStart(arg: Vec): int {
    if arg.x >= 0 then 0 else if arg.y < 0 then -2 * QUARTER else 2 * QUARTER
  }

  function RightHalf(arg: Vec): Vec { if arg.x < 0 then arg.Negated() else arg }

  ghost predicate Polarised(i: nat, arg: Vec, x: int, y: int, theta: int) {
    && arg.Norm() <= START && i <= STEPS
    && Vec(x, y) == Polar(RightHalf(arg), i) && theta == PolarStart(arg) - AngleSum(PolarDirections(RightHalf(arg), i))
  }

  /** Polarisation step i, towards the x axis. */
  method PolarOnce(i: nat, px: s32, py: s32, ptheta: s32, ghost arg: Vec) returns (x: s32, y: s32, theta: s32)
    requires i < STEPS && Polarised(i, arg, px as int, py as int, ptheta as int)
    ensures Polarised(i + 1, arg, x as int, y as int, theta as int)
  {
    ghost var v := RightHalf(arg);
    PolarStep(v, i);
    PolarFits(arg, i + 1);
    FitsTwice(arg);
    x, y := TurnStep(i, px, py, py >= 0);
    theta := PolarAngle(i, py >= 0, ptheta, arg);
  }

  method PolarAngle(i: nat, negative: bool, ptheta: s32, ghost arg: Vec) returns (theta: s32)
    requires i < STEPS
    requires negative <==> Polar(RightHalf(arg), i).y >= 0
    requires ptheta as int == PolarStart(arg) - AngleSum(PolarDirections(RightHalf(arg), i))
    ensures theta as int == PolarStart(arg) - AngleSum(PolarDirections(RightHalf(arg), i + 1))
  {
    PolarStep(RightHalf(arg), i);
    AngleSumBound(PolarDirections(RightHalf(arg), i));
    theta := TableTurn(i, ptheta, negative);
  }

  lemma PolarFits(arg: Vec, i: nat)
    requires arg.Norm() <= START && i <= STEPS
    ensures Fits(Polar(RightHalf(arg), i))
    ensures GainHolds(arg.Norm(), Polar(RightHalf(arg), i).Norm(), i)
  {
    HalfTurnNorm(arg, 1);
    assert RightHalf(arg) == HalfTurned(arg, if arg.x < 0 then 1 else 0);
    TurnedNorm(RightHalf(arg), PolarDirections(RightHalf(arg), i));
  }

  /** Radius and angle of a vector; the squared radius is the squared length times the
      gain, and the vector turned back by the angle lies on the x axis. */
  method PseudoPolarize(argx: s32, argy: s32) returns (radius: s32, theta: s32)
    requires Vec(argx as int, argy as int).Norm() <= START
    ensures IsPolar(Vec(argx as int, argy as int), radius as int, theta as int)
  {
    ghost var arg := Vec(argx as int, argy as int);
    FitsTwice(arg);
    var x, y := argx, argy;
    theta := 0;
    if x < 0 {
      x, y, theta := -x, -y, 2 * 5898240;
    }
    if y > 0 {
      theta := -theta;
    }
    for i := 0 to STEPS
      invariant Polarised(i, arg, x as int, y as int, theta as int)
    {
      x, y, theta := PolarOnce(i, x, y, theta, arg);
    }
    radius := x;
    PolarResult(arg);
  }

  ghost predicate IsPolar(arg: Vec, radius: int, theta: int) {
    var w := Polar(RightHalf(arg), STEPS);
    && radius == w.x >= 0
    && theta == PolarStart(arg) - AngleSum(PolarDirections(RightHalf(arg), STEPS))
    && Abs(w.y) <= 535
    && GainHolds(arg.Norm(), w.Norm(), STEPS)
  }

  lemma PolarResult(arg: Vec)
    requires arg.Norm() <= START
    ensures var w := Polar(RightHalf(arg), STEPS);
            w.x >= 0 && Abs(w.y) <= 535 && GainHolds(arg.Norm(), w.Norm(), STEPS)
  {
    PolarFits(arg, STEPS);
    PolarConverges(RightHalf(arg), STEPS - 1);
    OnAxis(Polar(RightHalf(arg), STEPS));
  }

  lemma OnAxis(w: Vec)
    requires NearAxis(w, STEPS - 1) && Fits(w)
    ensures Abs(w.y) <= 535
  {
    assert Pow2(8) == 256 && Pow2(16) == 0x1_0000 && Pow2(23) == 0x80_0000;
  }
}
