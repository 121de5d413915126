/** Rotation and polarisation of whole vectors: normalise, turn by pseudo-rotations, undo
    their growth, and shift back. */
module CordicVector {
  import opened MachineInt
  import opened RealFacts
  import opened FixedMultiply
  import opened Cordic

  const TWO96: int := 0x1_0000_0000_0000_0000_0000_0000
  const TWO92: int := 0x1000_0000_0000_0000_0000_0000

  /** What two to the 36th is to the squared length of a normalised vector, at least 2^54:
      four parts in a million. */
  const SLACK: int := 0x10_0000_0000

  // ---------------------------------------------------------------- undoing the growth

  function Rescale(c: int): int
    requires InS32(c)
  {
    FracMul(c, COSCALE)
  }

  lemma RescaleNear(c: int)
    requires InS32(c)
    ensures Abs(0x4000_0000 * Rescale(c) - c * COSCALE) <= 0x2000_0000 && InS32(Rescale(c))
  {
    Pow2Values();
    var q := RoundHalfUp(c * COSCALE, 0x4000_0000);
    assert InS32(q);
  }

  lemma SquareNear(x: int, e: int)
    requires Abs(x) <= 0x1000_0000_0000_0000 && Abs(e) <= 0x2000_0000
    ensures Abs((x + e) * (x + e) - x * x) <= TWO92 / 2
  {
    assert (x + e) * (x + e) - x * x == 2 * (x * e) + e * e;
    ProductAtMost(x, e, 0x1000_0000_0000_0000, 0x2000_0000);
    ProductAtMost(e, e, 0x2000_0000, 0x2000_0000);
  }

  /** One coordinate squared, before and after. */
  lemma RescaledSquare(c: int)
    requires InS32(c)
    ensures Abs(UNIT * (Rescale(c) * Rescale(c)) - COSCALE_SQUARED * (c * c)) <= TWO92 / 2
  {
    RescaleNear(c);
    var x, y := c * COSCALE, 0x4000_0000 * Rescale(c);
    SquaresNear(x, y);
    SquareOfProduct(0x4000_0000, Rescale(c));
    SquareOfProduct(c, COSCALE);
  }

  lemma SquaresNear(x: int, y: int)
    requires Abs(x) <= 0x1000_0000_0000_0000 && Abs(y - x) <= 0x2000_0000
    ensures Abs(y * y - x * x) <= TWO92 / 2
  {
    SquareNear(x, y - x);
  }

  lemma SquareOfProduct(a: int, b: int)
    ensures (a * b) * (a * b) == (a * a) * (b * b)
  {
    assert (a * b) * (a * b) == a * (b * (a * b)) == a * (a * (b * b));
  }

  /** The growth of the length and the scale by COSCALE cancel. */
  lemma GrowthUndone(n0: int, n1: int)
    requires 0 <= n0 <= START && GainHolds(n0, n1, STEPS)
    ensures Abs(COSCALE_SQUARED * n1 - UNIT * n0) <= TWO96 - 2 * TWO92
  {
    GrowthClose(n0, n1);
    AllowanceIs();
    BackToInts(COSCALE_SQUARED * n1 - UNIT * n0, CancelBound());
  }

  function CancelBound(): real { COSCALE_SQUARED as real * 395136991324.0 + 137438953472.0 * START as real }

  lemma GrowthClose(n0: int, n1: int)
    requires 0 <= n0 <= START && GainHolds(n0, n1, STEPS)
    ensures RAbs((COSCALE_SQUARED * n1 - UNIT * n0) as real) <= CancelBound()
  {
    GainCancelled(STEPS);
    AllowanceIs();
    CancelTo(n0, n1, Gain(STEPS), Allowance(STEPS));
  }

  lemma CancelTo(n0: int, n1: int, g: real, a: real)
    requires 0 <= n0 <= START && Near(n0 as real, n1 as real, g, a) && a == 395136991324.0
    requires Near(COSCALE_SQUARED as real, UNIT as real, g, 137438953472.0)
    ensures RAbs((COSCALE_SQUARED * n1 - UNIT * n0) as real) <= CancelBound()
  {
    CancelAll(n0, n1, COSCALE_SQUARED, UNIT, g, a, 137438953472.0, START);
  }

  lemma CancelAll(n0: int, n1: int, c: int, u: int, g: real, a: real, b: real, m: int)
    requires 0 <= n0 <= m && 0 <= c && Near(n0 as real, n1 as real, g, a) && Near(c as real, u as real, g, b)
    ensures RAbs((c * n1 - u * n0) as real) <= c as real * a + b * m as real
  {
    Cancel(n0 as real, n1 as real, g, c as real, u as real, a, b, m as real, n1 as real - g * n0 as real, u as real - g * c as real);
    AsReals(c, n1, u, n0);
  }

  lemma AllowanceIs()
    ensures Allowance(STEPS) == 395136991324.0
    ensures CancelBound() <= (TWO96 - 2 * TWO92) as real
  {}

  lemma BackToInts(t: int, bound: real)
    requires RAbs(t as real) <= bound <= (TWO96 - 2 * TWO92) as real
    ensures Abs(t) <= TWO96 - 2 * TWO92
  {}

  lemma AsReals(a: int, b: int, c: int, d: int)
    ensures (a * b - c * d) as real == a as real * b as real - c as real * d as real
  {
    CastProduct(a, b);
    CastProduct(c, d);
  }

  lemma Cancel(n0: real, n1: real, g: real, c: real, u: real, a: real, b: real, m: real, d: real, e: real)
    requires 0.0 <= n0 <= m && 0.0 <= c && d == n1 - g * n0 && e == u - g * c && RAbs(d) <= a && RAbs(e) <= b
    ensures RAbs(c * n1 - u * n0) <= c * a + b * m
  {
    Regroup(n0, n1, g, c, u, d, e);
    CancelParts(c, d, a, e, n0, b, m);
    TriangleBound(c * n1 - u * n0, c * d, e * n0, c * a, b * m);
  }

  lemma CancelParts(c: real, d: real, a: real, e: real, n0: real, b: real, m: real)
    requires 0.0 <= n0 <= m && 0.0 <= c && RAbs(d) <= a && RAbs(e) <= b
    ensures RAbs(c * d) <= c * a && RAbs(e * n0) <= b * m
  {
    RealProductAtMost(c, d, c, a);
    RealProductAtMost(e, n0, b, m);
  }

  lemma Regroup(n0: real, n1: real, g: real, c: real, u: real, d: real, e: real)
    requires d == n1 - g * n0 && e == u - g * c
    ensures c * n1 - u * n0 == c * d - e * n0
  {
    assert c * d == c * n1 - c * (g * n0);
    assert e * n0 == u * n0 - (g * c) * n0;
    assert (g * c) * n0 == c * (g * n0);
  }

  /** Turned and rescaled, a vector has its old length, to four parts in a million. */
  lemma LengthKept(n0: int, w: Vec)
    requires 0 <= n0 <= START && InS32(w.x) && InS32(w.y) && GainHolds(n0, w.Norm(), STEPS)
    ensures Abs(Vec(Rescale(w.x), Rescale(w.y)).Norm() - n0) <= SLACK
  {
    GrowthUndone(n0, w.Norm());
    RescaledSquare(w.x);
    RescaledSquare(w.y);
    Undone(Rescale(w.x) * Rescale(w.x), Rescale(w.y) * Rescale(w.y), w.x * w.x, w.y * w.y, n0);
  }

  lemma Undone(a: int, b: int, p: int, q: int, n0: int)
    requires Abs(UNIT * a - COSCALE_SQUARED * p) <= TWO92 / 2 && Abs(UNIT * b - COSCALE_SQUARED * q) <= TWO92 / 2
    requires Abs(COSCALE_SQUARED * (p + q) - UNIT * n0) <= TWO96 - 2 * TWO92
    ensures Abs(a + b - n0) <= SLACK
  {}

  /** The same for a vector turned onto the x axis: its x coordinate alone has the length. */
  lemma RadiusKept(n0: int, w: Vec)
    requires 0 <= n0 <= START && InS32(w.x) && Abs(w.y) <= 535 && GainHolds(n0, w.Norm(), STEPS)
    ensures Abs(Rescale(w.x) * Rescale(w.x) - n0) <= SLACK
  {
    GrowthUndone(n0, w.Norm());
    RescaledSquare(w.x);
    ProductAtMost(w.y, w.y, 535, 535);
    RadiusUndone(Rescale(w.x) * Rescale(w.x), w.x * w.x, w.y * w.y, n0);
  }

  lemma RadiusUndone(a: int, p: int, q: int, n0: int)
    requires Abs(UNIT * a - COSCALE_SQUARED * p) <= TWO92 / 2 && Abs(q) <= 286225
    requires Abs(COSCALE_SQUARED * (p + q) - UNIT * n0) <= TWO96 - 2 * TWO92
    ensures Abs(a - n0) <= SLACK
  {}

  // ---------------------------------------------------------------- whole vectors

  /** Shift a coordinate back by the exponent that normalisation returned; a left shift
      that leaves 32 bits loses its top. */
  function Denormalised(c: int, e: int): int {
    if e < 0 then Shr(c, -e) else S32(Shl(c, e))
  }

  /** n is the vector v normalised by the exponent e. */
  ghost predicate NormalisedTo(v: Vec, n: Vec, e: int) {
    && n.x == Scaled(v.x, e) && n.y == Scaled(v.y, e) && 0 <= n.Norm() <= START
    && (0x800_0000 <= Abs(n.x) || 0x800_0000 <= Abs(n.y))
  }

  // ---------------------------------------------------------------- shifting back

  /** Shifting back loses no top bits: always for right shifts. */
  predicate ShiftKeeps(t: Vec, e: int) { e >= 0 ==> InS32(Shl(t.x, e)) && InS32(Shl(t.y, e)) }

  function ShiftedBack(t: Vec, e: int): Vec { Vec(Denormalised(t.x, e), Denormalised(t.y, e)) }

  /** How far the squared length of the result r, shifted back by e, may be off the squared
      length of the argument: a unit in each coordinate, and the slack of the rotation. It
      is counted in units of 4^e when e is negative. */
  function Tolerance(n: Vec, r: Vec, e: int): int {
    if e < 0 then SLACK + Pow2(-e) * Pow2(-e) * (2 * Abs(r.x) + 2 * Abs(r.y) + 2)
    else Pow2(e) * Pow2(e) * (SLACK + 2 * Abs(n.x) + 2 * Abs(n.y) + 2)
  }

  /** The whole way: v was normalised to n, turned to t, and shifted back to r. */
  ghost predicate KeepsLength(v: Vec, n: Vec, t: Vec, r: Vec, e: int) {
    && r == ShiftedBack(t, e)
    && (e >= 0 ==> (r == Vec(Shl(t.x, e), Shl(t.y, e)) <==> ShiftKeeps(t, e)))
    && (v.Norm() <= SAFE_NORM ==> ShiftKeeps(t, e))
    && (ShiftKeeps(t, e) ==>
          (if e < 0 then Pow2(-e) * Pow2(-e) else 1) * Abs(r.Norm() - v.Norm()) <= Tolerance(n, r, e))
  }

  /** The square of a length of almost 2^31. */
  const SAFE_NORM: int := TWO62 - 0x800_0000_0000

  lemma LengthAfterShift(v: Vec, n: Vec, t: Vec, e: int)
    requires NormalisedTo(v, n, e) && Abs(t.Norm() - n.Norm()) <= SLACK && Abs(v.x) < TWO31 && Abs(v.y) < TWO31
    ensures KeepsLength(v, n, t, ShiftedBack(t, e), e)
  {
    if e < 0 {
      ShortLength(v, n, t, e);
    } else {
      LongLength(v, n, t, e);
    }
  }

  /** After a left shift at first, the right shift back takes the floor. */
  lemma ShortLength(v: Vec, n: Vec, t: Vec, e: int)
    requires NormalisedTo(v, n, e) && Abs(t.Norm() - n.Norm()) <= SLACK && e < 0
    ensures KeepsLength(v, n, t, ShiftedBack(t, e), e)
  {
    var p, r := Pow2(-e), ShiftedBack(t, e);
    FloorSquare(t.x, p);
    FloorSquare(t.y, p);
    SquareScaled(v.x, p);
    SquareScaled(v.y, p);
    CollectShort(p * p, t.x * t.x, t.y * t.y, r.x * r.x, r.y * r.y, v.x * v.x, v.y * v.y, Abs(r.x), Abs(r.y));
  }

  lemma SquareScaled(c: int, p: int)
    ensures (c * p) * (c * p) == (p * p) * (c * c)
  {
    SquareOfProduct(c, p);
  }

  lemma FloorSquare(c: int, p: int)
    requires p > 0
    ensures Abs(c * c - (p * p) * ((c / p) * (c / p))) <= (p * p) * (2 * Abs(c / p) + 1)
  {
    FloorBounds(c, p);
    NearSquare(c, c / p, p);
  }

  lemma NearSquare(c: int, d: int, p: int)
    requires p > 0 && p * d - p <= c <= p * d + p
    ensures Abs(c * c - (p * p) * (d * d)) <= (p * p) * (2 * Abs(d) + 1)
  {
    var x, f := p * d, c - p * d;
    SquareOfSum(x, f);
    SquareOfProduct(p, d);
    ProductAtMost(x, f, p * Abs(d), p);
    ProductAtMost(f, f, p, p);
    NearSum(c * c, x * x, x * f, f * f, (p * Abs(d)) * p, p * p);
    ToleranceOf(p, Abs(d));
  }

  lemma ToleranceOf(p: int, d: int)
    ensures 2 * ((p * d) * p) + p * p == (p * p) * (2 * d + 1)
  {
    assert (p * d) * p == (p * p) * d;
  }

  lemma SquareOfSum(x: int, f: int)
    ensures (x + f) * (x + f) == x * x + 2 * (x * f) + f * f
  {}

  lemma NearSum(c: int, x: int, m: int, f: int, a: int, b: int)
    requires c == x + 2 * m + f && Abs(m) <= a && Abs(f) <= b
    ensures Abs(c - x) <= 2 * a + b
  {}

  lemma CollectShort(s: int, tx: int, ty: int, rx: int, ry: int, vx: int, vy: int, ax: int, ay: int)
    requires s > 0 && Abs(tx - s * rx) <= s * (2 * ax + 1) && Abs(ty - s * ry) <= s * (2 * ay + 1)
    requires Abs(tx + ty - (s * vx + s * vy)) <= SLACK
    ensures s * Abs(rx + ry - (vx + vy)) <= SLACK + s * (2 * ax + 2 * ay + 2)
  {
    var d := rx + ry - (vx + vy);
    assert s * Abs(d) == Abs(s * d);
    assert s * d == s * rx + s * ry - (s * vx + s * vy);
    assert s * (2 * ax + 2 * ay + 2) == s * (2 * ax + 1) + s * (2 * ay + 1);
  }

  /** After a right shift at first, which truncates, the left shift back is exact as long
      as it stays in 32 bits. */
  lemma LongLength(v: Vec, n: Vec, t: Vec, e: int)
    requires NormalisedTo(v, n, e) && Abs(t.Norm() - n.Norm()) <= SLACK && e >= 0
    requires Abs(v.x) < TWO31 && Abs(v.y) < TWO31
    ensures KeepsLength(v, n, t, ShiftedBack(t, e), e)
  {
    var p, r := Pow2(e), ShiftedBack(t, e);
    Truncated(v.x, e);
    Truncated(v.y, e);
    ScaleSmall(v, n, e);
    if v.Norm() <= SAFE_NORM {
      SafeLength(v, n, t, p);
    }
    if ShiftKeeps(t, e) {
      NearSquare(v.x, n.x, p);
      NearSquare(v.y, n.y, p);
      SquareScaled(t.x, p);
      SquareScaled(t.y, p);
      CollectLong(p * p, t.x * t.x, t.y * t.y, n.x * n.x, n.y * n.y, v.x * v.x, v.y * v.y, Abs(n.x), Abs(n.y));
    }
  }

  lemma Truncated(c: int, e: nat)
    ensures var p, d := Pow2(e), Scaled(c, e); p * d - p <= c <= p * d + p && p * Abs(d) <= Abs(c)
  {
    if e == 0 {
      assert Pow2(0) == 1 && Shl(c, 0) == c;
    } else {
      TruncatedBy(c, Pow2(e), Shr(Abs(c), e), Scaled(c, e));
    }
  }

  lemma TruncatedBy(c: int, p: int, q: int, d: int)
    requires p > 0 && q == Abs(c) / p && d == if c < 0 then -q else q
    ensures p * d - p <= c <= p * d + p && p * Abs(d) <= Abs(c)
  {
    FloorBounds(Abs(c), p);
    ShrinksTowardsZero(Abs(c), p);
    NegatedProduct(p, q);
  }

  lemma NegatedProduct(p: int, d: int)
    ensures p * -d == -(p * d)
  {}

  /** Not more than three bits are shifted out. */
  lemma ScaleSmall(v: Vec, n: Vec, e: nat)
    requires NormalisedTo(v, n, e) && Abs(v.x) < TWO31 && Abs(v.y) < TWO31
    ensures Pow2(e) <= 8
  {
    Truncated(v.x, e);
    Truncated(v.y, e);
    var big := if 0x800_0000 <= Abs(n.x) then Abs(n.x) else Abs(n.y);
    MulMonotone(Pow2(e), 0x800_0000, big);
    assert Pow2(3) == 8 && Pow2(4) == 16;
    if e > 3 { Pow2Monotone(4, e); } else { Pow2Monotone(e, 3); }
  }

  lemma SafeLength(v: Vec, n: Vec, t: Vec, p: int)
    requires 0 < p <= 8 && p * Abs(n.x) <= Abs(v.x) && p * Abs(n.y) <= Abs(v.y)
    requires Abs(t.Norm() - n.Norm()) <= SLACK && v.Norm() <= SAFE_NORM
    ensures Abs(t.x * p) < TWO31 && Abs(t.y * p) < TWO31
  {
    SquareBelow(v.x, n.x, p);
    SquareBelow(v.y, n.y, p);
    MulMonotone(p, p, 8);
    SafeSum(p * p, t.x * t.x, t.y * t.y, n.x * n.x, n.y * n.y, v.x * v.x, v.y * v.y);
    SquareScaled(t.x, p);
    SquareScaled(t.y, p);
    RootBelow(t.x * p);
    RootBelow(t.y * p);
  }

  lemma SquareBelow(c: int, d: int, p: int)
    requires p > 0 && p * Abs(d) <= Abs(c)
    ensures (p * p) * (d * d) <= c * c
  {
    ProductAtMost(p * Abs(d), p * Abs(d), Abs(c), Abs(c));
    SquareOfProduct(p, Abs(d));
    assert Abs(d) * Abs(d) == d * d && Abs(c) * Abs(c) == c * c;
  }

  lemma SafeSum(s: int, tx: int, ty: int, nx: int, ny: int, vx: int, vy: int)
    requires 0 < s <= 64 && tx >= 0 && ty >= 0 && Abs(tx + ty - (nx + ny)) <= SLACK
    requires s * nx <= vx && s * ny <= vy && vx + vy <= SAFE_NORM
    ensures s * tx < TWO62 && s * ty < TWO62
  {
    MulMonotone(s, tx, nx + ny + SLACK);
    MulMonotone(s, ty, nx + ny + SLACK);
    assert s * (nx + ny + SLACK) == s * nx + s * ny + s * SLACK;
  }

  lemma RootBelow(c: int)
    requires c * c < TWO62
    ensures Abs(c) < TWO31
  {
    assert Abs(c) * Abs(c) == c * c;
    if Abs(c) >= TWO31 {
      MulMonotone(TWO31, TWO31, Abs(c));
      MulMonotone(Abs(c), TWO31, Abs(c));
    }
  }

  lemma CollectLong(s: int, tx: int, ty: int, nx: int, ny: int, vx: int, vy: int, ax: int, ay: int)
    requires s > 0 && Abs(vx - s * nx) <= s * (2 * ax + 1) && Abs(vy - s * ny) <= s * (2 * ay + 1)
    requires Abs(tx + ty - (nx + ny)) <= SLACK
    ensures Abs(s * tx + s * ty - (vx + vy)) <= s * (SLACK + 2 * ax + 2 * ay + 2)
  {
    var d := tx + ty - (nx + ny);
    assert Abs(s * d) == s * Abs(d);
    MulMonotone(s, Abs(d), SLACK);
    assert s * d == s * tx + s * ty - s * nx - s * ny;
    assert s * (SLACK + 2 * ax + 2 * ay + 2) == s * SLACK + s * (2 * ax + 1) + s * (2 * ay + 1);
  }

  // ---------------------------------------------------------------- the routines

  /** Rotate a vector. Before it is shifted back, the turned vector has the length of the
      normalised one, to four parts in a million, at any angle. */
  method VectorRotate(px: s32, py: s32, theta: s32) returns (x: int, y: int, ghost n: Vec, ghost t: Vec, ghost e: int)
    requires px > -0x8000_0000 && py > -0x8000_0000
    ensures theta == 0 || (px == 0 && py == 0) ==> x == px as int && y == py as int
    ensures theta != 0 && (px != 0 || py != 0) ==>
              && NormalisedTo(Vec(px as int, py as int), n, e)
              && IsTurned(n, theta as int, t) && Abs(t.Norm() - n.Norm()) <= SLACK
              && KeepsLength(Vec(px as int, py as int), n, t, Vec(x, y), e)
  {
    x, y := px as int, py as int;
    n, t, e := Vec(0, 0), Vec(0, 0), 0;
    if (px == 0 && py == 0) || theta == 0 {
      return;
    }
    var nx, ny, shiftexp := FxPreNorm(px, py);
    n, e := Vec(nx as int, ny as int), shiftexp;
    x, y := TurnAndScale(nx, ny, theta);
    t := Vec(x, y);
    LengthAfterShift(Vec(px as int, py as int), n, t, e);
    x, y := ShiftBack(x, shiftexp), ShiftBack(y, shiftexp);
  }

  /** t is the normalised vector n turned in the directions that the angle asks for, and
      rescaled. */
  ghost predicate IsTurned(n: Vec, theta: int, t: Vec) {
    var r := Reduce(theta);
    var w := Turned(HalfTurned(n, r.halfTurns), Directions(r.angle, STEPS));
    InS32(w.x) && InS32(w.y) && t == Vec(Rescale(w.x), Rescale(w.y))
  }

  method TurnAndScale(nx: s32, ny: s32, theta: s32) returns (x: int, y: int)
    requires Vec(nx as int, ny as int).Norm() <= START
    ensures var n := Vec(nx as int, ny as int);
            IsTurned(n, theta as int, Vec(x, y)) && 0 <= n.Norm() && Abs(Vec(x, y).Norm() - n.Norm()) <= SLACK
  {
    ghost var n := Vec(nx as int, ny as int);
    var wx, wy := PseudoRotate(nx, ny, theta);
    SquaresPositive(n);
    LengthKept(n.Norm(), Vec(wx as int, wy as int));
    x, y := Rescale(wx as int), Rescale(wy as int);
  }

  function ShiftBack(c: int, shiftexp: int): (r: int)
    ensures r == Denormalised(c, shiftexp)
  {
    if shiftexp < 0 then Shr(c, -shiftexp) else S32(Shl(c, shiftexp))
  }

  lemma SquaresPositive(v: Vec)
    ensures v.Norm() >= 0
  {
    ProductAtMost(v.x, v.x, Abs(v.x), Abs(v.x));
    assert v.x * v.x >= 0 && v.y * v.y >= 0;
  }

  lemma ZeroShifts(e: int)
    ensures Denormalised(0, e) == 0
  {}

  /** Polar coordinates of a vector. Before it is shifted back, the radius is the length of
      the normalised vector, to four parts in a million. */
  method Polarize(px: s32, py: s32) returns (radius: int, theta: int, ghost n: Vec, ghost t: int, ghost e: int)
    requires px > -0x8000_0000 && py > -0x8000_0000
    ensures px == 0 && py == 0 ==> radius == 0 && theta == 0
    ensures px != 0 || py != 0 ==>
              && NormalisedTo(Vec(px as int, py as int), n, e)
              && IsRadius(n, theta, t) && Abs(t * t - n.Norm()) <= SLACK
              && KeepsLength(Vec(px as int, py as int), n, Vec(t, 0), Vec(radius, 0), e)
  {
    radius, theta := px as int, py as int;
    n, t, e := Vec(0, 0), 0, 0;
    if px == 0 && py == 0 {
      return;
    }
    var nx, ny, shiftexp := FxPreNorm(px, py);
    n, e := Vec(nx as int, ny as int), shiftexp;
    radius, theta := PolarAndScale(nx, ny);
    t := radius;
    LengthAfterShift(Vec(px as int, py as int), n, Vec(t, 0), e);
    ZeroShifts(e);
    radius := ShiftBack(radius, shiftexp);
  }

  /** t and theta are the polar coordinates of n, the radius rescaled. */
  ghost predicate IsRadius(n: Vec, theta: int, t: int) {
    var w := Polar(RightHalf(n), STEPS);
    InS32(w.x) && IsPolar(n, w.x, theta) && t == Rescale(w.x)
  }

  method PolarAndScale(nx: s32, ny: s32) returns (radius: int, theta: int)
    requires Vec(nx as int, ny as int).Norm() <= START
    ensures var n := Vec(nx as int, ny as int);
            IsRadius(n, theta, radius) && 0 <= n.Norm() && Abs(radius * radius - n.Norm()) <= SLACK
  {
    ghost var n := Vec(nx as int, ny as int);
    var r, angle := PseudoPolarize(nx, ny);
    theta := angle as int;
    SquaresPositive(n);
    RadiusKept(n.Norm(), Polar(RightHalf(n), STEPS));
    radius := Rescale(r as int);
  }
}
