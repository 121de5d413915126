/** What the de Casteljau triangle means: both parts of a split trace the original
    curve. Proved for exact arithmetic, and carried over to the fixed-point
    interpolation and to bisection with an error bound. */
module BezierCurve {
  import opened MachineInt
  import opened RealFacts
  import opened FixedMultiply
  import opened Triangle

  // ---------------------------------------------------------------- splitting, for any interpolation

  /** Always true: the laws below are used only at points that mention it. */
  ghost predicate At<T>(a: T, b: T, c: T) { true }

  ghost predicate Commute<T(!new)>(f: (T, T) -> T, g: (T, T) -> T) {
    forall a, b, c {:trigger At(a, b, c)} :: At(a, b, c) ==> f(g(a, b), g(b, c)) == g(f(a, b), f(b, c))
  }

  /** Going the f way towards the g way point is going the h way, from the left end. */
  ghost predicate ComposeLeft<T(!new)>(f: (T, T) -> T, g: (T, T) -> T, h: (T, T) -> T) {
    forall a, b {:trigger At(a, a, b)} :: At(a, a, b) ==> f(a, g(a, b)) == h(a, b)
  }

  ghost predicate ComposeRight<T(!new)>(f: (T, T) -> T, g: (T, T) -> T, h: (T, T) -> T) {
    forall a, b {:trigger At(a, b, b)} :: At(a, b, b) ==> f(g(a, b), b) == h(a, b)
  }

  /** Interpolating by f before or after k rounds by g is the same. */
  lemma {:induction false} CellsCommute<T(!new)>(f: (T, T) -> T, g: (T, T) -> T, c: seq<T>, k: nat, i: nat)
    requires Commute(f, g) && k + i + 1 < |c|
    ensures f(Cell(g, c, k, i), Cell(g, c, k, i + 1)) == Cell(g, Level(f, c, 1), k, i)
  {
    if k == 0 {
      assert Cell(f, c, 1, i) == f(c[i], c[i + 1]);
    } else {
      CellsCommute(f, g, c, k - 1, i);
      CellsCommute(f, g, c, k - 1, i + 1);
      assert At(Cell(g, c, k - 1, i), Cell(g, c, k - 1, i + 1), Cell(g, c, k - 1, i + 2));
    }
  }

  /** One more round. */
  lemma NextLevel<T>(g: (T, T) -> T, c: seq<T>, m: nat)
    requires m + 1 < |c|
    ensures Level(g, c, m + 1) == Level(g, Level(g, c, m), 1)
  {
    var d := Level(g, c, m);
    forall i | 0 <= i < |d| - 1
      ensures Level(g, c, m + 1)[i] == Level(g, d, 1)[i]
    {
      assert Cell(g, d, 1, i) == g(Cell(g, d, 0, i), Cell(g, d, 0, i + 1));
    }
  }

  /** A cell of the round after m, mixed k times. */
  lemma MixedNext<T(!new)>(g: (T, T) -> T, h: (T, T) -> T, c: seq<T>, m: nat, k: nat, i: nat)
    requires Commute(g, h) && m + 1 + k + i < |c|
    ensures Cell(h, Level(g, c, m + 1), k, i) == g(Cell(h, Level(g, c, m), k, i), Cell(h, Level(g, c, m), k, i + 1))
  {
    NextLevel(g, c, m);
    CellsCommute(g, h, Level(g, c, m), k, i);
  }

  /** A cell over the left part is a mixed cell over the original polygon. */
  lemma {:induction false} LeftCell<T(!new)>(f: (T, T) -> T, g: (T, T) -> T, h: (T, T) -> T, c: seq<T>, k: nat, i: nat)
    requires Commute(g, h) && ComposeLeft(f, g, h) && k + i < |c|
    ensures Cell(f, Left(g, c), k, i) == Cell(h, Level(g, c, i), k, 0)
  {
    if k > 0 {
      LeftCell(f, g, h, c, k - 1, i);
      LeftCell(f, g, h, c, k - 1, i + 1);
      MixedNext(g, h, c, i, k - 1, 0);
      var d := Level(g, c, i);
      assert At(Cell(h, d, k - 1, 0), Cell(h, d, k - 1, 0), Cell(h, d, k - 1, 1));
    }
  }

  lemma {:induction false} RightCell<T(!new)>(f: (T, T) -> T, g: (T, T) -> T, h: (T, T) -> T, c: seq<T>, k: nat, i: nat, m: nat)
    requires Commute(g, h) && ComposeRight(f, g, h) && k + i + m + 1 == |c|
    ensures Cell(f, Right(g, c), k, i) == Cell(h, Level(g, c, m), k, i)
  {
    if k > 0 {
      RightCell(f, g, h, c, k - 1, i, m + 1);
      RightCell(f, g, h, c, k - 1, i + 1, m);
      MixedNext(g, h, c, m, k - 1, i);
      var d := Level(g, c, m);
      assert At(Cell(h, d, k - 1, i), Cell(h, d, k - 1, i + 1), Cell(h, d, k - 1, i + 1));
    }
  }

  // ---------------------------------------------------------------- exact arithmetic

  function Mix(t: real, a: real, b: real): real { a + t * (b - a) }

  function Exact(t: real): (real, real) -> real { (a, b) => Mix(t, a, b) }

  /** The point of the curve over c at parameter t. */
  function Point(c: seq<real>, t: real): real
    requires c != []
  {
    Cell(Exact(t), c, |c| - 1, 0)
  }

  lemma MixMix(s: real, t: real, a: real, b: real)
    ensures Mix(s, a, Mix(t, a, b)) == Mix(s * t, a, b)
    ensures Mix(s, Mix(t, a, b), b) == Mix(t + s * (1.0 - t), a, b)
  {}

  lemma MixesCommute(s: real, t: real, a: real, b: real, c: real)
    ensures Mix(s, Mix(t, a, b), Mix(t, b, c)) == Mix(t, Mix(s, a, b), Mix(s, b, c))
  {}

  lemma ExactLaws(s: real, t: real, u: real)
    ensures Commute(Exact(t), Exact(u))
    ensures ComposeLeft(Exact(s), Exact(t), Exact(s * t))
    ensures ComposeRight(Exact(s), Exact(t), Exact(t + s * (1.0 - t)))
  {
    forall a, b, c ensures Exact(t)(Exact(u)(a, b), Exact(u)(b, c)) == Exact(u)(Exact(t)(a, b), Exact(t)(b, c)) {
      MixesCommute(t, u, a, b, c);
    }
    forall a, b ensures Exact(s)(a, Exact(t)(a, b)) == Exact(s * t)(a, b) {
      MixMix(s, t, a, b);
    }
    forall a, b ensures Exact(s)(Exact(t)(a, b), b) == Exact(t + s * (1.0 - t))(a, b) {
      MixMix(s, t, a, b);
    }
  }

  /** The left part at s is the curve at s*t; the right part at s is the curve at
      t + s*(1-t): for every order, every t and every s. */
  lemma SplitPreservesCurve(c: seq<real>, t: real, s: real)
    requires c != []
    ensures Point(Left(Exact(t), c), s) == Point(c, s * t)
    ensures Point(Right(Exact(t), c), s) == Point(c, t + s * (1.0 - t))
  {
    var u, w := s * t, t + s * (1.0 - t);
    ExactLaws(s, t, u);
    ExactLaws(s, t, w);
    LeftCell(Exact(s), Exact(t), Exact(u), c, |c| - 1, 0);
    RightCell(Exact(s), Exact(t), Exact(w), c, |c| - 1, 0, 0);
    assert Level(Exact(t), c, 0) == c;
  }

  // ---------------------------------------------------------------- rounded interpolation

  predicate AllWithin(c: seq<int>, lo: int, hi: int) { forall i :: 0 <= i < |c| ==> lo <= c[i] <= hi }

  function Reals(c: seq<int>): (r: seq<real>)
    ensures |r| == |c| && forall i :: 0 <= i < |c| ==> r[i] == c[i] as real
  {
    seq(|c|, i requires 0 <= i < |c| => c[i] as real)
  }

  /** An interpolation of integers that stays between its arguments and rounds the
      exact one by at most a half, for arguments from lo to hi. */
  ghost predicate Rounds(lerp: (int, int) -> int, t: real, lo: int, hi: int) {
    && 0.0 <= t <= 1.0
    && forall a, b :: lo <= a <= hi && lo <= b <= hi ==>
         && (a <= lerp(a, b) <= b || b <= lerp(a, b) <= a)
         && RAbs(lerp(a, b) as real - Mix(t, a as real, b as real)) <= 0.5
  }

  lemma RoundsAt(lerp: (int, int) -> int, t: real, lo: int, hi: int, a: int, b: int)
    requires Rounds(lerp, t, lo, hi) && lo <= a <= hi && lo <= b <= hi
    ensures lo <= lerp(a, b) <= hi
    ensures RAbs(lerp(a, b) as real - Mix(t, a as real, b as real)) <= 0.5
  {}

  /** Every cell of the triangle stays between the bounds of the control points. */
  lemma {:induction false} TriangleInHull(lerp: (int, int) -> int, t: real, c: seq<int>, lo: int, hi: int, k: nat, i: nat)
    requires k + i < |c| && Rounds(lerp, t, lo, hi) && AllWithin(c, lo, hi)
    ensures lo <= Cell(lerp, c, k, i) <= hi
  {
    if k > 0 {
      TriangleInHull(lerp, t, c, lo, hi, k - 1, i);
      TriangleInHull(lerp, t, c, lo, hi, k - 1, i + 1);
      RoundsAt(lerp, t, lo, hi, Cell(lerp, c, k - 1, i), Cell(lerp, c, k - 1, i + 1));
    }
  }

  lemma PartsInHull(lerp: (int, int) -> int, t: real, c: seq<int>, lo: int, hi: int)
    requires Rounds(lerp, t, lo, hi) && AllWithin(c, lo, hi)
    ensures AllWithin(Left(lerp, c), lo, hi) && AllWithin(Right(lerp, c), lo, hi)
  {
    forall j | 0 <= j < |c|
      ensures lo <= Left(lerp, c)[j] <= hi && lo <= Right(lerp, c)[j] <= hi
    {
      TriangleInHull(lerp, t, c, lo, hi, j, 0);
      TriangleInHull(lerp, t, c, lo, hi, |c| - 1 - j, j);
    }
  }

  /** Two polygons that differ by at most e in each point. */
  ghost predicate Near(c: seq<real>, d: seq<real>, e: real) {
    |c| == |d| && forall i :: 0 <= i < |c| ==> RAbs(c[i] - d[i]) <= e
  }

  /** Interpolating does not amplify a difference. */
  lemma MixNear(t: real, a: real, b: real, a': real, b': real, e: real)
    requires 0.0 <= t <= 1.0 && RAbs(a - a') <= e && RAbs(b - b') <= e
    ensures RAbs(Mix(t, a, b) - Mix(t, a', b')) <= e
  {
    MixBound(t, 1.0 - t, a, b, a', b', a - a', b - b', e);
  }

  lemma MixBound(t: real, w: real, a: real, b: real, a': real, b': real, x: real, y: real, e: real)
    requires 0.0 <= t && 0.0 <= w && t + w == 1.0 && x == a - a' && y == b - b' && RAbs(x) <= e && RAbs(y) <= e
    ensures RAbs(Mix(t, a, b) - Mix(t, a', b')) <= e
  {
    MixDifference(t, w, a, b, a', b', x, y);
    WeightedBound(Mix(t, a, b) - Mix(t, a', b'), t, w, x, y, e);
  }

  lemma WeightedBound(m: real, t: real, w: real, x: real, y: real, e: real)
    requires 0.0 <= t && 0.0 <= w && t + w == 1.0 && m == w * x + t * y && RAbs(x) <= e && RAbs(y) <= e
    ensures RAbs(m) <= e
  {
    var q, qe := RealTimes(t, y, e);
    var p, pe := RealTimes(w, x, e);
    Shares(t, w, e);
    Combine(m, p, q, pe, qe, e);
  }

  lemma Combine(m: real, p: real, q: real, pe: real, qe: real, e: real)
    requires m == p + q && -pe <= p <= pe && -qe <= q <= qe && pe + qe == e
    ensures RAbs(m) <= e
  {}

  lemma MixDifference(t: real, w: real, a: real, b: real, a': real, b': real, x: real, y: real)
    requires t + w == 1.0 && x == a - a' && y == b - b'
    ensures Mix(t, a, b) - Mix(t, a', b') == w * x + t * y
  {
    assert w * x == x - t * x;
  }

  lemma Shares(t: real, w: real, e: real)
    requires t + w == 1.0
    ensures w * e + t * e == e
  {}

  lemma RealTimes(t: real, x: real, e: real) returns (p: real, pe: real)
    requires 0.0 <= t && -e <= x <= e
    ensures p == t * x && pe == t * e && -pe <= p <= pe
  {
    p, pe := t * x, t * e;
    RealMonotone(t, x, e);
    RealMonotone(t, -e, x);
  }

  lemma {:induction false} CellsNear(t: real, c: seq<real>, d: seq<real>, e: real, k: nat, i: nat)
    requires 0.0 <= t <= 1.0 && k + i < |c| && Near(c, d, e)
    ensures RAbs(Cell(Exact(t), c, k, i) - Cell(Exact(t), d, k, i)) <= e
  {
    if k > 0 {
      CellsNear(t, c, d, e, k - 1, i);
      CellsNear(t, c, d, e, k - 1, i + 1);
      ExactNear(t, Cell(Exact(t), c, k - 1, i), Cell(Exact(t), c, k - 1, i + 1),
                Cell(Exact(t), d, k - 1, i), Cell(Exact(t), d, k - 1, i + 1), e);
    }
  }

  lemma ExactNear(t: real, a: real, b: real, a': real, b': real, e: real)
    requires 0.0 <= t <= 1.0 && RAbs(a - a') <= e && RAbs(b - b') <= e
    ensures RAbs(Exact(t)(a, b) - Exact(t)(a', b')) <= e
  {
    MixNear(t, a, b, a', b', e);
  }

  /** Each round adds at most a half to the distance from the exact triangle. */
  lemma {:induction false} TriangleTracks(lerp: (int, int) -> int, t: real, c: seq<int>, lo: int, hi: int, k: nat, i: nat)
    requires k + i < |c| && Rounds(lerp, t, lo, hi) && AllWithin(c, lo, hi)
    ensures RAbs(Cell(lerp, c, k, i) as real - Cell(Exact(t), Reals(c), k, i)) <= k as real / 2.0
  {
    if k > 0 {
      TriangleTracks(lerp, t, c, lo, hi, k - 1, i);
      TriangleTracks(lerp, t, c, lo, hi, k - 1, i + 1);
      TriangleInHull(lerp, t, c, lo, hi, k - 1, i);
      TriangleInHull(lerp, t, c, lo, hi, k - 1, i + 1);
      var a, b := Cell(lerp, c, k - 1, i), Cell(lerp, c, k - 1, i + 1);
      RoundsAt(lerp, t, lo, hi, a, b);
      RoundedCell(lerp, t, a, b, Cell(Exact(t), Reals(c), k - 1, i), Cell(Exact(t), Reals(c), k - 1, i + 1), (k - 1) as real / 2.0);
    }
  }

  lemma RoundedCell(lerp: (int, int) -> int, t: real, a: int, b: int, x: real, y: real, e: real)
    requires 0.0 <= t <= 1.0 && RAbs(lerp(a, b) as real - Mix(t, a as real, b as real)) <= 0.5
    requires RAbs(a as real - x) <= e && RAbs(b as real - y) <= e
    ensures RAbs(lerp(a, b) as real - Exact(t)(x, y)) <= e + 0.5
  {
    MixNear(t, a as real, b as real, x, y, e);
  }

  /** The stored control points are near those of the exact parts. */
  lemma PartsNear(lerp: (int, int) -> int, t: real, c: seq<int>, lo: int, hi: int)
    requires Rounds(lerp, t, lo, hi) && AllWithin(c, lo, hi)
    ensures Near(Reals(Left(lerp, c)), Left(Exact(t), Reals(c)), (|c| - 1) as real / 2.0)
    ensures Near(Reals(Right(lerp, c)), Right(Exact(t), Reals(c)), (|c| - 1) as real / 2.0)
  {
    var e := (|c| - 1) as real / 2.0;
    forall j | 0 <= j < |c|
      ensures RAbs(Reals(Left(lerp, c))[j] - Left(Exact(t), Reals(c))[j]) <= e
      ensures RAbs(Reals(Right(lerp, c))[j] - Right(Exact(t), Reals(c))[j]) <= e
    {
      TriangleTracks(lerp, t, c, lo, hi, j, 0);
      TriangleTracks(lerp, t, c, lo, hi, |c| - 1 - j, j);
    }
  }

  /** The parts that rounded interpolation stores trace the original curve to within
      half a unit per degree, everywhere on it. */
  lemma RoundedSplitTracksCurve(lerp: (int, int) -> int, t: real, c: seq<int>, lo: int, hi: int, s: real)
    requires c != [] && Rounds(lerp, t, lo, hi) && AllWithin(c, lo, hi) && 0.0 <= s <= 1.0
    ensures RAbs(Point(Reals(Left(lerp, c)), s) - Point(Reals(c), s * t)) <= (|c| - 1) as real / 2.0
    ensures RAbs(Point(Reals(Right(lerp, c)), s) - Point(Reals(c), t + s * (1.0 - t))) <= (|c| - 1) as real / 2.0
  {
    var e := (|c| - 1) as real / 2.0;
    PartsNear(lerp, t, c, lo, hi);
    CellsNear(s, Reals(Left(lerp, c)), Left(Exact(t), Reals(c)), e, |c| - 1, 0);
    CellsNear(s, Reals(Right(lerp, c)), Right(Exact(t), Reals(c)), e, |c| - 1, 0);
    SplitPreservesCurve(Reals(c), t, s);
  }

  // ---------------------------------------------------------------- the two interpolations of the library

  /** b[-1] + FskFixedNMul(t, b[0] - b[-1], 30), in 32-bit arithmetic. */
  function FixedMix(t: int, a: int, b: int): int
    requires InS32(t)
  {
    S32(a + FixedNMul(t, S32(b - a), 30))
  }

  function FixedLerp(t: int): (int, int) -> int
    requires InS32(t)
  {
    (a, b) => FixedMix(t, a, b)
  }

  /** The average that cannot overflow: both halves, and the bit that both lost. */
  function Average(a: int, b: int): int { Shr(a, 1) + Shr(b, 1) + (a % 2) * (b % 2) }

  function Bisecting(): (int, int) -> int { (a, b) => Average(a, b) }

  lemma AverageIsFloor(a: int, b: int)
    ensures Average(a, b) == (a + b) / 2
    ensures InS32(a) && InS32(b) ==> InS32(Average(a, b)) && InS32(Shr(a, 1) + Shr(b, 1))
  {
    assert Pow2(1) == 2;
  }

  /** Bisection rounds properly on all 32-bit values. */
  lemma BisectingRounds(lo: int, hi: int)
    requires InS32(lo) && InS32(hi)
    ensures Rounds(Bisecting(), 0.5, lo, hi)
  {
    forall a, b | lo <= a <= hi && lo <= b <= hi
      ensures a <= Bisecting()(a, b) <= b || b <= Bisecting()(a, b) <= a
      ensures RAbs(Bisecting()(a, b) as real - Mix(0.5, a as real, b as real)) <= 0.5
    {
      AverageIsFloor(a, b);
      HalfSum(a, b);
    }
  }

  lemma HalfSum(a: int, b: int)
    ensures Mix(0.5, a as real, b as real) == (a + b) as real / 2.0
    ensures 0.0 <= (a + b) as real / 2.0 - ((a + b) / 2) as real <= 0.5
  {
    assert (a + b) as real == 2.0 * ((a + b) / 2) as real + ((a + b) % 2) as real;
  }

  /** A 2.30 parameter as a real number. */
  function Parameter(t: int): real { t as real / 1073741824.0 }

  /** Fixed-point interpolation rounds properly for every parameter from 0 to 1, on
      control points whose differences fit 32 bits. */
  lemma FixedLerpRounds(t: int, lo: int, hi: int)
    requires 0 <= t <= 0x4000_0000 && InS32(lo) && InS32(hi) && hi - lo < TWO31
    ensures Rounds(FixedLerp(t), Parameter(t), lo, hi)
  {
    forall a, b | lo <= a <= hi && lo <= b <= hi
      ensures a <= FixedLerp(t)(a, b) <= b || b <= FixedLerp(t)(a, b) <= a
      ensures RAbs(FixedLerp(t)(a, b) as real - Mix(Parameter(t), a as real, b as real)) <= 0.5
    {
      FixedMixRounds(t, a, b);
      assert FixedLerp(t)(a, b) == FixedMix(t, a, b);
    }
    assert 0.0 <= Parameter(t) <= 1.0;
  }

  lemma FixedMixRounds(t: int, a: int, b: int)
    requires 0 <= t <= 0x4000_0000 && InS32(a) && InS32(b) && -TWO31 < b - a < TWO31
    ensures a <= FixedMix(t, a, b) <= b || b <= FixedMix(t, a, b) <= a
    ensures RAbs(FixedMix(t, a, b) as real - Mix(Parameter(t), a as real, b as real)) <= 0.5
  {
    var p := RoundHalfUp(t * (b - a), 0x4000_0000);
    RoundedProduct(t, b - a);
    Product30(t, b - a);
    SumFits(a, b - a, p);
    ExactProduct(t, a, b, p);
  }

  lemma SumFits(a: int, d: int, p: int)
    requires InS32(a) && InS32(a + d) && -TWO31 < d < TWO31 && (0 <= p <= d || d <= p <= 0)
    ensures S32(d) == d && S32(a + p) == a + p
  {}

  lemma RoundedProduct(t: int, d: int)
    requires 0 <= t <= 0x4000_0000
    ensures var p := RoundHalfUp(t * d, 0x4000_0000);
            && (0 <= p <= d || d <= p <= 0)
            && 2 * Abs(0x4000_0000 * p - t * d) <= 0x4000_0000
  {
    if d >= 0 {
      MulMonotone(d, 0, t);
      MulMonotone(d, t, 0x4000_0000);
    } else {
      MulMonotone(-d, 0, t);
      MulMonotone(-d, t, 0x4000_0000);
      assert t * d == -(-d * t);
    }
  }

  lemma Product30(t: int, d: int)
    requires InS32(t) && InS32(d) && InS32(RoundHalfUp(t * d, 0x4000_0000))
    ensures FixedNMul(t, d, 30) == RoundHalfUp(t * d, 0x4000_0000)
  {
    assert Pow2(30) == 0x4000_0000 by { Pow2Values(); }
  }

  lemma ExactProduct(t: int, a: int, b: int, p: int)
    requires 2 * Abs(0x4000_0000 * p - t * (b - a)) <= 0x4000_0000
    ensures RAbs((a + p) as real - Mix(Parameter(t), a as real, b as real)) <= 0.5
  {
    var x := t * (b - a);
    assert (t as real / 1073741824.0) * (b as real - a as real) == x as real / 1073741824.0;
  }

  // ---------------------------------------------------------------- the routines

  /** Both parts of every coordinate trace the curve over the old control points. */
  ghost predicate TracksCurve(l: seq<int>, r: seq<int>, c: seq<int>, t: real, dim: nat, dimension: nat) {
    && c != [] && dim < dimension && Room(l, |c|, dimension) && Room(r, |c|, dimension)
    && forall s | 0.0 <= s <= 1.0 ::
         && RAbs(Point(Reals(Coordinate(l, dim, |c|, dimension)), s) - Point(Reals(c), s * t)) <= (|c| - 1) as real / 2.0
         && RAbs(Point(Reals(Coordinate(r, dim, |c|, dimension)), s) - Point(Reals(c), t + s * (1.0 - t))) <= (|c| - 1) as real / 2.0
  }

  /** Both parts of a coordinate stay between the bounds. */
  ghost predicate InHull(l: seq<int>, r: seq<int>, order: nat, dim: nat, dimension: nat, lo: int, hi: int) {
    && dim < dimension && Room(l, order, dimension) && Room(r, order, dimension)
    && AllWithin(Coordinate(l, dim, order, dimension), lo, hi) && AllWithin(Coordinate(r, dim, order, dimension), lo, hi)
  }

  lemma SplitTracks(l: seq<int>, r: seq<int>, lerp: (int, int) -> int, t: real, c: seq<int>, lo: int, hi: int, dim: nat, dimension: nat)
    requires c != [] && SplitHolds(l, r, lerp, c, dim, dimension) && Rounds(lerp, t, lo, hi) && AllWithin(c, lo, hi)
    ensures TracksCurve(l, r, c, t, dim, dimension)
    ensures InHull(l, r, |c|, dim, dimension, lo, hi)
  {
    PartsInHull(lerp, t, c, lo, hi);
    forall s | 0.0 <= s <= 1.0
      ensures RAbs(Point(Reals(Left(lerp, c)), s) - Point(Reals(c), s * t)) <= (|c| - 1) as real / 2.0
      ensures RAbs(Point(Reals(Right(lerp, c)), s) - Point(Reals(c), t + s * (1.0 - t))) <= (|c| - 1) as real / 2.0
    {
      RoundedSplitTracksCurve(lerp, t, c, lo, hi, s);
    }
  }

  lemma CoordinateWithin(s: seq<int>, dim: nat, order: nat, dimension: nat, lo: int, hi: int)
    requires dim < dimension && Room(s, order, dimension) && AllWithin(s, lo, hi)
    ensures AllWithin(Coordinate(s, dim, order, dimension), lo, hi)
  {
    CellsOfRoom(s, dim, order, dimension);
  }

  /** A parameter from 0 to 1, and control points whose differences fit 32 bits. */
  predicate Interpolates(t: int, c: seq<int>, lo: int, hi: int) {
    0 <= t <= 0x4000_0000 && InS32(lo) && InS32(hi) && hi - lo < TWO31 && AllWithin(c, lo, hi)
  }

  /** Split a Bezier curve at the 2.30 parameter t. */
  method FixedSplitBezier(control: array<int>, order: nat, dimension: nat, t: int, L: array<int>, R: array<int>, ghost lo: int, ghost hi: int)
    requires order > 0 && L != R && InS32(t)
    requires Room(control[..], order, dimension) && Room(L[..], order, dimension) && Room(R[..], order, dimension)
    modifies L, R
    ensures forall dim | 0 <= dim < dimension ::
              var c := Coordinate(old(control[..]), dim, order, dimension);
              && SplitHolds(L[..], R[..], FixedLerp(t), c, dim, dimension)
              && (Interpolates(t, old(control[..]), lo, hi) ==>
                    && TracksCurve(L[..], R[..], c, Parameter(t), dim, dimension)
                    && InHull(L[..], R[..], order, dim, dimension, lo, hi))
  {
    ghost var start := control[..];
    Split(FixedLerp(t), control, order, dimension, L, R);
    if Interpolates(t, start, lo, hi) {
      FixedLerpRounds(t, lo, hi);
      AllTrack(start, L[..], R[..], FixedLerp(t), Parameter(t), order, dimension, lo, hi);
    }
  }

  lemma AllTrack(start: seq<int>, l: seq<int>, r: seq<int>, lerp: (int, int) -> int, t: real, order: nat, dimension: nat, lo: int, hi: int)
    requires order > 0 && Room(start, order, dimension) && Rounds(lerp, t, lo, hi) && AllWithin(start, lo, hi)
    requires forall dim | 0 <= dim < dimension :: SplitHolds(l, r, lerp, Coordinate(start, dim, order, dimension), dim, dimension)
    ensures forall dim | 0 <= dim < dimension ::
              && TracksCurve(l, r, Coordinate(start, dim, order, dimension), t, dim, dimension)
              && InHull(l, r, order, dim, dimension, lo, hi)
  {
    forall dim | 0 <= dim < dimension
      ensures TracksCurve(l, r, Coordinate(start, dim, order, dimension), t, dim, dimension)
      ensures InHull(l, r, order, dim, dimension, lo, hi)
    {
      CoordinateWithin(start, dim, order, dimension, lo, hi);
      SplitTracks(l, r, lerp, t, Coordinate(start, dim, order, dimension), lo, hi, dim, dimension);
    }
  }

  /** Split a Bezier curve in the middle, for any 32-bit control points: nothing overflows,
      and both parts stay inside whatever bounds hold the original control points. */
  method FixedBisectBezier(control: array<int>, order: nat, dimension: nat, L: array<int>, R: array<int>, ghost lo: int, ghost hi: int)
    requires order > 0 && L != R && InS32(lo) && InS32(hi) && AllWithin(control[..], lo, hi)
    requires Room(control[..], order, dimension) && Room(L[..], order, dimension) && Room(R[..], order, dimension)
    modifies L, R
    ensures forall dim | 0 <= dim < dimension ::
              var c := Coordinate(old(control[..]), dim, order, dimension);
              && SplitHolds(L[..], R[..], Bisecting(), c, dim, dimension)
              && TracksCurve(L[..], R[..], c, 0.5, dim, dimension)
              && InHull(L[..], R[..], order, dim, dimension, lo, hi)
  {
    ghost var start := control[..];
    Split(Bisecting(), control, order, dimension, L, R);
    BisectingRounds(lo, hi);
    AllTrack(start, L[..], R[..], Bisecting(), 0.5, order, dimension, lo, hi);
  }
}
