/** Affine maps with 16.16 matrices: products accumulated in 64 bits, rounded once. */
module Affine {
  import opened MachineInt
  import opened FixedMultiply

  /** An affine map in rows: the first two transform, the last translates. */
  datatype Matrix = Matrix(m00: int, m01: int, m10: int, m11: int, m20: int, m21: int)

  datatype Pt = Pt(x: int, y: int)

  /** The accumulator stays in 64 bits after each addition. */
  predicate Accumulates(first: int, p0: int, p1: int) {
    InS64(first) && InS64(first + p0) && InS64(first + p0 + p1)
  }

  function NLinear2D(a0: int, b0: int, a1: int, b1: int, n: nat): (r: int)
    requires 0 < n < 64 && Accumulates(Pow2(n - 1), a0 * b0, a1 * b1)
    ensures r == ClampS32(RoundHalfUp(a0 * b0 + a1 * b1, Pow2(n)))
  {
    var acc := Pow2(n - 1) + a0 * b0 + a1 * b1;
    RoundingShift(a0 * b0 + a1 * b1, n);
    ShiftInS64(acc, n);
    ShiftSaturateClamps(Shr(acc, n));
    ShiftSaturate(Shr(acc, n))
  }

  function NAffine2D(a0: int, b0: int, a1: int, b1: int, a2: int, n: nat): (r: int)
    requires 0 < n < 64 && Accumulates(Pow2(n - 1) + Shl(a2, n), a0 * b0, a1 * b1)
    ensures r == ClampS32(RoundHalfUp(a0 * b0 + a1 * b1 + Shl(a2, n), Pow2(n)))
  {
    var acc := Pow2(n - 1) + Shl(a2, n) + a0 * b0 + a1 * b1;
    RoundingShift(a0 * b0 + a1 * b1 + Shl(a2, n), n);
    ShiftInS64(acc, n);
    ShiftSaturateClamps(Shr(acc, n));
    ShiftSaturate(Shr(acc, n))
  }

  lemma ShiftInS64(x: int, n: nat)
    requires InS64(x)
    ensures InS64(Shr(x, n))
  {
    ShrinksTowardsZero(x, Pow2(n));
  }

  // ---------------------------------------------------------------- points and matrices

  const ONE: int := 65536   // 1.0 in 16.16 format

  /** One coordinate of a transformed point, before rounding. */
  function Row(a0: int, x: int, a1: int, y: int, a2: int): int { a0 * x + a1 * y + ONE * a2 }

  /** The accumulation for one coordinate does not leave 64 bits. */
  predicate RowFits(a0: int, x: int, a1: int, y: int, a2: int) {
    Accumulates(Pow2(15) + Shl(a2, 16), a0 * x, a1 * y)
  }

  function RowOf(a0: int, x: int, a1: int, y: int, a2: int): (r: int)
    requires RowFits(a0, x, a1, y, a2)
    ensures r == ClampS32(RoundHalfUp(Row(a0, x, a1, y, a2), ONE))
  {
    assert Pow2(16) == ONE by { Pow2Values(); }
    NAffine2D(a0, x, a1, y, a2, 16)
  }

  predicate PointFits(M: Matrix, p: Pt) {
    RowFits(M.m00, p.x, M.m10, p.y, M.m20) && RowFits(M.m01, p.x, M.m11, p.y, M.m21)
  }

  function Transform(M: Matrix, p: Pt): (q: Pt)
    requires PointFits(M, p)
    ensures q.x == ClampS32(RoundHalfUp(Row(M.m00, p.x, M.m10, p.y, M.m20), ONE))
    ensures q.y == ClampS32(RoundHalfUp(Row(M.m01, p.x, M.m11, p.y, M.m21), ONE))
  {
    Pt(RowOf(M.m00, p.x, M.m10, p.y, M.m20), RowOf(M.m01, p.x, M.m11, p.y, M.m21))
  }

  predicate LinearFits(a0: int, b0: int, a1: int, b1: int) { Accumulates(Pow2(15), a0 * b0, a1 * b1) }

  function LinearOf(a0: int, b0: int, a1: int, b1: int): (r: int)
    requires LinearFits(a0, b0, a1, b1)
    ensures r == ClampS32(RoundHalfUp(Row(a0, b0, a1, b1, 0), ONE))
  {
    assert Pow2(16) == ONE by { Pow2Values(); }
    NLinear2D(a0, b0, a1, b1, 16)
  }

  predicate ProductFits(L: Matrix, R: Matrix) {
    && LinearFits(L.m00, R.m00, L.m01, R.m10) && LinearFits(L.m00, R.m01, L.m01, R.m11)
    && LinearFits(L.m10, R.m00, L.m11, R.m10) && LinearFits(L.m10, R.m01, L.m11, R.m11)
    && RowFits(L.m20, R.m00, L.m21, R.m10, R.m20) && RowFits(L.m20, R.m01, L.m21, R.m11, R.m21)
  }

  /** L followed by R. */
  function Product(L: Matrix, R: Matrix): (P: Matrix)
    requires ProductFits(L, R)
    ensures P.m00 == ClampS32(RoundHalfUp(Row(L.m00, R.m00, L.m01, R.m10, 0), ONE))
    ensures P.m01 == ClampS32(RoundHalfUp(Row(L.m00, R.m01, L.m01, R.m11, 0), ONE))
    ensures P.m10 == ClampS32(RoundHalfUp(Row(L.m10, R.m00, L.m11, R.m10, 0), ONE))
    ensures P.m11 == ClampS32(RoundHalfUp(Row(L.m10, R.m01, L.m11, R.m11, 0), ONE))
    ensures P.m20 == ClampS32(RoundHalfUp(Row(L.m20, R.m00, L.m21, R.m10, R.m20), ONE))
    ensures P.m21 == ClampS32(RoundHalfUp(Row(L.m20, R.m01, L.m21, R.m11, R.m21), ONE))
  {
    Matrix(LinearOf(L.m00, R.m00, L.m01, R.m10), LinearOf(L.m00, R.m01, L.m01, R.m11),
           LinearOf(L.m10, R.m00, L.m11, R.m10), LinearOf(L.m10, R.m01, L.m11, R.m11),
           RowOf(L.m20, R.m00, L.m21, R.m10, R.m20), RowOf(L.m20, R.m01, L.m21, R.m11, R.m21))
  }

  // ---------------------------------------------------------------- composition

  predicate HalfUnit(e: int) { -ONE <= 2 * e <= ONE }

  /** v is an accumulated sum, rounded and not saturated: v*ONE is within half a unit. */
  predicate RoundedTo(v: int, sum: int) { HalfUnit(Error(v, sum)) }

  function Error(v: int, sum: int): int { ONE * v - sum }

  /** The two ways through one coordinate differ by the errors, each weighted by what
      it is multiplied with. */
  lemma ErrorsThrough(l00: int, l01: int, l10: int, l11: int, l20: int, l21: int, r0: int, r1: int, r2: int,
                      x: int, y: int, px: int, py: int, q: int, p0: int, p1: int, p2: int, r: int)
    ensures Weighs(q - r, r0, r1, x, y, Error(px, Row(l00, x, l10, y, l20)), Error(py, Row(l01, x, l11, y, l21)),
                   Error(q, Row(r0, px, r1, py, r2)),
                   Error(p0, Row(l00, r0, l01, r1, 0)), Error(p1, Row(l10, r0, l11, r1, 0)),
                   Error(p2, Row(l20, r0, l21, r1, r2)), Error(r, Row(p0, x, p1, y, p2)))
  {
    ThroughRow(r0, px, l00, x, l10, y, l20);
    ThroughRow(r1, py, l01, x, l11, y, l21);
    ThroughRow(x, p0, l00, r0, l01, r1, 0);
    ThroughRow(y, p1, l10, r0, l11, r1, 0);
    Swap(r0, l00, x); Swap(r0, l10, y); Swap(r1, l01, x); Swap(r1, l11, y);
  }

  lemma ThroughRow(w: int, v: int, a0: int, x: int, a1: int, y: int, a2: int)
    ensures w * (ONE * v - Row(a0, x, a1, y, a2)) == ONE * (w * v) - w * (a0 * x) - w * (a1 * y) - ONE * (w * a2)
  {}

  lemma Swap(a: int, b: int, c: int)
    ensures a * (b * c) == c * (b * a)
  {}

  lemma Weighted(w: int, e: int)
    requires HalfUnit(e)
    ensures -(ONE * Abs(w)) <= 2 * (w * e) <= ONE * Abs(w)
  {
    assert Abs(w * e) == Abs(w) * Abs(e);
    MulMonotone(Abs(w), 2 * Abs(e), ONE);
  }

  /** Two values of a coordinate differ by 3/2 and a little more. */
  predicate Close(q: int, r: int, x: int, y: int, r0: int, r1: int) {
    2 * ONE * Abs(q - r) <= 3 * ONE + Abs(x) + Abs(y) + Abs(r0) + Abs(r1)
  }

  lemma CoordinateComposition(l00: int, l01: int, l10: int, l11: int, l20: int, l21: int, r0: int, r1: int, r2: int,
                              x: int, y: int, px: int, py: int, q: int, p0: int, p1: int, p2: int, r: int)
    requires RoundedTo(px, Row(l00, x, l10, y, l20)) && RoundedTo(py, Row(l01, x, l11, y, l21))
    requires RoundedTo(q, Row(r0, px, r1, py, r2))
    requires RoundedTo(p0, Row(l00, r0, l01, r1, 0)) && RoundedTo(p1, Row(l10, r0, l11, r1, 0))
    requires RoundedTo(p2, Row(l20, r0, l21, r1, r2)) && RoundedTo(r, Row(p0, x, p1, y, p2))
    ensures Close(q, r, x, y, r0, r1)
  {
    ErrorsThrough(l00, l01, l10, l11, l20, l21, r0, r1, r2, x, y, px, py, q, p0, p1, p2, r);
    WeighErrors(q - r, r0, r1, x, y, Error(px, Row(l00, x, l10, y, l20)), Error(py, Row(l01, x, l11, y, l21)),
                Error(q, Row(r0, px, r1, py, r2)),
                Error(p0, Row(l00, r0, l01, r1, 0)), Error(p1, Row(l10, r0, l11, r1, 0)),
                Error(p2, Row(l20, r0, l21, r1, r2)), Error(r, Row(p0, x, p1, y, p2)));
  }

  /** The errors of the two ways, each weighted by what it is multiplied with, make up d. */
  predicate Weighs(d: int, r0: int, r1: int, x: int, y: int, e1: int, e2: int, c: int, f0: int, f1: int, g: int, h: int) {
    ONE * (ONE * d) == r0 * e1 + r1 * e2 + ONE * c - x * f0 - y * f1 - ONE * g - ONE * h
  }

  lemma WeighErrors(d: int, r0: int, r1: int, x: int, y: int, e1: int, e2: int, c: int, f0: int, f1: int, g: int, h: int)
    requires HalfUnit(e1) && HalfUnit(e2) && HalfUnit(c) && HalfUnit(f0) && HalfUnit(f1) && HalfUnit(g) && HalfUnit(h)
    requires Weighs(d, r0, r1, x, y, e1, e2, c, f0, f1, g, h)
    ensures 2 * ONE * Abs(d) <= 3 * ONE + Abs(x) + Abs(y) + Abs(r0) + Abs(r1)
  {
    Weighted(r0, e1);
    Weighted(r1, e2);
    Weighted(x, f0);
    Weighted(y, f1);
    AddUp(d, r0 * e1, r1 * e2, c, x * f0, y * f1, g, h, Abs(x), Abs(y), Abs(r0), Abs(r1));
  }

  lemma AddUp(d: int, a: int, b: int, c: int, e: int, f: int, g: int, h: int, x: int, y: int, r0: int, r1: int)
    requires ONE * (ONE * d) == a + b + ONE * c - e - f - ONE * g - ONE * h
    requires -(ONE * r0) <= 2 * a <= ONE * r0 && -(ONE * r1) <= 2 * b <= ONE * r1
    requires -(ONE * x) <= 2 * e <= ONE * x && -(ONE * y) <= 2 * f <= ONE * y
    requires HalfUnit(c) && HalfUnit(g) && HalfUnit(h)
    ensures 2 * ONE * Abs(d) <= 3 * ONE + x + y + r0 + r1
  {}

  /** The rounded sum fits 32 bits, so that it is not saturated. */
  predicate RowInside(a0: int, x: int, a1: int, y: int, a2: int) { InS32(RoundHalfUp(Row(a0, x, a1, y, a2), ONE)) }

  predicate PointInside(M: Matrix, p: Pt) {
    RowInside(M.m00, p.x, M.m10, p.y, M.m20) && RowInside(M.m01, p.x, M.m11, p.y, M.m21)
  }

  predicate ProductInside(L: Matrix, R: Matrix) {
    && RowInside(L.m00, R.m00, L.m01, R.m10, 0) && RowInside(L.m00, R.m01, L.m01, R.m11, 0)
    && RowInside(L.m10, R.m00, L.m11, R.m10, 0) && RowInside(L.m10, R.m01, L.m11, R.m11, 0)
    && RowInside(L.m20, R.m00, L.m21, R.m10, R.m20) && RowInside(L.m20, R.m01, L.m21, R.m11, R.m21)
  }

  /** Nothing overflows the accumulators or saturates, on either way. */
  predicate NoSaturation(L: Matrix, R: Matrix, p: Pt) {
    && PointFits(L, p) && PointInside(L, p)
    && PointFits(R, Transform(L, p)) && PointInside(R, Transform(L, p))
    && ProductFits(L, R) && ProductInside(L, R)
    && PointFits(Product(L, R), p) && PointInside(Product(L, R), p)
  }

  lemma PointRounded(M: Matrix, p: Pt)
    requires PointFits(M, p) && PointInside(M, p)
    ensures RoundedTo(Transform(M, p).x, Row(M.m00, p.x, M.m10, p.y, M.m20))
    ensures RoundedTo(Transform(M, p).y, Row(M.m01, p.x, M.m11, p.y, M.m21))
  {}

  lemma ProductRounded(L: Matrix, R: Matrix)
    requires ProductFits(L, R) && ProductInside(L, R)
    ensures var P := Product(L, R);
            && RoundedTo(P.m00, Row(L.m00, R.m00, L.m01, R.m10, 0)) && RoundedTo(P.m01, Row(L.m00, R.m01, L.m01, R.m11, 0))
            && RoundedTo(P.m10, Row(L.m10, R.m00, L.m11, R.m10, 0)) && RoundedTo(P.m11, Row(L.m10, R.m01, L.m11, R.m11, 0))
            && RoundedTo(P.m20, Row(L.m20, R.m00, L.m21, R.m10, R.m20)) && RoundedTo(P.m21, Row(L.m20, R.m01, L.m21, R.m11, R.m21))
  {}

  /** Transforming by L and then by R agrees with transforming by their product, to
      3/2 + (|x| + |y| + |R0j| + |R1j|) / 2^17 units in each coordinate. */
  lemma CompositionBound(L: Matrix, R: Matrix, p: Pt)
    requires NoSaturation(L, R, p)
    ensures var q, r := Transform(R, Transform(L, p)), Transform(Product(L, R), p);
            && Close(q.x, r.x, p.x, p.y, R.m00, R.m10) && Close(q.y, r.y, p.x, p.y, R.m01, R.m11)
  {
    var u, P := Transform(L, p), Product(L, R);
    var q, r := Transform(R, u), Transform(P, p);
    PointRounded(L, p);
    PointRounded(R, u);
    PointRounded(P, p);
    ProductRounded(L, R);
    CoordinateComposition(L.m00, L.m01, L.m10, L.m11, L.m20, L.m21, R.m00, R.m10, R.m20, p.x, p.y,
                          u.x, u.y, q.x, P.m00, P.m10, P.m20, r.x);
    CoordinateComposition(L.m00, L.m01, L.m10, L.m11, L.m20, L.m21, R.m01, R.m11, R.m21, p.x, p.y,
                          u.x, u.y, q.y, P.m01, P.m11, P.m21, r.y);
  }

  // ---------------------------------------------------------------- in place

  predicate AllFit(M: Matrix, ps: seq<Pt>) { forall i :: 0 <= i < |ps| ==> PointFits(M, ps[i]) }

  function Transforms(M: Matrix, ps: seq<Pt>): (qs: seq<Pt>)
    requires AllFit(M, ps)
    ensures |qs| == |ps|
  {
    seq(|ps|, i requires 0 <= i < |ps| => Transform(M, ps[i]))
  }

  /** Transform an array of points; the destination may be the source. */
  method TransformRowPoints(src: array<Pt>, numPoints: nat, M: Matrix, dst: array<Pt>)
    requires numPoints <= src.Length && numPoints <= dst.Length && AllFit(M, src[..numPoints])
    modifies dst
    ensures dst[..numPoints] == Transforms(M, old(src[..numPoints]))
    ensures dst[numPoints..] == old(dst[numPoints..])
  {
    ghost var ps := src[..numPoints];
    ghost var qs := Transforms(M, ps);
    for i := 0 to numPoints
      invariant src[i..numPoints] == ps[i..]
      invariant dst[..i] == qs[..i]
      invariant dst[numPoints..] == old(dst[numPoints..])
    {
      assert src[i] == src[i..numPoints][0] == ps[i];
      var q := Transform(M, src[i]);
      ghost var rest := src[i + 1..numPoints];
      assert rest == src[i..numPoints][1..] == ps[i + 1..];
      dst[i] := q;
      assert dst[..i + 1] == dst[..i] + [q];
      assert qs[..i + 1] == qs[..i] + [qs[i]];
    }
  }

  function FromEntries(s: seq<int>): Matrix
    requires |s| == 6
  {
    Matrix(s[0], s[1], s[2], s[3], s[4], s[5])
  }

  /** Nothing overflows the accumulators of a product with n fraction bits. */
  predicate NProductFits(L: Matrix, R: Matrix, n: nat)
    requires 0 < n < 64
  {
    && Accumulates(Pow2(n - 1), L.m00 * R.m00, L.m01 * R.m10) && Accumulates(Pow2(n - 1), L.m00 * R.m01, L.m01 * R.m11)
    && Accumulates(Pow2(n - 1), L.m10 * R.m00, L.m11 * R.m10) && Accumulates(Pow2(n - 1), L.m10 * R.m01, L.m11 * R.m11)
    && Accumulates(Pow2(n - 1) + Shl(R.m20, n), L.m20 * R.m00, L.m21 * R.m10)
    && Accumulates(Pow2(n - 1) + Shl(R.m21, n), L.m20 * R.m01, L.m21 * R.m11)
  }

  /** L followed by R, with n fraction bits more in the factors than in the product. */
  function NProduct(L: Matrix, R: Matrix, n: nat): Matrix
    requires 0 < n < 64 && NProductFits(L, R, n)
  {
    Matrix(NLinear2D(L.m00, R.m00, L.m01, R.m10, n), NLinear2D(L.m00, R.m01, L.m01, R.m11, n),
           NLinear2D(L.m10, R.m00, L.m11, R.m10, n), NLinear2D(L.m10, R.m01, L.m11, R.m11, n),
           NAffine2D(L.m20, R.m00, L.m21, R.m10, R.m20, n), NAffine2D(L.m20, R.m01, L.m21, R.m11, R.m21, n))
  }

  /** With 16 bits it is the product of the composition. */
  lemma ProductOf16(L: Matrix, R: Matrix)
    requires ProductFits(L, R)
    ensures NProductFits(L, R, 16) && NProduct(L, R, 16) == Product(L, R)
  {}

  /** Multiply matrices stored as arrays; the result may overwrite either factor. */
  method MultiplyMatrix(L: array<int>, R: array<int>, P: array<int>, n: nat)
    requires L.Length == R.Length == P.Length == 6 && 0 < n < 64
    requires NProductFits(FromEntries(L[..]), FromEntries(R[..]), n)
    modifies P
    ensures FromEntries(P[..]) == NProduct(FromEntries(old(L[..])), FromEntries(old(R[..])), n)
    ensures n == 16 && ProductFits(FromEntries(old(L[..])), FromEntries(old(R[..]))) ==>
              FromEntries(P[..]) == Product(FromEntries(old(L[..])), FromEntries(old(R[..])))
  {
    ghost var l, r := FromEntries(L[..]), FromEntries(R[..]);
    if n == 16 && ProductFits(l, r) { ProductOf16(l, r); }
    var C := NProduct(Matrix(L[0], L[1], L[2], L[3], L[4], L[5]), Matrix(R[0], R[1], R[2], R[3], R[4], R[5]), n);
    P[0], P[1], P[2], P[3], P[4], P[5] := C.m00, C.m01, C.m10, C.m11, C.m20, C.m21;
  }
}
