/** The de Casteljau triangle: the polygons of repeated pairwise interpolation, the
    loop that stores them in a triangular array, and the split that reads them off.
    The loop is written once, for any element type and any interpolation; the
    fixed-point and the bisecting variant of the library differ only in the latter. */
module Triangle {
  import opened MachineInt
  import opened UniqueList

  // ---------------------------------------------------------------- specification

  /** Cell i of round k: the control point itself, or the interpolation of the two
      neighbouring cells of the round before. */
  function Cell<T>(lerp: (T, T) -> T, c: seq<T>, k: nat, i: nat): T
    requires k + i < |c|
    decreases k
  {
    if k == 0 then c[i] else lerp(Cell(lerp, c, k - 1, i), Cell(lerp, c, k - 1, i + 1))
  }

  /** The polygon after k rounds of interpolation. */
  function Level<T>(lerp: (T, T) -> T, c: seq<T>, k: nat): (r: seq<T>)
    requires k < |c|
    ensures |r| == |c| - k && forall i :: 0 <= i < |r| ==> r[i] == Cell(lerp, c, k, i)
  {
    seq(|c| - k, i requires 0 <= i < |c| - k => Cell(lerp, c, k, i))
  }

  /** The control polygons of the two parts: the left edge of the triangle from the
      base up, and the right edge from the apex down. */
  function Left<T>(lerp: (T, T) -> T, c: seq<T>): (r: seq<T>)
    ensures |r| == |c| && forall j :: 0 <= j < |c| ==> r[j] == Cell(lerp, c, j, 0)
  {
    seq(|c|, j requires 0 <= j < |c| => Cell(lerp, c, j, 0))
  }

  function Right<T>(lerp: (T, T) -> T, c: seq<T>): (r: seq<T>)
    ensures |r| == |c| && forall j :: 0 <= j < |c| ==> r[j] == Cell(lerp, c, |c| - 1 - j, j)
  {
    seq(|c|, j requires 0 <= j < |c| => Cell(lerp, c, |c| - 1 - j, j))
  }

  /** The parts keep the outer end points and meet in the apex. */
  lemma PartsMeet<T>(lerp: (T, T) -> T, c: seq<T>)
    requires c != []
    ensures Left(lerp, c)[0] == c[0] && Right(lerp, c)[|c| - 1] == c[|c| - 1]
    ensures Left(lerp, c)[|c| - 1] == Right(lerp, c)[0] == Cell(lerp, c, |c| - 1, 0)
  {
    assert Cell(lerp, c, 0, 0) == c[0] && Cell(lerp, c, 0, |c| - 1) == c[|c| - 1];
  }

  // ---------------------------------------------------------------- the triangular array

  /** Where the row of m cells starts. */
  function Row(m: nat): nat { if m == 0 then 0 else Row(m - 1) + m - 1 }

  lemma {:induction false} RowFormula(m: nat)
    ensures m * (m - 1) / 2 == Row(m) && m * (m + 1) / 2 == Row(m + 1)
  {
    if m > 0 {
      RowFormula(m - 1);
      assert m * (m - 1) == (m - 1) * (m - 2) + 2 * (m - 1);
      assert m * (m + 1) == m * (m - 1) + 2 * m;
    }
  }

  lemma {:induction false} RowMonotone(m: nat, n: nat)
    requires m <= n
    ensures Row(m) <= Row(n) && (m < n ==> Row(m) + m <= Row(n))
  {
    if m < n {
      RowMonotone(m, n - 1);
    }
  }

  /** Row m of the triangle over c: the polygon of m points. */
  ghost predicate HoldsRow<T>(s: seq<T>, lerp: (T, T) -> T, c: seq<T>, m: nat)
    requires 0 < m <= |c|
  {
    Row(m) + m <= |s| && s[Row(m)..Row(m) + m] == Level(lerp, c, |c| - m)
  }

  /** The rows of at least m points. */
  ghost predicate HoldsRowsFrom<T>(s: seq<T>, lerp: (T, T) -> T, c: seq<T>, m: nat)
    requires m > 0
  {
    forall k :: m <= k <= |c| ==> HoldsRow(s, lerp, c, k)
  }

  /** Row i + 1 is done from cell j on, the rows below it entirely. */
  ghost predicate HoldsPart<T>(s: seq<T>, lerp: (T, T) -> T, c: seq<T>, i: nat, j: nat)
    requires i + 1 < |c| && j <= i + 1
  {
    && |s| >= Row(|c| + 1) >= Row(i + 2)
    && HoldsRowsFrom(s, lerp, c, i + 2)
    && s[Row(i + 1) + j..Row(i + 2)] == Level(lerp, c, |c| - (i + 1))[j..]
  }

  /** One more cell of the row, the value that belongs there. */
  lemma StoreCell<T>(s: seq<T>, lerp: (T, T) -> T, c: seq<T>, i: nat, j: nat, x: T)
    requires i + 1 < |c| && 0 < j <= i + 1 && HoldsPart(s, lerp, c, i, j)
    requires x == Level(lerp, c, |c| - (i + 1))[j - 1]
    ensures Row(i + 1) + j <= Row(i + 2) <= |s| && HoldsPart(s[Row(i + 1) + j - 1 := x], lerp, c, i, j - 1)
  {
    var d := Row(i + 1) + j - 1;
    RowsKept(s, lerp, c, i, d, x);
    PartGrows(s, Level(lerp, c, |c| - (i + 1)), d, Row(i + 2), j);
  }

  lemma ReadCell<T>(s: seq<T>, lerp: (T, T) -> T, c: seq<T>, i: nat, j: nat)
    requires i + 1 < |c| && 0 < j <= i + 1 && HoldsPart(s, lerp, c, i, j)
    ensures Row(i + 2) + j < |s| && Row(i + 1) + j <= Row(i + 2)
    ensures lerp(s[Row(i + 2) + j - 1], s[Row(i + 2) + j]) == Level(lerp, c, |c| - (i + 1))[j - 1]
  {
    assert HoldsRow(s, lerp, c, i + 2);
    var r := s[Row(i + 2)..Row(i + 2) + i + 2];
    assert r[j - 1] == s[Row(i + 2) + j - 1] && r[j] == s[Row(i + 2) + j];
  }

  lemma RowsKept<T>(s: seq<T>, lerp: (T, T) -> T, c: seq<T>, i: nat, d: nat, x: T)
    requires HoldsRowsFrom(s, lerp, c, i + 2) && d < Row(i + 2) <= |s|
    ensures HoldsRowsFrom(s[d := x], lerp, c, i + 2)
  {
    var s' := s[d := x];
    forall k | i + 2 <= k <= |c|
      ensures HoldsRow(s', lerp, c, k)
    {
      RowMonotone(i + 2, k);
      assert HoldsRow(s, lerp, c, k);
      StoreBelow(s, lerp, c, k, d, x);
    }
  }

  lemma PartGrows<T>(s: seq<T>, row: seq<T>, d: nat, end: nat, j: nat)
    requires 0 < j <= |row| && d < end <= |s| && s[d + 1..end] == row[j..]
    ensures s[d := row[j - 1]][d..end] == row[j - 1..]
  {
    assert s[d := row[j - 1]][d..end] == [row[j - 1]] + s[d + 1..end];
  }

  /** Storing below a row leaves the row alone. */
  lemma StoreBelow<T>(s: seq<T>, lerp: (T, T) -> T, c: seq<T>, m: nat, d: nat, x: T)
    requires 0 < m <= |c| && HoldsRow(s, lerp, c, m) && d < Row(m)
    ensures HoldsRow(s[d := x], lerp, c, m)
  {
    assert s[d := x][Row(m)..Row(m) + m] == s[Row(m)..Row(m) + m];
  }

  /** Repeated interpolation by two descending indices: d stores, b reads. */
  method FillTriangle<T>(lerp: (T, T) -> T, order: nat, eval: array<T>, ghost c: seq<T>)
    requires |c| == order > 0 && eval.Length >= order * (order + 1) / 2
    requires HoldsRow(eval[..], lerp, c, order)
    modifies eval
    ensures HoldsRowsFrom(eval[..], lerp, c, 1)
    ensures eval[order * (order + 1) / 2..] == old(eval[order * (order + 1) / 2..])
  {
    RowFormula(order);
    var i := order - 1;
    var d := order * (order - 1) / 2 - 1;
    var b := d + order;
    while i != 0
      invariant 0 <= i < order
      invariant d == Row(i + 1) - 1 && b == Row(i + 1) + i
      invariant HoldsRowsFrom(eval[..], lerp, c, i + 1)
      invariant eval[Row(order + 1)..] == old(eval[Row(order + 1)..])
    {
      i := i - 1;
      d, b := FillRow(lerp, i, d, b, eval, c);
      b := b - 1;
    }
  }

  /** The inner loop: row i + 1 from the row below it. */
  method FillRow<T>(lerp: (T, T) -> T, i: nat, d0: int, b0: int, eval: array<T>, ghost c: seq<T>) returns (d: int, b: int)
    requires i + 1 < |c| && eval.Length >= Row(|c| + 1)
    requires d0 == Row(i + 2) - 1 && b0 == Row(i + 2) + i + 1
    requires HoldsRowsFrom(eval[..], lerp, c, i + 2)
    modifies eval
    ensures d == Row(i + 1) - 1 && b == Row(i + 2)
    ensures HoldsRowsFrom(eval[..], lerp, c, i + 1)
    ensures eval[Row(|c| + 1)..] == old(eval[Row(|c| + 1)..])
  {
    d, b := d0, b0;
    var j := i + 1;
    RowMonotone(i + 2, |c| + 1);
    while j != 0
      invariant 0 <= j <= i + 1
      invariant d == Row(i + 1) + j - 1 && b == Row(i + 2) + j
      invariant HoldsPart(eval[..], lerp, c, i, j)
      invariant eval[Row(|c| + 1)..] == old(eval[Row(|c| + 1)..])
    {
      ReadCell(eval[..], lerp, c, i, j);
      StoreCell(eval[..], lerp, c, i, j, lerp(eval[b - 1], eval[b]));
      j := j - 1;
      eval[d] := lerp(eval[b - 1], eval[b]);
      d, b := d - 1, b - 1;
    }
    RowDone(eval[..], lerp, c, i);
  }

  lemma RowDone<T>(s: seq<T>, lerp: (T, T) -> T, c: seq<T>, i: nat)
    requires i + 1 < |c| && HoldsPart(s, lerp, c, i, 0)
    ensures HoldsRowsFrom(s, lerp, c, i + 1)
  {
    assert HoldsRow(s, lerp, c, i + 1);
  }

  // ---------------------------------------------------------------- interleaved points

  /** Where coordinate dim of each point lies, for points of the given dimension. */
  function Cells(dim: nat, order: nat, dimension: nat): (r: seq<nat>)
    ensures |r| == order
  {
    seq(order, k requires 0 <= k < order => dim + k * dimension)
  }

  ghost predicate InRange<T>(s: seq<T>, cells: seq<nat>) { forall k :: 0 <= k < |cells| ==> cells[k] < |s| }

  ghost predicate Evenly(cells: seq<nat>, stride: nat) {
    forall j, k :: 0 <= j < |cells| && 0 <= k < |cells| && k == j + 1 ==> cells[k] == cells[j] + stride
  }

  /** The values in the given cells: one coordinate of all points. */
  function Lane<T>(s: seq<T>, cells: seq<nat>): (r: seq<T>)
    requires InRange(s, cells)
    ensures |r| == |cells|
  {
    seq(|cells|, k requires 0 <= k < |cells| => s[cells[k]])
  }

  /** t is s but for the given cells. */
  ghost predicate OnlyAt<T>(s: seq<T>, t: seq<T>, cells: seq<nat>) {
    |s| == |t| && forall q :: 0 <= q < |s| && q !in cells ==> t[q] == s[q]
  }

  /** The room that order points of the given dimension take. */
  predicate Room<T>(s: seq<T>, order: nat, dimension: nat) { order * dimension <= |s| }

  lemma CellsOfRoom<T>(s: seq<T>, dim: nat, order: nat, dimension: nat)
    requires dim < dimension && Room(s, order, dimension)
    ensures InRange(s, Cells(dim, order, dimension))
  {
    forall k | 0 <= k < order
      ensures Cells(dim, order, dimension)[k] < |s|
    {
      ScaledMonotone(k + 1, order, dimension);
    }
  }

  lemma ScaledMonotone(a: int, b: int, m: nat)
    requires a <= b
    ensures a * m <= b * m
  {}

  lemma CellsSpread(dim: nat, order: nat, dimension: nat)
    requires dim < dimension
    ensures Evenly(Cells(dim, order, dimension), dimension) && Distinct(Cells(dim, order, dimension))
    ensures order > 0 ==> Cells(dim, order, dimension)[0] == dim
                          && Cells(dim, order, dimension)[order - 1] == dim + (order - 1) * dimension
  {
    var cells := Cells(dim, order, dimension);
    forall j, k | 0 <= j < order && 0 <= k < order
      ensures k == j + 1 ==> cells[k] == cells[j] + dimension
      ensures cells[j] == cells[k] ==> j == k
    {
      SameCell(dim, j, dim, k, dimension);
    }
  }

  /** A cell belongs to one point and one coordinate only. */
  lemma SameCell(d: nat, j: int, e: nat, k: int, dimension: nat)
    requires d < dimension && e < dimension
    ensures d + j * dimension == e + k * dimension ==> d == e && j == k
  {
    if d + j * dimension == e + k * dimension {
      assert dimension * (j - k) == e - d;
      SmallMultiple(dimension, j - k);
    }
  }

  lemma CellsDisjoint(d: nat, e: nat, order: nat, dimension: nat)
    requires d < dimension && e < dimension && d != e
    ensures forall k :: 0 <= k < order ==> Cells(d, order, dimension)[k] !in Cells(e, order, dimension)
  {
    forall j, k | 0 <= j < order && 0 <= k < order
      ensures Cells(d, order, dimension)[j] != Cells(e, order, dimension)[k]
    {
      SameCell(d, j, e, k, dimension);
    }
  }

  // ---------------------------------------------------------------- evaluation and splitting

  /** Copy the control points to the base of the triangle and refine them. */
  method DeCasteljau<T>(lerp: (T, T) -> T, control: array<T>, first: nat, order: nat, stride: nat, eval: array<T>,
                        ghost cells: seq<nat>)
    requires |cells| == order > 0 && cells[0] == first && Evenly(cells, stride) && InRange(control[..], cells)
    requires eval.Length == order * (order + 1) / 2 && control != eval
    modifies eval
    ensures HoldsRowsFrom(eval[..], lerp, Lane(control[..], cells), 1)
  {
    RowFormula(order);
    ghost var c := Lane(control[..], cells);
    var b0 := order * (order - 1) / 2;
    var p := first;
    for i := 0 to order
      invariant i < order ==> p == cells[i]
      invariant eval[b0..b0 + i] == c[..i]
    {
      assert c[i] == control[p];
      eval[b0 + i] := control[p];
      assert eval[b0..b0 + i + 1] == eval[b0..b0 + i] + [c[i]];
      p := p + stride;
    }
    assert HoldsRow(eval[..], lerp, c, order);
    FillTriangle(lerp, order, eval, c);
  }

  /** Values lo to hi are in their cells. */
  ghost predicate Stored<T>(s: seq<T>, cells: seq<nat>, values: seq<T>, lo: nat, hi: nat)
    requires |cells| == |values|
  {
    hi <= |values| && forall k :: lo <= k < hi ==> cells[k] < |s| && s[cells[k]] == values[k]
  }

  /** The first i points of the right part and the last i of the left one are stored. */
  ghost predicate EdgesDone<T>(l0: seq<T>, r0: seq<T>, l: seq<T>, r: seq<T>, lerp: (T, T) -> T, c: seq<T>, cells: seq<nat>, i: nat)
    requires i <= |c| == |cells|
  {
    && OnlyAt(l0, l, cells) && Stored(l, cells, Left(lerp, c), |c| - i, |c|)
    && OnlyAt(r0, r, cells) && Stored(r, cells, Right(lerp, c), 0, i)
  }

  lemma EdgesStep<T>(l0: seq<T>, r0: seq<T>, l: seq<T>, r: seq<T>, lerp: (T, T) -> T, c: seq<T>, cells: seq<nat>, i: nat)
    requires i < |c| == |cells| && Distinct(cells) && InRange(l, cells) && InRange(r, cells)
    requires EdgesDone(l0, r0, l, r, lerp, c, cells, i)
    ensures EdgesDone(l0, r0, l[cells[|c| - 1 - i] := Left(lerp, c)[|c| - 1 - i]], r[cells[i] := Right(lerp, c)[i]],
                      lerp, c, cells, i + 1)
  {
    StoreOne(l0, l, cells, Left(lerp, c), |c| - i, |c|, |c| - 1 - i);
    StoreOne(r0, r, cells, Right(lerp, c), 0, i, i);
  }

  /** Storing one more value at either end of the range that is stored already. */
  lemma StoreOne<T>(s0: seq<T>, s: seq<T>, cells: seq<nat>, values: seq<T>, lo: nat, hi: nat, m: nat)
    requires m < |cells| == |values| && Distinct(cells) && InRange(s, cells)
    requires OnlyAt(s0, s, cells) && Stored(s, cells, values, lo, hi) && (m + 1 == lo || m == hi)
    ensures var t := s[cells[m] := values[m]];
            OnlyAt(s0, t, cells) && (if m == hi then Stored(t, cells, values, lo, hi + 1) else Stored(t, cells, values, m, hi))
  {}

  /** The ends of the row of i + 1 points. */
  lemma EdgeCells<T>(s: seq<T>, lerp: (T, T) -> T, c: seq<T>, i: nat)
    requires i < |c| && HoldsRowsFrom(s, lerp, c, 1)
    ensures Row(i + 1) + i < |s|
    ensures s[Row(i + 1)] == Left(lerp, c)[|c| - 1 - i] && s[Row(i + 1) + i] == Right(lerp, c)[i]
  {
    assert HoldsRow(s, lerp, c, i + 1);
    var row := s[Row(i + 1)..Row(i + 1) + i + 1];
    assert row[0] == s[Row(i + 1)] && row[i] == s[Row(i + 1) + i];
  }

  /** Read one coordinate of both parts off the edges of its triangle. */
  method CopyEdges<T>(lerp: (T, T) -> T, order: nat, dimension: nat, dim: nat, eval: array<T>, L: array<T>, R: array<T>,
                      ghost c: seq<T>, ghost cells: seq<nat>)
    requires order == |c| == |cells| > 0 && HoldsRowsFrom(eval[..], lerp, c, 1)
    requires cells[0] == dim && cells[order - 1] == dim + (order - 1) * dimension
    requires Evenly(cells, dimension) && Distinct(cells) && InRange(L[..], cells) && InRange(R[..], cells)
    requires L != R && eval != L && eval != R
    modifies L, R
    ensures EdgesDone(old(L[..]), old(R[..]), L[..], R[..], lerp, c, cells, order)
  {
    ghost var l0, r0 := L[..], R[..];
    var l, r, fl, fr := dim + (order - 1) * dimension, dim, 0, 0;
    var i := 0;
    while i < order
      invariant 0 <= i <= order
      invariant fl == Row(i + 1) && fr == Row(i + 1) + i
      invariant i < order ==> l == cells[order - 1 - i] && r == cells[i]
      invariant InRange(L[..], cells) && InRange(R[..], cells)
      invariant EdgesDone(l0, r0, L[..], R[..], lerp, c, cells, i)
    {
      StoreEdges(lerp, eval, fl, fr, L, l, R, r, l0, r0, c, cells, i);
      i := i + 1;
      l, r := l - dimension, r + dimension;
      fl, fr := fl + i, fr + i + 1;
    }
  }

  /** Store both ends of the row of i + 1 points. */
  method StoreEdges<T>(ghost lerp: (T, T) -> T, eval: array<T>, fl: nat, fr: nat, L: array<T>, l: nat, R: array<T>, r: nat,
                       ghost l0: seq<T>, ghost r0: seq<T>, ghost c: seq<T>, ghost cells: seq<nat>, ghost i: nat)
    requires i < |c| == |cells| && HoldsRowsFrom(eval[..], lerp, c, 1)
    requires fl == Row(i + 1) && fr == Row(i + 1) + i && l == cells[|c| - 1 - i] && r == cells[i]
    requires Distinct(cells) && InRange(L[..], cells) && InRange(R[..], cells)
    requires L != R && eval != L && eval != R
    requires EdgesDone(l0, r0, L[..], R[..], lerp, c, cells, i)
    modifies L, R
    ensures EdgesDone(l0, r0, L[..], R[..], lerp, c, cells, i + 1)
  {
    EdgeCells(eval[..], lerp, c, i);
    EdgesStep(l0, r0, L[..], R[..], lerp, c, cells, i);
    StorePair(L, l, eval[fl], R, r, eval[fr]);
  }

  method StorePair<T>(L: array<T>, l: nat, x: T, R: array<T>, r: nat, y: T)
    requires L != R && l < L.Length && r < R.Length
    modifies L, R
    ensures L[..] == old(L[..])[l := x] && R[..] == old(R[..])[r := y]
  {
    L[l] := x;
    R[r] := y;
  }

  /** Both parts hold, in the cells of this coordinate, what splitting c gives. */
  ghost predicate SplitInto<T>(l: seq<T>, r: seq<T>, lerp: (T, T) -> T, c: seq<T>, cells: seq<nat>) {
    InRange(l, cells) && InRange(r, cells) && Lane(l, cells) == Left(lerp, c) && Lane(r, cells) == Right(lerp, c)
  }

  /** One coordinate: refine it, and read off both parts. */
  method SplitCoordinate<T>(lerp: (T, T) -> T, control: array<T>, order: nat, dimension: nat, dim: nat, eval: array<T>,
                            L: array<T>, R: array<T>, ghost cells: seq<nat>)
    requires order > 0 && L != R && dim < dimension && eval.Length == order * (order + 1) / 2
    requires eval != control && eval != L && eval != R && cells == Cells(dim, order, dimension)
    requires InRange(control[..], cells) && InRange(L[..], cells) && InRange(R[..], cells)
    modifies L, R, eval
    ensures SplitInto(L[..], R[..], lerp, Lane(old(control[..]), cells), cells)
    ensures OnlyAt(old(L[..]), L[..], cells) && OnlyAt(old(R[..]), R[..], cells)
  {
    CellsSpread(dim, order, dimension);
    ghost var c := Lane(control[..], cells);
    DeCasteljau(lerp, control, dim, order, dimension, eval, cells);
    CopyEdges(lerp, order, dimension, dim, eval, L, R, c, cells);
  }

  /** Coordinate dim of the points in s. */
  function Coordinate<T>(s: seq<T>, dim: nat, order: nat, dimension: nat): (r: seq<T>)
    requires dim < dimension && Room(s, order, dimension)
    ensures |r| == order
  {
    CellsOfRoom(s, dim, order, dimension);
    Lane(s, Cells(dim, order, dimension))
  }

  lemma OtherKept<T>(s: seq<T>, t: seq<T>, dim: nat, other: nat, order: nat, dimension: nat)
    requires dim < dimension && other < dimension && other != dim && Room(s, order, dimension)
    requires OnlyAt(s, t, Cells(dim, order, dimension))
    ensures Coordinate(t, other, order, dimension) == Coordinate(s, other, order, dimension)
  {
    CellsDisjoint(other, dim, order, dimension);
    CellsOfRoom(s, other, order, dimension);
  }

  /** What splitting leaves in coordinate dim of both parts. */
  ghost predicate SplitHolds<T>(l: seq<T>, r: seq<T>, lerp: (T, T) -> T, c: seq<T>, dim: nat, dimension: nat) {
    && dim < dimension && Room(l, |c|, dimension) && Room(r, |c|, dimension)
    && Coordinate(l, dim, |c|, dimension) == Left(lerp, c)
    && Coordinate(r, dim, |c|, dimension) == Right(lerp, c)
  }

  /** Split the interleaved control points of a curve of any order and dimension. The
      control points may themselves be overwritten by either part. */
  method Split<T(0)>(lerp: (T, T) -> T, control: array<T>, order: nat, dimension: nat, L: array<T>, R: array<T>)
    requires order > 0 && L != R
    requires Room(control[..], order, dimension) && Room(L[..], order, dimension) && Room(R[..], order, dimension)
    modifies L, R
    ensures forall dim | 0 <= dim < dimension ::
              SplitHolds(L[..], R[..], lerp, Coordinate(old(control[..]), dim, order, dimension), dim, dimension)
  {
    ghost var start := control[..];
    RowFormula(order);
    var eval := new T[order * (order + 1) / 2];
    for dim := 0 to dimension
      invariant Room(control[..], order, dimension)
      invariant forall d | dim <= d < dimension ::
                  Coordinate(control[..], d, order, dimension) == Coordinate(start, d, order, dimension)
      invariant forall d | 0 <= d < dim ::
                  SplitHolds(L[..], R[..], lerp, Coordinate(start, d, order, dimension), d, dimension)
    {
      ghost var l, r, p := L[..], R[..], control[..];
      ghost var cells := Cells(dim, order, dimension);
      CellsOfRoom(p, dim, order, dimension);
      CellsOfRoom(l, dim, order, dimension);
      CellsOfRoom(r, dim, order, dimension);
      SplitCoordinate(lerp, control, order, dimension, dim, eval, L, R, cells);
      assert OnlyAt(p, control[..], cells);
      assert SplitHolds(L[..], R[..], lerp, Coordinate(start, dim, order, dimension), dim, dimension);
      forall d | 0 <= d < dimension && d != dim
        ensures Coordinate(L[..], d, order, dimension) == Coordinate(l, d, order, dimension)
        ensures Coordinate(R[..], d, order, dimension) == Coordinate(r, d, order, dimension)
        ensures Coordinate(control[..], d, order, dimension) == Coordinate(p, d, order, dimension)
      {
        OtherKept(l, L[..], dim, d, order, dimension);
        OtherKept(r, R[..], dim, d, order, dimension);
        OtherKept(p, control[..], dim, d, order, dimension);
      }
    }
  }
}
