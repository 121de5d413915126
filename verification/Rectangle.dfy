/** Rectangles of cells in a linear buffer: rows of equal width, each a fixed distance
    after the one before it. */
module Rectangle {

  /** All rows lie inside a buffer of n cells. */
  predicate RowsFit(n: int, start: int, width: nat, height: nat, stride: int)
    decreases height
  {
    height == 0 || (0 <= start && start + width <= n && RowsFit(n, start + stride, width, height - 1, stride))
  }

  /** Rows do not overlap, whichever way the buffer is walked. */
  predicate RowsApart(width: nat, stride: int) { stride >= width || stride + width <= 0 }

  predicate InRow(q: int, start: int, width: nat) { start <= q < start + width }

  predicate InRows(q: int, start: int, width: nat, height: nat, stride: int)
    decreases height
  {
    height > 0 && (InRow(q, start, width) || InRows(q, start + stride, width, height - 1, stride))
  }

  /** The position of a cell in its row. */
  function Offset(q: int, start: int, width: nat, height: nat, stride: int): (k: int)
    requires InRows(q, start, width, height, stride)
    ensures 0 <= k < width
    decreases height
  {
    if InRow(q, start, width) then q - start else Offset(q, start + stride, width, height - 1, stride)
  }

  lemma {:induction false} InRowsMeans(q: int, start: int, width: nat, height: nat, stride: int)
    ensures InRows(q, start, width, height, stride)
            <==> exists r: nat :: r < height && InRow(q, start + r * stride, width)
    decreases height
  {
    if height > 0 {
      InRowsMeans(q, start + stride, width, height - 1, stride);
      if InRow(q, start, width) {
        assert InRow(q, start + 0 * stride, width);
      }
      forall r: nat
        ensures (start + stride) + r * stride == start + (r + 1) * stride
        ensures r > 0 ==> start + r * stride == (start + stride) + (r - 1) * stride
      {}
      if r: nat :| r < height - 1 && InRow(q, (start + stride) + r * stride, width) {
        assert InRow(q, start + (r + 1) * stride, width);
      }
      if r: nat :| 0 < r < height && InRow(q, start + r * stride, width) {
        assert InRow(q, (start + stride) + (r - 1) * stride, width);
      }
    }
  }

  /** Each cell of the rows replaced by a function of its place in the row and its value. */
  function MapRow<T>(f: (nat, T) -> T, s: seq<T>, start: int, width: nat): (r: seq<T>)
    requires 0 <= start && start + width <= |s|
    ensures |r| == |s|
    ensures forall q :: 0 <= q < |s| ==> r[q] == if InRow(q, start, width) then f(q - start, s[q]) else s[q]
  {
    seq(|s|, q requires 0 <= q < |s| => if InRow(q, start, width) then f(q - start, s[q]) else s[q])
  }

  function MapRows<T>(f: (nat, T) -> T, s: seq<T>, start: int, width: nat, height: nat, stride: int): (r: seq<T>)
    requires RowsFit(|s|, start, width, height, stride)
    ensures |r| == |s|
    decreases height
  {
    if height == 0 then s
    else MapRows(f, MapRow(f, s, start, width), start + stride, width, height - 1, stride)
  }

  /** Rows that start past a cell, walking away from it, do not contain it. */
  lemma {:induction false} NotInRows(q: int, start: int, width: nat, height: nat, stride: int)
    requires (stride >= 0 && q < start) || (stride <= 0 && q >= start + width)
    ensures !InRows(q, start, width, height, stride)
    decreases height
  {
    if height > 0 { NotInRows(q, start + stride, width, height - 1, stride); }
  }

  /** Exactly the cells of the rectangle change, each once. */
  lemma {:induction false} MapRowsAt<T>(f: (nat, T) -> T, s: seq<T>, start: int, width: nat, height: nat, stride: int, q: nat)
    requires RowsFit(|s|, start, width, height, stride) && RowsApart(width, stride) && q < |s|
    ensures MapRows(f, s, start, width, height, stride)[q]
         == if InRows(q, start, width, height, stride) then f(Offset(q, start, width, height, stride), s[q]) else s[q]
    decreases height
  {
    if height > 0 {
      MapRowsAt(f, MapRow(f, s, start, width), start + stride, width, height - 1, stride, q);
      if InRow(q, start, width) {
        NotInRows(q, start + stride, width, height - 1, stride);
      }
    }
  }

  /** The loop over a rectangle, by a position that skips from row end to row start. */
  method MapRectangle<T>(f: (nat, T) -> T, dst: array<T>, start: int, width: nat, height: nat, bump: int)
    requires RowsFit(dst.Length, start, width, height, width + bump)
    modifies dst
    ensures dst[..] == MapRows(f, old(dst[..]), start, width, height, width + bump)
  {
    var p := start;
    ghost var whole := MapRows(f, dst[..], start, width, height, width + bump);
    var h := height;
    while h != 0
      invariant 0 <= h <= height
      invariant RowsFit(dst.Length, p, width, h, width + bump)
      invariant MapRows(f, dst[..], p, width, h, width + bump) == whole
    {
      h := h - 1;
      ghost var s, p0 := dst[..], p;
      for k := 0 to width
        invariant p == p0 + k
        invariant dst[..] == MapRow(f, s, p0, k)
      {
        dst[p] := f(k, dst[p]);
        p := p + 1;
      }
      p := p + bump;
    }
  }

  /** What MapRectangle leaves, cell by cell. */
  ghost predicate Mapped<T>(f: (nat, T) -> T, s: seq<T>, t: seq<T>, start: int, width: nat, height: nat, stride: int) {
    && |t| == |s|
    && forall q :: 0 <= q < |s| ==>
         t[q] == if InRows(q, start, width, height, stride) then f(Offset(q, start, width, height, stride), s[q]) else s[q]
  }

  lemma MapRowsMapped<T>(f: (nat, T) -> T, s: seq<T>, start: int, width: nat, height: nat, stride: int)
    requires RowsFit(|s|, start, width, height, stride) && RowsApart(width, stride)
    ensures Mapped(f, s, MapRows(f, s, start, width, height, stride), start, width, height, stride)
  {
    forall q | 0 <= q < |s|
      ensures MapRows(f, s, start, width, height, stride)[q]
           == if InRows(q, start, width, height, stride) then f(Offset(q, start, width, height, stride), s[q]) else s[q]
    {
      MapRowsAt(f, s, start, width, height, stride, q);
    }
  }
}
