/** Blending and colorizing of pixels that share a machine word among their channels. */
module Blend {
  import opened MachineInt
  import opened FixedMultiply
  import opened Rectangle

  // ---------------------------------------------------------------- scaling by N-1

  /** w, w + w/n, then over n: the shift-and-add form of division by n - 1. */
  function ShiftScale(v: int, n: int): int
    requires n > 0
  {
    var w := v + n / 2;
    (w + w / n) / n
  }

  /** For an even n and every product of two values up to n - 1 it is exact rounding. */
  lemma ShiftScaleRounds(v: int, n: int)
    requires n >= 2 && n % 2 == 0 && 0 <= v <= (n - 1) * (n - 1)
    ensures ShiftScale(v, n) == RoundHalfUp(v, n - 1)
    ensures 0 <= ShiftScale(v, n) <= n - 1
    ensures v + n / 2 + (v + n / 2) / n < n * n
  {
    var w := v + n / 2;
    var q, r := w / n, w % n;
    assert w == n * q + r;
    QuotientSmall(v, w, n);
    var k := if q + r < n then q else q + 1;
    NextMultiple(n, q);
    FloorUnique(w + q, n, k);
    RoundHalfUpUnique(v, n - 1, k);
  }

  lemma NextMultiple(n: int, q: int)
    ensures n * (q + 1) == n * q + n && (n - 1) * q == n * q - q && (n - 1) * (q + 1) == n * q + n - q - 1
  {}

  lemma QuotientSmall(v: int, w: int, n: int)
    requires n >= 2 && n % 2 == 0 && 0 <= v <= (n - 1) * (n - 1) && w == v + n / 2
    ensures 0 <= w / n <= n - 1 && (w / n == n - 1 ==> w % n == 0)
    ensures w + w / n < n * n
  {
    SquareBelow(n);
    FloorBounds(w, n);
    ShrinksTowardsZero(w, n);
    if w / n >= n { MulMonotone(n, n, w / n); }
  }

  lemma SquareBelow(n: int)
    ensures (n - 1) * (n - 1) == n * n - 2 * n + 1 && n * (n - 1) == n * n - n
  {}

  predicate Word16(x: int) { 0 <= x < 65536 }

  function U16(x: int): int { x % 65536 }

  /** c * a scaled down by n - 1, in 16-bit variables, for n a power of two. */
  function Scale16(c: int, a: int, n: int): int
    requires n > 0
  {
    ScaleWord(c * a, n)
  }

  function ScaleWord(v: int, n: int): int
    requires n > 0
  {
    var c2 := U16(U16(v) + n / 2);
    U16(c2 + c2 / n) / n
  }

  /** The AlphaNScale macro. */
  function AlphaNScale(c: int, a: int, b: nat): int
    requires b > 0
  {
    Scale16(c, a, Pow2(b))
  }

  /** c * a / (2^b - 1), rounded to nearest, for every width that 16 bits can hold. */
  lemma AlphaNScaleRounds(c: int, a: int, b: nat)
    requires 0 < b <= 8 && 0 <= c < Pow2(b) && 0 <= a < Pow2(b)
    ensures Scales(AlphaNScale(c, a, b), c * a, Pow2(b))
  {
    WidthEven(b);
    Scale16Rounds(c, a, Pow2(b));
  }

  lemma WidthEven(b: nat)
    requires 0 < b <= 8
    ensures Pow2(b) % 2 == 0 && 2 <= Pow2(b) <= 256
  {
    Pow2Monotone(b, 8);
    assert Pow2(8) == 256;
  }

  /** v is p divided by n - 1 and rounded, and fits a channel of n values. */
  predicate Scales(v: int, p: int, n: int) { n > 1 && v == RoundHalfUp(p, n - 1) && 0 <= v < n }

  lemma Scale16Rounds(c: int, a: int, n: int)
    requires 2 <= n <= 256 && n % 2 == 0 && 0 <= c < n && 0 <= a < n
    ensures Scales(Scale16(c, a, n), c * a, n)
  {
    ProductBelow(c, a, n);
    WordRounds(c * a, n);
  }

  lemma WordRounds(v: int, n: int)
    requires 2 <= n <= 256 && n % 2 == 0 && 0 <= v <= (n - 1) * (n - 1)
    ensures Scales(ScaleWord(v, n), v, n)
  {
    ShiftScaleRounds(v, n);
    Fits16(v, n);
    NoWrap16(v, n);
  }

  lemma Fits16(v: int, n: int)
    requires 2 <= n <= 256 && 0 <= v <= (n - 1) * (n - 1)
    ensures v + n / 2 + (v + n / 2) / n < 65536
  {
    LaneSquare(n);
    FloorBounds(v + n / 2, n);
    if (v + n / 2) / n >= n { MulMonotone(n, n, (v + n / 2) / n); }
  }

  lemma LaneSquare(n: int)
    requires 2 <= n <= 256
    ensures (n - 1) * (n - 1) == n * n - 2 * n + 1 <= 65025
  {
    MulMonotone(n - 1, n - 1, 255);
  }

  lemma NoWrap16(v: int, n: int)
    requires n > 0 && 0 <= v && v + n / 2 + (v + n / 2) / n < 65536
    ensures ScaleWord(v, n) == ShiftScale(v, n)
  {
    ShrinksTowardsZero(v + n / 2, n);
    Small16(v);
    Small16(v + n / 2);
    Small16(v + n / 2 + (v + n / 2) / n);
    assert U16(U16(v) + n / 2) == v + n / 2;
  }

  lemma Small16(x: int)
    requires 0 <= x < 65536
    ensures U16(x) == x
  {}

  lemma ProductBelow(c: int, a: int, n: int)
    requires 0 <= c < n && 0 <= a < n
    ensures 0 <= c * a <= (n - 1) * (n - 1)
  {
    MulMonotone(c, a, n - 1);
    MulMonotone(n - 1, c, n - 1);
    MulMonotone(c, 0, a);
  }

  // ---------------------------------------------------------------- 32-bit pixels

  /** A pixel of four 8-bit channels. */
  datatype Quad = Quad(c0: int, c1: int, c2: int, c3: int)

  function Channels32(p: int): (q: Quad)
    requires InU32(p)
    ensures IsByte(q.c0) && IsByte(q.c1) && IsByte(q.c2) && IsByte(q.c3)
    ensures p == q.c0 + 256 * q.c1 + 65536 * q.c2 + 0x100_0000 * q.c3
  {
    Quad(p % 256, p / 256 % 256, p / 256 / 256 % 256, p / 256 / 256 / 256)
  }

  lemma Channels32Unique(p: int, q: Quad)
    requires IsByte(q.c0) && IsByte(q.c1) && IsByte(q.c2) && IsByte(q.c3)
    requires p == q.c0 + 256 * q.c1 + 65536 * q.c2 + 0x100_0000 * q.c3
    ensures InU32(p) && Channels32(p) == q
  {
    var p1, p2 := q.c1 + 256 * q.c2 + 65536 * q.c3, q.c2 + 256 * q.c3;
    assert p == 256 * p1 + q.c0 && p1 == 256 * p2 + q.c1;
    assert p / 256 == p1 && p1 / 256 == p2;
  }

  /** x & 0x00FF00FF */
  function MaskLanes(x: int): int { x % 256 + 65536 * (x / 256 / 256 % 256) }

  /** Two 16-bit lanes of a 32-bit word. */
  function Lanes(h: int, l: int): int { 65536 * h + l }

  /** Two channels interpolated at once, scaled by 255 and with a half added. */
  function Interpolate(s: int, d: int, level: int): int {
    U32(U32(U32(s - d) * level) + U32(d * 256) - d + 0x0080_0080)
  }

  /** Both lanes divided by 255. */
  function Divide255(p: int): int { MaskLanes(U32(p + MaskLanes(p / 256)) / 256) }

  function BlendLanes(s: int, d: int, level: int): int { Divide255(Interpolate(s, d, level)) }

  function BlendPixel32(src: int, dst: int, level: int): int {
    BlendLanes(MaskLanes(src), MaskLanes(dst), level)
    + 256 * BlendLanes(MaskLanes(src / 256), MaskLanes(dst / 256), level)
  }

  function Weighted(s: int, d: int, b: int): int { s * b + d * (255 - b) }

  /** The exact blend of one channel: (s*b + d*(255-b)) / 255, to nearest. */
  function Blended(s: int, d: int, b: int): int { RoundHalfUp(Weighted(s, d, b), 255) }

  lemma WeightedRange(s: int, d: int, b: int)
    requires IsByte(s) && IsByte(d) && IsByte(b)
    ensures 0 <= Weighted(s, d, b) <= 65025
  {
    MulMonotone(b, 0, s);
    MulMonotone(b, s, 255);
    MulMonotone(255 - b, 0, d);
    MulMonotone(255 - b, d, 255);
  }

  lemma BlendRange(s: int, d: int, b: int)
    requires IsByte(s) && IsByte(d) && IsByte(b)
    ensures 0 <= Weighted(s, d, b) <= 65025
    ensures IsByte(Blended(s, d, b)) && ShiftScale(Weighted(s, d, b), 256) == Blended(s, d, b)
  {
    WeightedRange(s, d, b);
    ShiftScaleRounds(Weighted(s, d, b), 256);
  }

  lemma WrappedProduct(a: int, b: int)
    ensures U32(U32(a) * b) == U32(a * b)
  {
    var k := a / TWO32;
    assert U32(a) == a - TWO32 * k;
    assert (a - TWO32 * k) * b == a * b - TWO32 * (k * b);
    ModShift(a * b, -(k * b));
  }

  lemma ModShift(x: int, k: int)
    ensures U32(x + TWO32 * k) == U32(x)
  {}

  lemma InterpolateUnwrapped(s: int, d: int, b: int)
    ensures Interpolate(s, d, b) == U32(U32((s - d) * b) + U32(d * 256) - d + 0x0080_0080)
  {
    WrappedProduct(s - d, b);
  }

  /** The borrow between the lanes and the wrap-around cancel out. */
  lemma LanesSeparate(sh: int, sl: int, dh: int, dl: int, b: int)
    requires IsByte(sh) && IsByte(sl) && IsByte(dh) && IsByte(dl) && IsByte(b)
    ensures Interpolate(Lanes(sh, sl), Lanes(dh, dl), b) == Lanes(Weighted(sh, dh, b) + 128, Weighted(sl, dl, b) + 128)
  {
    WeightedRange(sh, dh, b);
    WeightedRange(sl, dl, b);
    LaneProducts(sh, sl, dh, dl, b);
    LanesSmall(dh, dl);
    SeparateFrom(Lanes(sh, sl), Lanes(dh, dl), b, Weighted(sh, dh, b), Weighted(sl, dl, b));
  }

  lemma LanesSmall(h: int, l: int)
    requires IsByte(h) && IsByte(l)
    ensures 0 <= Lanes(h, l) < 0x100_0000
  {}

  lemma SeparateFrom(s: int, d: int, b: int, vh: int, vl: int)
    requires (s - d) * b + 255 * d == Lanes(vh, vl) && 0 <= vh <= 65025 && 0 <= vl <= 65025 && 0 <= d < 0x100_0000
    ensures Interpolate(s, d, b) == Lanes(vh + 128, vl + 128)
  {
    InterpolateUnwrapped(s, d, b);
    AddRounded((s - d) * b, d, vh, vl);
  }

  lemma AddRounded(p: int, d: int, vh: int, vl: int)
    requires p + 255 * d == Lanes(vh, vl) && 0 <= vh <= 65025 && 0 <= vl <= 65025 && 0 <= d < 0x100_0000
    ensures U32(U32(p) + U32(d * 256) - d + 0x0080_0080) == Lanes(vh + 128, vl + 128)
  {
    WrappedSum(p, 255 * d + 0x0080_0080);
  }

  lemma LaneProducts(sh: int, sl: int, dh: int, dl: int, b: int)
    ensures (Lanes(sh, sl) - Lanes(dh, dl)) * b + 255 * Lanes(dh, dl) == Lanes(Weighted(sh, dh, b), Weighted(sl, dl, b))
  {}

  lemma WrappedSum(x: int, y: int)
    ensures U32(U32(x) + y) == U32(x + y)
  {
    ModShift(x + y, -(x / TWO32));
  }

  lemma BlendLanesExact(sh: int, sl: int, dh: int, dl: int, b: int)
    requires IsByte(sh) && IsByte(sl) && IsByte(dh) && IsByte(dl) && IsByte(b)
    ensures BlendLanes(Lanes(sh, sl), Lanes(dh, dl), b) == Lanes(Blended(sh, dh, b), Blended(sl, dl, b))
  {
    LanesSeparate(sh, sl, dh, dl, b);
    BlendRange(sh, dh, b);
    BlendRange(sl, dl, b);
    LanesDivide(Weighted(sh, dh, b), Weighted(sl, dl, b));
  }

  lemma LanesDivide(vh: int, vl: int)
    requires 0 <= vh <= 65025 && 0 <= vl <= 65025
    ensures Divide255(Lanes(vh + 128, vl + 128)) == Lanes(ShiftScale(vh, 256), ShiftScale(vl, 256))
  {
    TwoLanes(vh + 128, vl + 128);
    CarryFits(vh);
    CarryFits(vl);
    CarriedLanes(vh + 128, vl + 128);
  }

  lemma CarryFits(v: int)
    requires 0 <= v <= 65025
    ensures 0 <= v + 128 + (v + 128) / 256 < 65536
    ensures ShiftScale(v, 256) == (v + 128 + (v + 128) / 256) / 256
  {}

  lemma CarriedLanes(xh: int, xl: int)
    requires 0 <= xh + xh / 256 < 65536 && 0 <= xl + xl / 256 < 65536
    ensures MaskLanes(U32(Lanes(xh, xl) + Lanes(xh / 256, xl / 256)) / 256)
         == Lanes((xh + xh / 256) / 256, (xl + xl / 256) / 256)
  {
    var yh, yl := xh + xh / 256, xl + xl / 256;
    AddLanes(xh, xl, xh / 256, xl / 256);
    SmallWord(yh, yl);
    TwoLanes(yh, yl);
  }

  lemma AddLanes(ah: int, al: int, bh: int, bl: int)
    ensures Lanes(ah, al) + Lanes(bh, bl) == Lanes(ah + bh, al + bl)
  {}

  lemma SmallWord(h: int, l: int)
    requires 0 <= h < 65536 && 0 <= l < 65536
    ensures U32(Lanes(h, l)) == Lanes(h, l)
  {}

  lemma TwoLanes(xh: int, xl: int)
    requires 0 <= xh < 65536 && 0 <= xl < 65536
    ensures MaskLanes(Lanes(xh, xl) / 256) == Lanes(xh / 256, xl / 256)
  {
    assert Lanes(xh, xl) / 256 == 256 * xh + xl / 256;
    assert (256 * xh + xl / 256) / 256 == xh;
  }

  /** Every channel of a blended pixel is the exact blend of the channels, rounded. */
  lemma BlendPixel32Exact(src: int, dst: int, b: int)
    requires InU32(src) && InU32(dst) && IsByte(b)
    ensures var s, d, p := Channels32(src), Channels32(dst), BlendPixel32(src, dst, b);
            && InU32(p)
            && Channels32(p) == Quad(Blended(s.c0, d.c0, b), Blended(s.c1, d.c1, b),
                                     Blended(s.c2, d.c2, b), Blended(s.c3, d.c3, b))
  {
    var s, d := Channels32(src), Channels32(dst);
    LanesOf(src, s);
    LanesOf(dst, d);
    BlendLanesExact(s.c2, s.c0, d.c2, d.c0, b);
    BlendLanesExact(s.c3, s.c1, d.c3, d.c1, b);
    BlendRange(s.c0, d.c0, b);
    BlendRange(s.c1, d.c1, b);
    BlendRange(s.c2, d.c2, b);
    BlendRange(s.c3, d.c3, b);
    Interleave(BlendPixel32(src, dst, b), Blended(s.c0, d.c0, b), Blended(s.c1, d.c1, b), Blended(s.c2, d.c2, b), Blended(s.c3, d.c3, b));
  }

  lemma Interleave(p: int, c0: int, c1: int, c2: int, c3: int)
    requires IsByte(c0) && IsByte(c1) && IsByte(c2) && IsByte(c3)
    requires p == Lanes(c2, c0) + 256 * Lanes(c3, c1)
    ensures InU32(p) && Channels32(p) == Quad(c0, c1, c2, c3)
  {
    Channels32Unique(p, Quad(c0, c1, c2, c3));
  }

  lemma LanesOf(p: int, q: Quad)
    requires InU32(p) && q == Channels32(p)
    ensures MaskLanes(p) == Lanes(q.c2, q.c0) && MaskLanes(p / 256) == Lanes(q.c3, q.c1)
  {}

  // ---------------------------------------------------------------- 565 pixels

  /** A pixel of 5, 6 and 5 bits. */
  datatype Rgb = Rgb(r: int, g: int, b: int)

  predicate IsRgb(c: Rgb) { 0 <= c.r < 32 && 0 <= c.g < 64 && 0 <= c.b < 32 }

  function Pack565(c: Rgb): int { 2048 * c.r + 32 * c.g + c.b }

  function Channels565(p: int): (c: Rgb)
    requires Word16(p)
    ensures IsRgb(c) && Pack565(c) == p
  {
    Rgb(p / 32 / 64, p / 32 % 64, p % 32)
  }

  lemma Channels565Unique(p: int, c: Rgb)
    requires IsRgb(c) && p == Pack565(c)
    ensures Word16(p) && Channels565(p) == c
  {
    assert p / 32 == 64 * c.r + c.g;
  }

  /** x & 0xF81F and x & 0x07E0 */
  function MaskRB(x: int): int { x % 32 + 2048 * (x / 32 / 64 % 32) }

  function MaskG(x: int): int { 32 * (x / 32 % 64) }

  /** A word d moved towards s by a/32, with the half added to each lane in between,
      in unsigned 32-bit arithmetic. */
  function Towards(s: int, d: int, a: int, half: int): int { U32(d + U32(U32(s - d) * a + half) / 32) }

  function BlendPixel16(src: int, dst: int, alpha: int): int {
    MaskRB(Towards(MaskRB(src), MaskRB(dst), alpha, 0x8010)) + MaskG(Towards(MaskG(src), MaskG(dst), alpha, 0x0200))
  }

  function Weighted32nds(s: int, d: int, a: int): int { s * a + d * (32 - a) + 16 }

  /** One channel: (s*a + d*(32-a) + 16) >> 5. */
  function Blended32nds(s: int, d: int, a: int): int { Weighted32nds(s, d, a) / 32 }

  lemma Blend32ndsRange(s: int, d: int, a: int, top: int)
    requires 0 <= s < top && 0 <= d < top && 0 <= a <= 32 && top <= 64
    ensures 16 <= Weighted32nds(s, d, a) <= 32 * (top - 1) + 16 && 0 <= Blended32nds(s, d, a) < top
  {
    MulMonotone(a, 0, s);
    MulMonotone(a, s, top - 1);
    MulMonotone(32 - a, 0, d);
    MulMonotone(32 - a, d, top - 1);
    assert a * (top - 1) + (32 - a) * (top - 1) == 32 * (top - 1);
  }

  /** Dividing after a wrap-around differs by a multiple of 2^27 only, which the masks
      do not see. */
  lemma WrappedShift(d: int, x: int)
    ensures U32(d + U32(x) / 32) % 65536 == (d + x / 32) % 65536
  {
    var k := x / TWO32;
    assert U32(x) == x - TWO32 * k;
    assert U32(x) / 32 == x / 32 - 0x800_0000 * k;
    var y := d + U32(x) / 32;
    assert U32(y) == y - TWO32 * (y / TWO32);
    SameLow(d + x / 32, U32(y), 2048 * k + 65536 * (y / TWO32));
  }

  lemma SameLow(x: int, y: int, m: int)
    requires y == x - 65536 * m
    ensures y % 65536 == x % 65536
  {}

  lemma MasksLow(x: int)
    ensures MaskRB(x) == MaskRB(x % 65536) && MaskG(x) == MaskG(x % 65536)
  {
    var k, y := x / 65536, x % 65536;
    assert x == 65536 * k + y;
    assert x / 32 == 2048 * k + y / 32;
    assert x / 32 / 64 == 32 * k + y / 32 / 64;
  }

  lemma TowardsLow(s: int, d: int, a: int, half: int)
    ensures Towards(s, d, a, half) % 65536 == ((32 * d + (s - d) * a + half) / 32) % 65536
  {
    WrappedProduct(s - d, a);
    LowOf(d, (s - d) * a, U32(s - d) * a, half);
    WholeUnits(d, (s - d) * a + half);
  }

  lemma LowOf(d: int, p: int, w: int, half: int)
    requires U32(w) == U32(p)
    ensures U32(d + U32(w + half) / 32) % 65536 == (d + (p + half) / 32) % 65536
  {
    WrappedSum(p, half);
    WrappedSum(w, half);
    WrappedShift(d, p + half);
  }

  lemma WholeUnits(d: int, x: int)
    ensures d + x / 32 == (32 * d + x) / 32
  {}

  /** The red and blue lanes, with the bits that leak between them masked away. */
  lemma RedBlueExact(s: int, d: int, sr: int, sb: int, dr: int, db: int, a: int)
    requires 0 <= sr < 32 && 0 <= sb < 32 && 0 <= dr < 32 && 0 <= db < 32 && 0 <= a <= 32
    requires s == 2048 * sr + sb && d == 2048 * dr + db
    ensures MaskRB(Towards(s, d, a, 0x8010)) == 2048 * Blended32nds(sr, dr, a) + Blended32nds(sb, db, a)
  {
    Blend32ndsRange(sr, dr, a, 32);
    Blend32ndsRange(sb, db, a, 32);
    TowardsLow(s, d, a, 0x8010);
    MasksLow(Towards(s, d, a, 0x8010));
    RedBlueSum(s, d, sr, sb, dr, db, a);
    RedBlueMask(Weighted32nds(sr, dr, a), Weighted32nds(sb, db, a));
  }

  lemma RedBlueSum(s: int, d: int, sr: int, sb: int, dr: int, db: int, a: int)
    requires s == 2048 * sr + sb && d == 2048 * dr + db
    ensures 32 * d + (s - d) * a + 0x8010 == 2048 * Weighted32nds(sr, dr, a) + Weighted32nds(sb, db, a)
  {}

  lemma RedBlueMask(vr: int, vb: int)
    requires 0 <= vr <= 1008 && 0 <= vb <= 1008
    ensures MaskRB(((2048 * vr + vb) / 32) % 65536) == 2048 * (vr / 32) + vb / 32
  {
    assert (2048 * vr + vb) / 32 == 64 * vr + vb / 32;
    assert (64 * vr + vb / 32) / 32 == 2 * vr;
    assert 2 * vr / 64 == vr / 32;
  }

  lemma GreenExact(s: int, d: int, sg: int, dg: int, a: int)
    requires 0 <= sg < 64 && 0 <= dg < 64 && 0 <= a <= 32 && s == 32 * sg && d == 32 * dg
    ensures MaskG(Towards(s, d, a, 0x0200)) == 32 * Blended32nds(sg, dg, a)
  {
    Blend32ndsRange(sg, dg, a, 64);
    TowardsLow(s, d, a, 0x0200);
    MasksLow(Towards(s, d, a, 0x0200));
    GreenSum(s, d, sg, dg, a);
    GreenMask(Weighted32nds(sg, dg, a));
  }

  lemma GreenSum(s: int, d: int, sg: int, dg: int, a: int)
    requires s == 32 * sg && d == 32 * dg
    ensures 32 * d + (s - d) * a + 0x0200 == 32 * Weighted32nds(sg, dg, a)
  {}

  lemma GreenMask(v: int)
    requires 0 <= v <= 2032
    ensures MaskG(((32 * v) / 32) % 65536) == 32 * (v / 32)
  {
    assert (32 * v) / 32 == v && v % 65536 == v;
  }

  /** Every channel of a blended 565 pixel is the rounded blend of the channels. */
  lemma BlendPixel16Exact(src: int, dst: int, a: int)
    requires Word16(src) && Word16(dst) && 0 <= a <= 32
    ensures var s, d, p := Channels565(src), Channels565(dst), BlendPixel16(src, dst, a);
            && Word16(p)
            && Channels565(p) == Rgb(Blended32nds(s.r, d.r, a), Blended32nds(s.g, d.g, a), Blended32nds(s.b, d.b, a))
  {
    var s, d := Channels565(src), Channels565(dst);
    MasksOf(src, s);
    MasksOf(dst, d);
    RedBlueExact(MaskRB(src), MaskRB(dst), s.r, s.b, d.r, d.b, a);
    GreenExact(MaskG(src), MaskG(dst), s.g, d.g, a);
    Blend32ndsRange(s.r, d.r, a, 32);
    Blend32ndsRange(s.g, d.g, a, 64);
    Blend32ndsRange(s.b, d.b, a, 32);
    Channels565Unique(BlendPixel16(src, dst, a), Rgb(Blended32nds(s.r, d.r, a), Blended32nds(s.g, d.g, a), Blended32nds(s.b, d.b, a)));
  }

  lemma MasksOf(p: int, c: Rgb)
    requires Word16(p) && c == Channels565(p)
    ensures MaskRB(p) == 2048 * c.r + c.b && MaskG(p) == 32 * c.g
  {}

  // ---------------------------------------------------------------- colorizing

  /** Each channel of a 565 pixel scaled by a colour. */
  function Colorize16(src: int, dst: int): int {
    Pack565(Rgb(AlphaNScale(dst / 32 / 64, src / 32 / 64, 5),
                AlphaNScale(dst / 32 % 64, src / 32 % 64, 6),
                AlphaNScale(dst % 32, src % 32, 5)))
  }

  lemma Colorize16Exact(src: int, dst: int)
    requires Word16(src) && Word16(dst)
    ensures var s, d, p := Channels565(src), Channels565(dst), Colorize16(src, dst);
            && Word16(p)
            && Channels565(p) == Rgb(RoundHalfUp(d.r * s.r, 31), RoundHalfUp(d.g * s.g, 63), RoundHalfUp(d.b * s.b, 31))
  {
    var s, d := Channels565(src), Channels565(dst);
    assert Pow2(5) == 32 && Pow2(6) == 64;
    AlphaNScaleRounds(d.r, s.r, 5);
    AlphaNScaleRounds(d.g, s.g, 6);
    AlphaNScaleRounds(d.b, s.b, 5);
    Channels565Unique(Colorize16(src, dst), Rgb(AlphaNScale(d.r, s.r, 5), AlphaNScale(d.g, s.g, 6), AlphaNScale(d.b, s.b, 5)));
  }

  // ---------------------------------------------------------------- the routines

  /** Blend a colour over a rectangle of 32-bit pixels: each channel of each pixel
      becomes its exact rounded blend, and nothing else changes. */
  method BlendColor32(src: int, dst: array<int>, start: int, width: nat, height: nat, bump: int, level: int)
    requires width > 0 && height > 0 && InU32(src) && IsByte(level)
    requires RowsFit(dst.Length, start, width, height, width + bump) && RowsApart(width, width + bump)
    requires forall q :: 0 <= q < dst.Length ==> InU32(dst[q])
    modifies dst
    ensures forall q :: 0 <= q < dst.Length ==> InU32(dst[q])
    ensures forall q :: 0 <= q < dst.Length && InRows(q, start, width, height, width + bump) ==>
              var s, d := Channels32(src), Channels32(old(dst[q]));
              Channels32(dst[q]) == Quad(Blended(s.c0, d.c0, level), Blended(s.c1, d.c1, level),
                                         Blended(s.c2, d.c2, level), Blended(s.c3, d.c3, level))
    ensures forall q :: 0 <= q < dst.Length && !InRows(q, start, width, height, width + bump) ==> dst[q] == old(dst[q])
  {
    ghost var s := dst[..];
    var f := (k: nat, d: int) => BlendPixel32(src, d, level);
    MapRectangle(f, dst, start, width, height, bump);
    MapRowsMapped(f, s, start, width, height, width + bump);
    forall q | 0 <= q < dst.Length
      ensures dst[..][q] == if InRows(q, start, width, height, width + bump) then BlendPixel32(src, s[q], level) else s[q]
    {}
    forall q | 0 <= q < |s|
      ensures InU32(BlendPixel32(src, s[q], level))
      ensures var c, d := Channels32(src), Channels32(s[q]);
              Channels32(BlendPixel32(src, s[q], level))
              == Quad(Blended(c.c0, d.c0, level), Blended(c.c1, d.c1, level), Blended(c.c2, d.c2, level), Blended(c.c3, d.c3, level))
    {
      BlendPixel32Exact(src, s[q], level);
    }
  }

  /** Blend a colour over a rectangle of 565 pixels, by the top five bits of the level. */
  method BlendColor16(src: int, dst: array<int>, start: int, width: nat, height: nat, bump: int, level: int)
    requires width > 0 && height > 0 && Word16(src) && IsByte(level)
    requires RowsFit(dst.Length, start, width, height, width + bump) && RowsApart(width, width + bump)
    requires forall q :: 0 <= q < dst.Length ==> Word16(dst[q])
    modifies dst
    ensures forall q :: 0 <= q < dst.Length ==> Word16(dst[q])
    ensures forall q :: 0 <= q < dst.Length && InRows(q, start, width, height, width + bump) ==>
              var s, d, a := Channels565(src), Channels565(old(dst[q])), level / 8;
              Channels565(dst[q]) == Rgb(Blended32nds(s.r, d.r, a), Blended32nds(s.g, d.g, a), Blended32nds(s.b, d.b, a))
    ensures forall q :: 0 <= q < dst.Length && !InRows(q, start, width, height, width + bump) ==> dst[q] == old(dst[q])
  {
    ghost var s := dst[..];
    var a := level / 8;
    var f := (k: nat, d: int) => BlendPixel16(src, d, a);
    MapRectangle(f, dst, start, width, height, bump);
    MapRowsMapped(f, s, start, width, height, width + bump);
    forall q | 0 <= q < dst.Length
      ensures dst[..][q] == if InRows(q, start, width, height, width + bump) then BlendPixel16(src, s[q], a) else s[q]
    {}
    forall q | 0 <= q < |s|
      ensures Word16(BlendPixel16(src, s[q], a))
      ensures var c, d := Channels565(src), Channels565(s[q]);
              Channels565(BlendPixel16(src, s[q], a)) == Rgb(Blended32nds(c.r, d.r, a), Blended32nds(c.g, d.g, a), Blended32nds(c.b, d.b, a))
    {
      BlendPixel16Exact(src, s[q], a);
    }
  }

  /** Colorize a rectangle of bytes with as many 8-bit channels a pixel as the colour has. */
  method ColorizeBytes(color: seq<int>, dst: array<int>, start: int, width: nat, height: nat, bump: int)
    requires color != [] && forall i :: 0 <= i < |color| ==> IsByte(color[i])
    requires RowsFit(dst.Length, start, width * |color|, height, width * |color| + bump)
    requires RowsApart(width * |color|, width * |color| + bump)
    requires forall q :: 0 <= q < dst.Length ==> IsByte(dst[q])
    modifies dst
    ensures forall q :: 0 <= q < dst.Length ==>
              dst[q] == if InRows(q, start, width * |color|, height, width * |color| + bump)
                        then RoundHalfUp(old(dst[q]) * color[Offset(q, start, width * |color|, height, width * |color| + bump) % |color|], 255)
                        else old(dst[q])
  {
    ghost var s, w := dst[..], width * |color|;
    var f := (k: nat, d: int) => AlphaNScale(d, color[k % |color|], 8);
    MapRectangle(f, dst, start, width * |color|, height, bump);
    MapRowsMapped(f, s, start, w, height, w + bump);
    forall q | 0 <= q < dst.Length
      ensures dst[..][q] == if InRows(q, start, w, height, w + bump)
                            then RoundHalfUp(s[q] * color[Offset(q, start, w, height, w + bump) % |color|], 255) else s[q]
    {
      if InRows(q, start, w, height, w + bump) {
        assert Pow2(8) == 256;
        AlphaNScaleRounds(s[q], color[Offset(q, start, w, height, w + bump) % |color|], 8);
      }
    }
  }

  /** Colorize a rectangle of 565 pixels. */
  method Colorize16LE(src: int, dst: array<int>, start: int, width: nat, height: nat, bump: int)
    requires Word16(src) && RowsFit(dst.Length, start, width, height, width + bump) && RowsApart(width, width + bump)
    requires forall q :: 0 <= q < dst.Length ==> Word16(dst[q])
    modifies dst
    ensures forall q :: 0 <= q < dst.Length ==> Word16(dst[q])
    ensures forall q :: 0 <= q < dst.Length && InRows(q, start, width, height, width + bump) ==>
              var s, d := Channels565(src), Channels565(old(dst[q]));
              Channels565(dst[q]) == Rgb(RoundHalfUp(d.r * s.r, 31), RoundHalfUp(d.g * s.g, 63), RoundHalfUp(d.b * s.b, 31))
    ensures forall q :: 0 <= q < dst.Length && !InRows(q, start, width, height, width + bump) ==> dst[q] == old(dst[q])
  {
    ghost var s := dst[..];
    var f := (k: nat, d: int) => Colorize16(src, d);
    MapRectangle(f, dst, start, width, height, bump);
    MapRowsMapped(f, s, start, width, height, width + bump);
    forall q | 0 <= q < dst.Length
      ensures dst[..][q] == if InRows(q, start, width, height, width + bump) then Colorize16(src, s[q]) else s[q]
    {}
    forall q | 0 <= q < |s|
      ensures Word16(Colorize16(src, s[q]))
      ensures var c, d := Channels565(src), Channels565(s[q]);
              Channels565(Colorize16(src, s[q])) == Rgb(RoundHalfUp(d.r * c.r, 31), RoundHalfUp(d.g * c.g, 63), RoundHalfUp(d.b * c.b, 31))
    {
      Colorize16Exact(src, s[q]);
    }
  }
}
