/** Solid fills: unrolled loops of word stores over a byte buffer, against the plain
    fill of the rectangle with the bytes of one pixel. */
module Fill {
  import opened MachineInt
  import opened Rectangle

  // ---------------------------------------------------------------- words in memory

  /** The bytes of a 32-bit word in memory order. */
  function WordBytes(word: int, bigEndian: bool): (r: seq<int>)
    ensures |r| == 4
  {
    var (b0, b1, b2, b3) := (word % 256, word / 256 % 256, word / 256 / 256 % 256, word / 256 / 256 / 256);
    if bigEndian then [b3, b2, b1, b0] else [b0, b1, b2, b3]
  }

  function Word(b0: int, b1: int, b2: int, b3: int): int { b0 + 256 * b1 + 65536 * b2 + 0x100_0000 * b3 }

  /** A word loaded from four bytes. */
  function LoadWord(b: seq<int>, bigEndian: bool): int
    requires |b| == 4
  {
    if bigEndian then Word(b[3], b[2], b[1], b[0]) else Word(b[0], b[1], b[2], b[3])
  }

  lemma WordBytesOf(b0: int, b1: int, b2: int, b3: int)
    requires IsByte(b0) && IsByte(b1) && IsByte(b2) && IsByte(b3)
    ensures WordBytes(Word(b0, b1, b2, b3), false) == [b0, b1, b2, b3]
    ensures WordBytes(Word(b0, b1, b2, b3), true) == [b3, b2, b1, b0]
  {
    var w := Word(b0, b1, b2, b3);
    assert w / 256 == b1 + 256 * b2 + 65536 * b3;
    assert w / 256 / 256 == b2 + 256 * b3;
  }

  // ---------------------------------------------------------------- the plain fill

  /** Byte k of a row, whatever was there before. */
  function Filling(pat: nat -> int): (nat, int) -> int { (k: nat, v: int) => pat(k) }

  predicate PixelSize(n: int) { 2 <= n <= 4 }

  /** Byte k of a run of pixels of 2, 3 or 4 bytes. */
  function Cycle(pixel: seq<int>, k: nat): int
    requires PixelSize(|pixel|)
  {
    if |pixel| == 2 then pixel[k % 2] else if |pixel| == 3 then pixel[k % 3] else pixel[k % 4]
  }

  /** The bytes of one pixel, over and over. */
  function Repeated(pixel: seq<int>): nat -> int
    requires PixelSize(|pixel|)
  {
    (k: nat) => Cycle(pixel, k)
  }

  /** m bytes of the row at start are filled, and nothing else is changed. */
  ghost predicate RowFilled(s: seq<int>, t: seq<int>, pat: nat -> int, start: int, m: nat) {
    0 <= start && start + m <= |s| && t == MapRow(Filling(pat), s, start, m)
  }

  /** The given bytes are the next ones of the row after m. */
  ghost predicate Continues(bytes: seq<int>, pat: nat -> int, m: nat) {
    forall i :: 0 <= i < |bytes| ==> bytes[i] == pat(m + i)
  }

  /** The word is the j-th of the row, after some leading bytes. */
  ghost predicate WordAt(word: int, bigEndian: bool, pat: nat -> int, lead: nat, j: nat) {
    Continues(WordBytes(word, bigEndian), pat, lead + 4 * j)
  }

  function Splice(s: seq<int>, at: nat, bytes: seq<int>): (r: seq<int>)
    requires at + |bytes| <= |s|
    ensures |r| == |s|
  {
    s[..at] + bytes + s[at + |bytes|..]
  }

  lemma SpliceFills(s: seq<int>, t: seq<int>, pat: nat -> int, start: int, m: nat, bytes: seq<int>)
    requires RowFilled(s, t, pat, start, m) && start + m + |bytes| <= |s| && Continues(bytes, pat, m)
    ensures RowFilled(s, Splice(t, start + m, bytes), pat, start, m + |bytes|)
  {
    var u, v := Splice(t, start + m, bytes), MapRow(Filling(pat), s, start, m + |bytes|);
    forall q | 0 <= q < |s|
      ensures u[q] == v[q]
    {
      if start + m <= q < start + m + |bytes| {
        assert u[q] == bytes[q - start - m];
      }
    }
  }

  lemma NothingFilled(s: seq<int>, pat: nat -> int, start: int)
    requires 0 <= start <= |s|
    ensures RowFilled(s, s, pat, start, 0)
  {
    assert s == MapRow(Filling(pat), s, start, 0);
  }

  /** Store a word and step past it. */
  method PutWord(dst: array<int>, at: nat, word: int, bigEndian: bool,
                 ghost s: seq<int>, ghost pat: nat -> int, ghost start: int, ghost lead: nat, ghost j: nat) returns (next: nat)
    requires at == start + lead + 4 * j && RowFilled(s, dst[..], pat, start, lead + 4 * j) && at + 4 <= |s|
    requires WordAt(word, bigEndian, pat, lead, j)
    modifies dst
    ensures next == at + 4 && RowFilled(s, dst[..], pat, start, lead + 4 * (j + 1))
  {
    next := PutBytes(dst, at, WordBytes(word, bigEndian), s, pat, start, lead + 4 * j);
  }

  /** Store a few bytes one by one and step past them. */
  method PutBytes(dst: array<int>, at: nat, bytes: seq<int>,
                  ghost s: seq<int>, ghost pat: nat -> int, ghost start: int, ghost m: nat) returns (next: nat)
    requires at == start + m && RowFilled(s, dst[..], pat, start, m) && at + |bytes| <= |s|
    requires Continues(bytes, pat, m)
    modifies dst
    ensures next == at + |bytes| && RowFilled(s, dst[..], pat, start, m + |bytes|)
  {
    ghost var t := dst[..];
    for i := 0 to |bytes|
      invariant dst[..] == Splice(t, at, bytes[..i])
    {
      dst[at + i] := bytes[i];
      SpliceNext(t, at, bytes, i);
    }
    assert bytes[..|bytes|] == bytes;
    SpliceFills(s, t, pat, start, m, bytes);
    next := at + |bytes|;
  }

  lemma SpliceNext(t: seq<int>, at: nat, bytes: seq<int>, i: nat)
    requires i < |bytes| && at + |bytes| <= |t|
    ensures Splice(t, at, bytes[..i])[at + i := bytes[i]] == Splice(t, at, bytes[..i + 1])
  {}

  /** Four unrolled stores of the same word. */
  method PutFour(dst: array<int>, at: nat, word: int, bigEndian: bool,
                 ghost s: seq<int>, ghost pat: nat -> int, ghost start: int, ghost lead: nat, ghost j: nat) returns (p: nat)
    requires at == start + lead + 4 * j && RowFilled(s, dst[..], pat, start, lead + 4 * j) && at + 16 <= |s|
    requires forall k :: WordAt(word, bigEndian, pat, lead, k)
    modifies dst
    ensures p == at + 16 && RowFilled(s, dst[..], pat, start, lead + 4 * (j + 4))
  {
    p := PutWord(dst, at, word, bigEndian, s, pat, start, lead, j);
    p := PutWord(dst, p, word, bigEndian, s, pat, start, lead, j + 1);
    p := PutWord(dst, p, word, bigEndian, s, pat, start, lead, j + 2);
    p := PutWord(dst, p, word, bigEndian, s, pat, start, lead, j + 3);
  }

  /** From a whole number of pixels on, the row starts over. */
  lemma RepeatsBy(pixel: seq<int>, pixels: nat, m: nat, i: nat)
    requires PixelSize(|pixel|) && (|pixel| == 2 ==> m == 2 * pixels) && (|pixel| == 3 ==> m == 3 * pixels) && (|pixel| == 4 ==> m == 4 * pixels)
    ensures Repeated(pixel)(m + i) == Cycle(pixel, i)
  {
    assert Repeated(pixel)(m + i) == Cycle(pixel, m + i);
    SameRemainder(pixels, i);
  }

  lemma SameRemainder(p: nat, i: nat)
    ensures (2 * p + i) % 2 == i % 2 && (3 * p + i) % 3 == i % 3 && (4 * p + i) % 4 == i % 4
  {
    SameRemainder2(p, i);
    SameRemainder3(p, i);
    SameRemainder4(p, i);
  }

  lemma SameRemainder2(p: nat, i: nat)
    ensures (2 * p + i) % 2 == i % 2
  {}

  lemma SameRemainder3(p: nat, i: nat)
    ensures (3 * p + i) % 3 == i % 3
  {}

  lemma SameRemainder4(p: nat, i: nat)
    ensures (4 * p + i) % 4 == i % 4
  {}

  lemma FourBytes(word: int, bigEndian: bool, pixel: seq<int>, pixels: nat, skip: nat, lead: nat, k: nat)
    requires PixelSize(|pixel|) && lead + 4 * k == |pixel| * pixels + skip
    requires WordBytes(word, bigEndian) == [Cycle(pixel, skip), Cycle(pixel, skip + 1), Cycle(pixel, skip + 2), Cycle(pixel, skip + 3)]
    ensures WordAt(word, bigEndian, Repeated(pixel), lead, k)
  {
    RepeatsBy(pixel, pixels, |pixel| * pixels, skip);
    RepeatsBy(pixel, pixels, |pixel| * pixels, skip + 1);
    RepeatsBy(pixel, pixels, |pixel| * pixels, skip + 2);
    RepeatsBy(pixel, pixels, |pixel| * pixels, skip + 3);
  }

  // ---------------------------------------------------------------- 32-bit pixels

  predicate IsPixel(pixel: seq<int>, n: nat) { |pixel| == n && forall i :: 0 <= i < n ==> IsByte(pixel[i]) }

  lemma WordRepeats32(pixel: seq<int>, bigEndian: bool)
    requires IsPixel(pixel, 4)
    ensures forall k :: WordAt(LoadWord(pixel, bigEndian), bigEndian, Repeated(pixel), 0, k)
  {
    WordBytesOf(pixel[0], pixel[1], pixel[2], pixel[3]);
    WordBytesOf(pixel[3], pixel[2], pixel[1], pixel[0]);
    var word := LoadWord(pixel, bigEndian);
    forall k: nat
      ensures WordAt(word, bigEndian, Repeated(pixel), 0, k)
    {
      FourBytes(word, bigEndian, pixel, k, 0, 0, k);
    }
  }

  /** One row of fillColor32: the stragglers first, then blocks of sixteen. */
  method FillRow32(dst: array<int>, start: nat, width: nat, pixel: seq<int>, bigEndian: bool) returns (p: nat)
    requires IsPixel(pixel, 4) && start + 4 * width <= dst.Length
    modifies dst
    ensures p == start + 4 * width && RowFilled(old(dst[..]), dst[..], Repeated(pixel), start, 4 * width)
  {
    ghost var s, pat := dst[..], Repeated(pixel);
    var c4 := LoadWord(pixel, bigEndian);
    WordRepeats32(pixel, bigEndian);
    NothingFilled(s, pat, start);
    var stragglers := width % 16;
    var blocks := (width - stragglers) / 16;
    p := start;
    p := PutStragglers(dst, p, stragglers, c4, bigEndian, s, pat, start);
    for b := 0 to blocks
      invariant p == start + 4 * (stragglers + 16 * b) && RowFilled(s, dst[..], pat, start, 4 * (stragglers + 16 * b))
    {
      p := PutSixteen(dst, p, c4, bigEndian, s, pat, start, stragglers + 16 * b);
    }
  }

  method PutStragglers(dst: array<int>, at: nat, count: nat, word: int, bigEndian: bool,
                       ghost s: seq<int>, ghost pat: nat -> int, ghost start: int) returns (p: nat)
    requires at == start && RowFilled(s, dst[..], pat, start, 0) && at + 4 * count <= |s|
    requires forall k :: WordAt(word, bigEndian, pat, 0, k)
    modifies dst
    ensures p == at + 4 * count && RowFilled(s, dst[..], pat, start, 4 * count)
  {
    p := at;
    for i := 0 to count
      invariant p == at + 4 * i && RowFilled(s, dst[..], pat, start, 4 * i)
    {
      p := PutWord(dst, p, word, bigEndian, s, pat, start, 0, i);
    }
  }

  /** Sixteen unrolled stores. */
  method PutSixteen(dst: array<int>, at: nat, word: int, bigEndian: bool,
                    ghost s: seq<int>, ghost pat: nat -> int, ghost start: int, ghost j: nat) returns (p: nat)
    requires at == start + 4 * j && RowFilled(s, dst[..], pat, start, 4 * j) && at + 64 <= |s|
    requires forall k :: WordAt(word, bigEndian, pat, 0, k)
    modifies dst
    ensures p == at + 64 && RowFilled(s, dst[..], pat, start, 4 * (j + 16))
  {
    p := PutFour(dst, at, word, bigEndian, s, pat, start, 0, j);
    p := PutFour(dst, p, word, bigEndian, s, pat, start, 0, j + 4);
    p := PutFour(dst, p, word, bigEndian, s, pat, start, 0, j + 8);
    p := PutFour(dst, p, word, bigEndian, s, pat, start, 0, j + 12);
  }

  /** The rows still to be filled make up the rest of the whole fill. */
  ghost predicate Remaining(whole: seq<int>, t: seq<int>, pat: nat -> int, start: int, width: nat, height: nat, stride: int) {
    RowsFit(|t|, start, width, height, stride) && whole == MapRows(Filling(pat), t, start, width, height, stride)
  }

  lemma RowDone(whole: seq<int>, s: seq<int>, t: seq<int>, pat: nat -> int, start: int, width: nat, height: nat, stride: int)
    requires height > 0 && Remaining(whole, s, pat, start, width, height, stride) && RowFilled(s, t, pat, start, width)
    ensures Remaining(whole, t, pat, start + stride, width, height - 1, stride)
  {}

  /** Fill a rectangle of 32-bit pixels. */
  method FillColor32(dst: array<int>, start: int, width: nat, height: nat, bump: int, pixel: seq<int>, bigEndian: bool)
    requires IsPixel(pixel, 4) && height > 0 && RowsFit(dst.Length, start, 4 * width, height, 4 * width + bump)
    modifies dst
    ensures dst[..] == MapRows(Filling(Repeated(pixel)), old(dst[..]), start, 4 * width, height, 4 * width + bump)
  {
    ghost var pat, whole := Repeated(pixel), MapRows(Filling(Repeated(pixel)), dst[..], start, 4 * width, height, 4 * width + bump);
    var p, h := start, height;
    while h != 0
      invariant 0 <= h && Remaining(whole, dst[..], pat, p, 4 * width, h, 4 * width + bump)
    {
      ghost var s, p0 := dst[..], p;
      p := FillRow32(dst, p, width, pixel, bigEndian);
      RowDone(whole, s, dst[..], pat, p0, 4 * width, h, 4 * width + bump);
      p := p + bump;
      h := h - 1;
    }
  }

  // ---------------------------------------------------------------- 16-bit pixels

  /** Two pixels in one word. */
  function TwoPixels(pixel: seq<int>, bigEndian: bool): int
    requires |pixel| == 2
  {
    var c2 := if bigEndian then 256 * pixel[0] + pixel[1] else pixel[0] + 256 * pixel[1];
    65536 * c2 + c2
  }

  lemma WordRepeats16(pixel: seq<int>, bigEndian: bool, lead: nat)
    requires IsPixel(pixel, 2) && lead % 2 == 0
    ensures forall k :: WordAt(TwoPixels(pixel, bigEndian), bigEndian, Repeated(pixel), lead, k)
  {
    var word := TwoPixels(pixel, bigEndian);
    TwoPixelBytes(pixel, bigEndian);
    forall k: nat
      ensures WordAt(word, bigEndian, Repeated(pixel), lead, k)
    {
      FourBytes(word, bigEndian, pixel, lead / 2 + 2 * k, 0, lead, k);
    }
  }

  lemma TwoPixelBytes(pixel: seq<int>, bigEndian: bool)
    requires IsPixel(pixel, 2)
    ensures WordBytes(TwoPixels(pixel, bigEndian), bigEndian) == [pixel[0], pixel[1], pixel[0], pixel[1]]
  {
    if bigEndian {
      assert TwoPixels(pixel, true) == Word(pixel[1], pixel[0], pixel[1], pixel[0]);
      WordBytesOf(pixel[1], pixel[0], pixel[1], pixel[0]);
    } else {
      assert TwoPixels(pixel, false) == Word(pixel[0], pixel[1], pixel[0], pixel[1]);
      WordBytesOf(pixel[0], pixel[1], pixel[0], pixel[1]);
    }
  }

  lemma PixelContinues(pixel: seq<int>, pixels: nat, m: nat)
    requires PixelSize(|pixel|) && (|pixel| == 2 ==> m == 2 * pixels) && (|pixel| == 3 ==> m == 3 * pixels) && (|pixel| == 4 ==> m == 4 * pixels)
    ensures Continues(pixel, Repeated(pixel), m)
  {
    forall i | 0 <= i < |pixel|
      ensures pixel[i] == Repeated(pixel)(m + i)
    {
      RepeatsBy(pixel, pixels, m, i);
      CycleStarts(pixel, i);
    }
  }

  lemma CycleStarts(pixel: seq<int>, i: nat)
    requires PixelSize(|pixel|) && i < |pixel|
    ensures Cycle(pixel, i) == pixel[i]
  {}

  /** Single words to a multiple of eight, then blocks of eight. */
  method PutWords16(dst: array<int>, at: nat, count: nat, twoPixels: int, bigEndian: bool,
                    ghost s: seq<int>, ghost pat: nat -> int, ghost start: int, ghost lead: nat) returns (p: nat)
    requires at == start + lead && RowFilled(s, dst[..], pat, start, lead) && at + 4 * count <= |s|
    requires forall k :: WordAt(twoPixels, bigEndian, pat, lead, k)
    modifies dst
    ensures p == at + 4 * count && RowFilled(s, dst[..], pat, start, lead + 4 * count)
  {
    var width2 := count;
    p := at;
    ghost var j := 0;
    while width2 % 8 != 0
      invariant 0 <= width2 && j + width2 == count
      invariant p == at + 4 * j && RowFilled(s, dst[..], pat, start, lead + 4 * j)
    {
      p := PutWord(dst, p, twoPixels, bigEndian, s, pat, start, lead, j);
      width2 := width2 - 1;
      j := j + 1;
    }
    width2 := width2 / 8;
    while width2 != 0
      invariant 0 <= width2 && j + 8 * width2 == count
      invariant p == at + 4 * j && RowFilled(s, dst[..], pat, start, lead + 4 * j)
    {
      p := PutFour(dst, p, twoPixels, bigEndian, s, pat, start, lead, j);
      p := PutFour(dst, p, twoPixels, bigEndian, s, pat, start, lead, j + 4);
      width2 := width2 - 1;
      j := j + 8;
    }
  }

  /** One more pixel, byte by byte, after some pixels of the row. */
  method PutPixel(dst: array<int>, at: nat, pixel: seq<int>, ghost s: seq<int>, ghost start: int, ghost pixels: nat, ghost m: nat)
      returns (p: nat)
    requires IsPixel(pixel, 2) && m == 2 * pixels && at == start + m && at + 2 <= |s|
    requires RowFilled(s, dst[..], Repeated(pixel), start, m)
    modifies dst
    ensures p == at + 2 && RowFilled(s, dst[..], Repeated(pixel), start, m + 2)
  {
    PixelContinues(pixel, pixels, m);
    p := PutBytes(dst, at, pixel, s, Repeated(pixel), start, m);
  }

  /** One row of fillColor16: a first pixel up to a word boundary, single words to a
      multiple of eight, blocks of eight words, and a last pixel. */
  method FillRow16(dst: array<int>, base: int, start: nat, width: nat, pixel: seq<int>, bigEndian: bool) returns (p: nat)
    requires IsPixel(pixel, 2) && width > 0 && start + 2 * width <= dst.Length
    modifies dst
    ensures p == start + 2 * width && RowFilled(old(dst[..]), dst[..], Repeated(pixel), start, 2 * width)
  {
    ghost var s := dst[..];
    NothingFilled(s, Repeated(pixel), start);
    p := start;
    var w := width;
    if (base + p) / 2 % 2 == 1 {
      p := PutPixel(dst, p, pixel, s, start, 0, 0);
      w := w - 1;
    }
    p := FillAligned16(dst, p, w, pixel, bigEndian, s, start, width - w);
  }

  /** The rest of the row, after the pixels before the word boundary. */
  method FillAligned16(dst: array<int>, at: nat, w: nat, pixel: seq<int>, bigEndian: bool, ghost s: seq<int>, ghost start: int, ghost done: nat)
      returns (p: nat)
    requires IsPixel(pixel, 2) && at == start + 2 * done && at + 2 * w <= |s|
    requires RowFilled(s, dst[..], Repeated(pixel), start, 2 * done)
    modifies dst
    ensures p == at + 2 * w && RowFilled(s, dst[..], Repeated(pixel), start, 2 * (done + w))
  {
    var twoPixels := TwoPixels(pixel, bigEndian);
    WordRepeats16(pixel, bigEndian, 2 * done);
    var width2 := w / 2;
    p := PutWords16(dst, at, width2, twoPixels, bigEndian, s, Repeated(pixel), start, 2 * done);
    if w % 2 == 1 {
      p := PutPixel(dst, p, pixel, s, start, done + 2 * width2, 2 * done + 4 * width2);
    }
  }

  /** Fill a rectangle of 16-bit pixels, at any alignment of the buffer's base address. */
  method FillColor16(dst: array<int>, base: int, start: int, width: nat, height: nat, bump: int, pixel: seq<int>, bigEndian: bool)
    requires IsPixel(pixel, 2) && width > 0 && height > 0 && RowsFit(dst.Length, start, 2 * width, height, 2 * width + bump)
    modifies dst
    ensures dst[..] == MapRows(Filling(Repeated(pixel)), old(dst[..]), start, 2 * width, height, 2 * width + bump)
  {
    ghost var pat, whole := Repeated(pixel), MapRows(Filling(Repeated(pixel)), dst[..], start, 2 * width, height, 2 * width + bump);
    var p, h := start, height;
    while h != 0
      invariant 0 <= h && Remaining(whole, dst[..], pat, p, 2 * width, h, 2 * width + bump)
    {
      ghost var s, p0 := dst[..], p;
      p := FillRow16(dst, base, p, width, pixel, bigEndian);
      RowDone(whole, s, dst[..], pat, p0, 2 * width, h, 2 * width + bump);
      p := p + bump;
      h := h - 1;
    }
  }

  // ---------------------------------------------------------------- 24-bit pixels

  /** The three words that hold four pixels. */
  function ThreeWords(c: seq<int>, bigEndian: bool): (int, int, int)
    requires |c| == 3
  {
    if bigEndian then (Word(c[0], c[2], c[1], c[0]), Word(c[1], c[0], c[2], c[1]), Word(c[2], c[1], c[0], c[2]))
    else (Word(c[0], c[1], c[2], c[0]), Word(c[1], c[2], c[0], c[1]), Word(c[2], c[0], c[1], c[2]))
  }

  lemma WordsRepeat24(c: seq<int>, bigEndian: bool, b: nat)
    requires IsPixel(c, 3)
    ensures var (p0, p1, p2) := ThreeWords(c, bigEndian);
            && WordAt(p0, bigEndian, Repeated(c), 0, 3 * b)
            && WordAt(p1, bigEndian, Repeated(c), 0, 3 * b + 1)
            && WordAt(p2, bigEndian, Repeated(c), 0, 3 * b + 2)
  {
    var (p0, p1, p2) := ThreeWords(c, bigEndian);
    ThreeWordBytes(c, bigEndian);
    FourBytes(p0, bigEndian, c, 4 * b, 0, 0, 3 * b);
    FourBytes(p1, bigEndian, c, 4 * b + 1, 1, 0, 3 * b + 1);
    FourBytes(p2, bigEndian, c, 4 * b + 2, 2, 0, 3 * b + 2);
  }

  lemma ThreeWordBytes(c: seq<int>, bigEndian: bool)
    requires IsPixel(c, 3)
    ensures var (p0, p1, p2) := ThreeWords(c, bigEndian);
            && WordBytes(p0, bigEndian) == [c[0], c[1], c[2], c[0]]
            && WordBytes(p1, bigEndian) == [c[1], c[2], c[0], c[1]]
            && WordBytes(p2, bigEndian) == [c[2], c[0], c[1], c[2]]
  {
    if bigEndian {
      WordBytesOf(c[0], c[2], c[1], c[0]);
      WordBytesOf(c[1], c[0], c[2], c[1]);
      WordBytesOf(c[2], c[1], c[0], c[2]);
    } else {
      WordBytesOf(c[0], c[1], c[2], c[0]);
      WordBytesOf(c[1], c[2], c[0], c[1]);
      WordBytesOf(c[2], c[0], c[1], c[2]);
    }
  }

  /** Four pixels, as three words. */
  method PutFourPixels(dst: array<int>, at: nat, c: seq<int>, bigEndian: bool, ghost s: seq<int>, ghost start: int, ghost b: nat) returns (p: nat)
    requires IsPixel(c, 3) && at == start + 12 * b && RowFilled(s, dst[..], Repeated(c), start, 12 * b) && at + 12 <= |s|
    modifies dst
    ensures p == at + 12 && RowFilled(s, dst[..], Repeated(c), start, 12 * (b + 1))
  {
    var (p0, p1, p2) := ThreeWords(c, bigEndian);
    ghost var pat := Repeated(c);
    WordsRepeat24(c, bigEndian, b);
    p := PutWord(dst, at, p0, bigEndian, s, pat, start, 0, 3 * b);
    p := PutWord(dst, p, p1, bigEndian, s, pat, start, 0, 3 * b + 1);
    p := PutWord(dst, p, p2, bigEndian, s, pat, start, 0, 3 * b + 2);
  }

  /** Sixteen pixels, as four times three words. */
  method PutSixteenPixels(dst: array<int>, at: nat, c: seq<int>, bigEndian: bool, ghost s: seq<int>, ghost start: int, ghost b: nat)
      returns (p: nat)
    requires IsPixel(c, 3) && at == start + 48 * b && RowFilled(s, dst[..], Repeated(c), start, 48 * b) && at + 48 <= |s|
    modifies dst
    ensures p == at + 48 && RowFilled(s, dst[..], Repeated(c), start, 48 * (b + 1))
  {
    p := PutFourPixels(dst, at, c, bigEndian, s, start, 4 * b);
    p := PutFourPixels(dst, p, c, bigEndian, s, start, 4 * b + 1);
    p := PutFourPixels(dst, p, c, bigEndian, s, start, 4 * b + 2);
    p := PutFourPixels(dst, p, c, bigEndian, s, start, 4 * b + 3);
  }

  /** The pixels that do not fill a block, byte by byte. */
  method PutPixels24(dst: array<int>, at: nat, count: nat, c: seq<int>, ghost s: seq<int>, ghost start: int, ghost first: nat) returns (p: nat)
    requires IsPixel(c, 3) && at == start + 3 * first && RowFilled(s, dst[..], Repeated(c), start, 3 * first) && at + 3 * count <= |s|
    modifies dst
    ensures p == at + 3 * count && RowFilled(s, dst[..], Repeated(c), start, 3 * (first + count))
  {
    p := at;
    for i := 0 to count
      invariant p == at + 3 * i && RowFilled(s, dst[..], Repeated(c), start, 3 * (first + i))
    {
      PixelContinues(c, first + i, 3 * (first + i));
      p := PutBytes(dst, p, c, s, Repeated(c), start, 3 * (first + i));
    }
  }

  /** The blocks of sixteen pixels. */
  method PutBlocks24(dst: array<int>, start: nat, blocks: nat, c: seq<int>, bigEndian: bool, ghost s: seq<int>) returns (p: nat)
    requires IsPixel(c, 3) && RowFilled(s, dst[..], Repeated(c), start, 0) && start + 48 * blocks <= |s|
    modifies dst
    ensures p == start + 48 * blocks && RowFilled(s, dst[..], Repeated(c), start, 48 * blocks)
  {
    p := start;
    for b := 0 to blocks
      invariant p == start + 48 * b && RowFilled(s, dst[..], Repeated(c), start, 48 * b)
    {
      p := PutSixteenPixels(dst, p, c, bigEndian, s, start, b);
    }
  }

  /** One row of fillColor24: blocks of sixteen pixels, then single pixels. */
  method FillRow24(dst: array<int>, start: nat, blocks: nat, stragglers: nat, c: seq<int>, bigEndian: bool) returns (p: nat)
    requires IsPixel(c, 3) && start + 3 * (16 * blocks + stragglers) <= dst.Length
    modifies dst
    ensures p == start + 3 * (16 * blocks + stragglers)
    ensures RowFilled(old(dst[..]), dst[..], Repeated(c), start, 3 * (16 * blocks + stragglers))
  {
    ghost var s := dst[..];
    NothingFilled(s, Repeated(c), start);
    p := PutBlocks24(dst, start, blocks, c, bigEndian, s);
    p := PutPixels24(dst, p, stragglers, c, s, start, 16 * blocks);
  }

  /** Fill a rectangle of 24-bit pixels: in words where the first row is aligned or the
      hardware stores misaligned words, byte by byte otherwise. */
  method FillColor24(dst: array<int>, base: int, start: int, width: nat, height: nat, bump: int, pixel: seq<int>,
                     bigEndian: bool, misalignedStores: bool)
    requires IsPixel(pixel, 3) && RowsFit(dst.Length, start, 3 * width, height, 3 * width + bump)
    modifies dst
    ensures dst[..] == MapRows(Filling(Repeated(pixel)), old(dst[..]), start, 3 * width, height, 3 * width + bump)
  {
    ghost var pat, whole := Repeated(pixel), MapRows(Filling(Repeated(pixel)), dst[..], start, 3 * width, height, 3 * width + bump);
    var stragglers := width % 16;
    var blocks := (width - stragglers) / 16;
    if !misalignedStores && (base + start) % 4 != 0 {
      stragglers, blocks := width, 0;
    }
    var p, h := start, height;
    while h != 0
      invariant 0 <= h && Remaining(whole, dst[..], pat, p, 3 * width, h, 3 * width + bump)
    {
      p := NextRow24(dst, p, width, h, bump, blocks, stragglers, pixel, bigEndian, whole);
      h := h - 1;
    }
  }

  method NextRow24(dst: array<int>, at: int, width: nat, h: nat, bump: int, blocks: nat, stragglers: nat, pixel: seq<int>,
                   bigEndian: bool, ghost whole: seq<int>) returns (p: int)
    requires IsPixel(pixel, 3) && h > 0 && width == 16 * blocks + stragglers
    requires Remaining(whole, dst[..], Repeated(pixel), at, 3 * width, h, 3 * width + bump)
    modifies dst
    ensures Remaining(whole, dst[..], Repeated(pixel), p, 3 * width, h - 1, 3 * width + bump)
  {
    ghost var s := dst[..];
    p := FillRow24(dst, at, blocks, stragglers, pixel, bigEndian);
    RowDone(whole, s, dst[..], Repeated(pixel), at, 3 * width, h, 3 * width + bump);
    p := p + bump;
  }

  // ---------------------------------------------------------------- what is filled

  /** Exactly the bytes of the rectangle take the bytes of the pixel. */
  lemma FilledExactly(s: seq<int>, pixel: seq<int>, start: int, width: nat, height: nat, stride: int)
    requires PixelSize(|pixel|) && RowsFit(|s|, start, width, height, stride) && RowsApart(width, stride)
    ensures var t := MapRows(Filling(Repeated(pixel)), s, start, width, height, stride);
            && |t| == |s|
            && forall q :: 0 <= q < |s| ==>
                 t[q] == if InRows(q, start, width, height, stride) then Cycle(pixel, Offset(q, start, width, height, stride)) else s[q]
  {
    MapRowsMapped(Filling(Repeated(pixel)), s, start, width, height, stride);
  }
}
