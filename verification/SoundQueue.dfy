/** What a sound channel's queue of compressed blocks means: the blocks as values, and
    what one pass of the decoder takes from the block at the front. */
module SoundQueue {
  import opened MachineInt

  type Byte = bv8

  /** A block's frame sizes: one per frame, or none given. */
  datatype Sizes = Uniform | Each(sizes: seq<nat>)

  datatype Entry = Entry(data: seq<Byte>, silent: bool, frameCount: nat, samplesPerFrame: nat, sizes: Sizes, skip: int)

  function Sum(s: seq<nat>): nat {
    if s == [] then 0 else s[0] + Sum(s[1..])
  }

  predicate ValidEntry(e: Entry) {
    && |e.data| < TWO32 && e.frameCount < TWO32 && e.samplesPerFrame < TWO32 && InS32(e.skip)
    && (e.sizes.Each? ==> |e.sizes.sizes| == e.frameCount && Sum(e.sizes.sizes) <= |e.data|)
    && (e.silent ==> e.data == [])
  }

  predicate ValidQueue(q: seq<Entry>) {
    forall i :: 0 <= i < |q| ==> ValidEntry(q[i])
  }

  // ---------------------------------------------------------------- the slice

  /** The block holds more samples than were asked for, by the code's 32-bit test. */
  predicate Slices(e: Entry, requested: nat) {
    U32(e.frameCount * e.samplesPerFrame) > requested && e.frameCount > 1
  }

  /** The frame count of a slice is computed without wrapping around. */
  predicate Bounded(e: Entry, requested: nat) {
    Slices(e, requested) ==> requested + e.samplesPerFrame <= TWO32
  }

  function KeptFrames(e: Entry, requested: nat): nat {
    if Slices(e, requested) && e.samplesPerFrame > 0 then FramesFor(requested, e.samplesPerFrame) else e.frameCount
  }

  /** How many frames of this size the samples need, in 32 bits. */
  function FramesFor(samples: nat, size: nat): nat
    requires size > 0
  {
    U32(samples + size - 1) / size
  }

  lemma CeilingDivision(a: nat, s: nat, f: nat)
    requires 0 < a && 0 < s && a < f * s
    ensures 1 <= (a + s - 1) / s <= f
    ensures ((a + s - 1) / s - 1) * s < a <= (a + s - 1) / s * s
  {
    var k := (a + s - 1) / s;
    FloorBounds(a + s - 1, s);
    OneMore(s, k - 1);
    if k > f {
      MulMonotone(s, f + 1, k);
      OneMore(s, f);
    }
    if k < 1 {
      MulMonotone(s, k, 0);
    }
  }

  /** The frame count of a slice comes out zero exactly when its sum wraps around; the loop
      that takes the later frames off then runs past the first one. */
  lemma ZeroFramesExactly(e: Entry, requested: nat)
    requires ValidEntry(e) && Slices(e, requested) && 0 < requested < TWO32
    ensures e.samplesPerFrame > 0 && (KeptFrames(e, requested) == 0 <==> !Bounded(e, requested))
  {
    Product(e.frameCount, e.samplesPerFrame);
    WrapsDown(e.frameCount * e.samplesPerFrame);
    assert e.samplesPerFrame > 0;
    var sum := requested + e.samplesPerFrame - 1;
    if Bounded(e, requested) {
      KeptFramesCover(e, requested);
    } else {
      assert U32(sum) == sum - TWO32;
      FloorUnique(U32(sum), e.samplesPerFrame, 0);
    }
  }

  /** Such a block and request: two frames of 0xC0000000 samples, asked for 0x40000001. */
  lemma ZeroFramesReachable()
    ensures var e := Entry([], false, 2, 0xC000_0000, Uniform, 0);
            && ValidEntry(e) && Slices(e, 0x4000_0001) && !Bounded(e, 0x4000_0001) && KeptFrames(e, 0x4000_0001) == 0
  {}

  /** A slice holds just enough whole frames for the request, at least one; and a wrapped
      product never makes it longer than the block. */
  lemma KeptFramesCover(e: Entry, requested: nat)
    requires ValidEntry(e) && 0 < requested && Bounded(e, requested)
    ensures KeptFrames(e, requested) <= e.frameCount
    ensures e.frameCount > 0 ==> KeptFrames(e, requested) >= 1
    ensures Slices(e, requested) ==>
              var k := KeptFrames(e, requested);
              (k - 1) * e.samplesPerFrame < requested <= k * e.samplesPerFrame
    ensures e.frameCount > 1 && requested < e.frameCount * e.samplesPerFrame < TWO32 ==> Slices(e, requested)
  {
    if Slices(e, requested) {
      Product(e.frameCount, e.samplesPerFrame);
      WrapsDown(e.frameCount * e.samplesPerFrame);
      CeilingDivision(requested, e.samplesPerFrame, e.frameCount);
    }
  }

  /** A slice is part of the block, and not empty. */
  lemma KeptFramesWithin(e: Entry, requested: nat)
    requires ValidEntry(e) && 0 < requested && Bounded(e, requested)
    ensures KeptFrames(e, requested) <= e.frameCount && (e.frameCount > 0 ==> KeptFrames(e, requested) >= 1)
  {
    KeptFramesCover(e, requested);
  }

  /** The bytes of the frames from the k-th on, which the slice leaves behind. */
  function TailBytes(e: Entry, k: nat): nat
    requires ValidEntry(e) && k <= e.frameCount
  {
    if k == e.frameCount then 0
    else match e.sizes
      case Uniform => UniformTail(|e.data|, e.frameCount, k)
      case Each(s) => Sum(s[k..])
  }

  lemma {:induction false} SumSplits(s: seq<nat>, k: nat)
    requires k <= |s|
    ensures Sum(s) == Sum(s[..k]) + Sum(s[k..])
  {
    if k > 0 {
      SumSplits(s[1..], k - 1);
      assert s[..k][1..] == s[1..][..k - 1] && s[k..] == s[1..][k - 1..];
    } else {
      assert s[..k] == [] && s[k..] == s;
    }
  }

  /** What f - k of f equal frames of n bytes take. */
  function UniformTail(n: nat, f: nat, k: nat): (t: nat)
    requires 0 < f && k <= f
    ensures t <= n
  {
    var size := n / f;
    FloorBounds(n, f);
    MulMonotone(size, f - k, f);
    MulMonotone(size, 0, f - k);
    (f - k) * size
  }

  lemma UniformTailExact(n: nat, f: nat, k: nat)
    requires 0 < f && k <= f && n == f * (n / f)
    ensures n - UniformTail(n, f, k) == k * (n / f)
  {
    assert (f - k) * (n / f) == f * (n / f) - k * (n / f);
  }

  lemma TailFits(e: Entry, k: nat)
    requires ValidEntry(e) && k <= e.frameCount
    ensures TailBytes(e, k) <= |e.data|
  {
    if k < e.frameCount {
      match e.sizes
      case Uniform =>
      case Each(s) => SumSplits(s, k);
    }
  }

  /** The length of the slice handed to the decoder. */
  function SliceBytes(e: Entry, k: nat): (n: nat)
    requires ValidEntry(e) && k <= e.frameCount
    ensures n <= |e.data|
  {
    TailFits(e, k);
    |e.data| - TailBytes(e, k)
  }

  /** The sizes account for all the bytes of the block. */
  predicate Exact(e: Entry) {
    match e.sizes
    case Uniform => e.frameCount > 0 ==> |e.data| == e.frameCount * (|e.data| / e.frameCount)
    case Each(s) => |e.data| == Sum(s)
  }

  /** Then a slice of k frames is exactly the bytes of the first k frames. */
  lemma SliceIsWholeFrames(e: Entry, k: nat)
    requires ValidEntry(e) && Exact(e) && k <= e.frameCount
    ensures match e.sizes
            case Uniform => k > 0 ==> SliceBytes(e, k) == k * (|e.data| / e.frameCount)
            case Each(s) => SliceBytes(e, k) == Sum(s[..k])
  {
    match e.sizes
    case Uniform =>
      if k > 0 { UniformTailExact(|e.data|, e.frameCount, k); }
    case Each(s) =>
      SumSplits(s, k);
      if k == e.frameCount {
        assert s[..k] == s;
      }
  }

  // ---------------------------------------------------------------- skipping

  /** What the decoder did with a slice. */
  datatype Answer = Failed | Output(samples: nat, rate: nat)

  predicate ValidAnswer(a: Answer) { a.Output? ==> InU32(a.samples) && 0 < a.rate < TWO32 }

  /** Decoded samples dropped from the front of the output for a pending skip. */
  function Dropped(skip: int, samples: nat, inRate: nat, rate: nat): nat
    requires 0 < inRate
  {
    if skip > 0 then
      var wanted := U32(skip * rate) / inRate;
      if wanted > samples then samples else wanted
    else 0
  }

  /** What dropping them takes off the pending skip, counted at the input rate. */
  function Consumed(dropped: nat, inRate: nat, rate: nat): nat
    requires 0 < rate
  {
    U32(dropped * inRate) / rate
  }

  function SkipLeft(skip: int, a: Answer, inRate: nat): int
    requires 0 < inRate && ValidAnswer(a)
  {
    if a.Failed? || skip <= 0 then skip
    else skip - Consumed(Dropped(skip, a.samples, inRate, a.rate), inRate, a.rate)
  }

  lemma DivideAtMost(a: nat, b: nat, d: nat)
    requires 0 < d && a <= d * b
    ensures a / d <= b
  {
    FloorBounds(a, d);
    if a / d > b {
      MulMonotone(d, b + 1, a / d);
      OneMore(d, b);
    }
  }

  /** The samples dropped, turned back into a product with the input rate, fit in what the
      32-bit product kept. */
  lemma DroppedFits(skip: int, samples: nat, inRate: nat, rate: nat)
    requires 0 < inRate && 0 < rate && 0 < skip
    ensures 0 <= Dropped(skip, samples, inRate, rate) * inRate <= U32(skip * rate) <= skip * rate
  {
    var p := skip * rate;
    Product(skip, rate);
    WrapsDown(p);
    var d, wanted := Dropped(skip, samples, inRate, rate), U32(p) / inRate;
    FloorBounds(U32(p), inRate);
    MulMonotone(inRate, d, wanted);
    Product(d, inRate);
  }

  lemma Product(a: nat, b: nat)
    ensures a * b >= 0
  {}

  lemma WrapsDown(p: nat)
    ensures U32(p) <= p
  {}

  /** A skip never goes below zero, whatever the rates and even where 32 bits wrap. */
  lemma SkipStaysPositive(skip: int, a: Answer, inRate: nat)
    requires 0 < inRate < TWO32 && ValidAnswer(a) && InS32(skip)
    ensures skip > 0 ==> 0 <= SkipLeft(skip, a, inRate) <= skip
    ensures skip <= 0 ==> SkipLeft(skip, a, inRate) == skip
  {
    if skip > 0 && a.Output? {
      var d := Dropped(skip, a.samples, inRate, a.rate);
      DroppedFits(skip, a.samples, inRate, a.rate);
      WrapsDown(d * inRate);
      DivideAtMost(U32(d * inRate), skip, a.rate);
    }
  }

  lemma QuotientOfProduct(d: nat, rate: nat)
    requires 0 < rate && d * rate < TWO32
    ensures Consumed(d, rate, rate) == d
  {
    Product(d, rate);
    assert U32(d * rate) == d * rate;
    FloorUnique(d * rate, rate, d);
  }

  /** At equal rates what is dropped is exactly what the skip loses, even where the
      product with the rate wraps. */
  lemma EqualRatesConserve(skip: int, a: Answer, rate: nat)
    requires a.Output? && ValidAnswer(a) && a.rate == rate && InS32(skip)
    ensures SkipLeft(skip, a, rate) == skip - Dropped(skip, a.samples, rate, rate)
  {
    if skip > 0 {
      DroppedFits(skip, a.samples, rate, rate);
      QuotientOfProduct(Dropped(skip, a.samples, rate, rate), rate);
    }
  }

  /** A skip asks for samples to be dropped, or for silence when it is negative. When the
      output reaches past it, the asked-for number of samples comes out exactly when the
      skip is not negative: no silence is put in. */
  lemma SkipHonouredExactly(skip: int, samples: nat, rate: nat)
    requires 0 < rate < TWO32 && InS32(skip) && skip * rate < TWO32 && skip <= samples
    ensures samples - Dropped(skip, samples, rate, rate) == samples - skip <==> skip >= 0
  {
    if skip > 0 {
      FloorUnique(skip * rate, rate, skip);
      Product(skip, rate);
      assert U32(skip * rate) == skip * rate;
    }
  }

  /** Whatever the decoder answers, a negative skip drops nothing and stays pending. */
  lemma NegativeSkipStays(skip: int, a: Answer, inRate: nat)
    requires 0 < inRate && ValidAnswer(a) && skip < 0
    ensures SkipLeft(skip, a, inRate) == skip
    ensures a.Output? ==> Dropped(skip, a.samples, inRate, a.rate) == 0
  {}

  /** Five samples of silence asked for, ten decoded, and ten come out. */
  lemma SilenceNotInserted()
    ensures 10 - Dropped(-5, 10, 44100, 44100) == 10 && SkipLeft(-5, Output(10, 44100), 44100) == -5
  {}

  // ---------------------------------------------------------------- one pass

  /** The front block after k of its frames went to the decoder. */
  function Rest(e: Entry, k: nat, skip: int): (r: Entry)
    requires ValidEntry(e) && k <= e.frameCount
  {
    e.(data := e.data[SliceBytes(e, k)..], frameCount := e.frameCount - k, skip := skip,
       sizes := match e.sizes case Uniform => Uniform case Each(s) => Each(s[k..]))
  }

  /** A disposed block hands its pending skip to its successor. */
  function HandOver(q: seq<Entry>, skip: int): (r: seq<Entry>)
    ensures |r| == |q|
  {
    if q == [] || skip == 0 then q else q[0 := q[0].(skip := S32(q[0].skip + skip))]
  }

  /** What a pass takes out of the queue: the slice, bytes lost with a failed block,
      samples dropped, and a skip that found no successor. */
  datatype Pass = Pass(fed: seq<Byte>, frames: nat, lost: seq<Byte>, lostFrames: nat, dropped: nat, forfeited: int)

  predicate CanPass(q: seq<Entry>, requested: nat, inRate: nat, a: Answer) {
    && ValidQueue(q) && q != [] && 0 < requested && (!q[0].silent ==> Bounded(q[0], requested))
    && 0 < inRate < TWO32 && ValidAnswer(a)
  }

  /** k frames of the front block are done with, and left of its skip is still pending. */
  function Consume(q: seq<Entry>, k: nat, left: int): seq<Entry>
    requires q != [] && ValidEntry(q[0]) && k <= q[0].frameCount
  {
    if k == q[0].frameCount then HandOver(q[1..], left) else [Rest(q[0], k, left)] + q[1..]
  }

  function After(q: seq<Entry>, requested: nat, inRate: nat, a: Answer): seq<Entry>
    requires CanPass(q, requested, inRate, a)
  {
    var e := q[0];
    if e.silent || a.Failed? then HandOver(q[1..], e.skip)
    else
      KeptFramesWithin(e, requested);
      Consume(q, KeptFrames(e, requested), SkipLeft(e.skip, a, inRate))
  }

  function Taken(q: seq<Entry>, requested: nat, inRate: nat, a: Answer): Pass
    requires CanPass(q, requested, inRate, a)
  {
    var e := q[0];
    if e.silent then Pass([], 0, [], 0, 0, if |q| == 1 then e.skip else 0)
    else
      KeptFramesWithin(e, requested);
      var k := KeptFrames(e, requested);
      var n := SliceBytes(e, k);
      if a.Failed? then
        Pass(e.data[..n], k, e.data[n..], e.frameCount - k, 0, if |q| == 1 then e.skip else 0)
      else
        Pass(e.data[..n], k, [], 0, Dropped(e.skip, a.samples, inRate, a.rate),
             if k == e.frameCount && |q| == 1 then SkipLeft(e.skip, a, inRate) else 0)
  }

  /** Frames are lost exactly when a slice of part of a block fails to decode. */
  lemma LostExactly(q: seq<Entry>, requested: nat, inRate: nat, a: Answer)
    requires CanPass(q, requested, inRate, a)
    ensures Taken(q, requested, inRate, a).lostFrames > 0
            <==> !q[0].silent && a.Failed? && KeptFrames(q[0], requested) < q[0].frameCount
  {
    if !q[0].silent {
      KeptFramesWithin(q[0], requested);
    }
  }

  /** Such a pass: of two frames of 1000 samples a request for 500 decodes one, and when
      that fails the other goes with it. */
  lemma FrameLost()
    ensures var e := Entry([], false, 2, 1000, Uniform, 0);
            CanPass([e], 500, 44100, Failed) && Taken([e], 500, 44100, Failed).lostFrames == 1
            && After([e], 500, 44100, Failed) == []
  {
    var e := Entry([], false, 2, 1000, Uniform, 0);
    assert U32(2 * 1000) == 2000 && Slices(e, 500) && Bounded(e, 500);
    OneFrame();
    KeptFramesWithin(e, 500);
    LostExactly([e], 500, 44100, Failed);
  }

  lemma OneFrame()
    ensures FramesFor(500, 1000) == 1
  {}

  // ---------------------------------------------------------------- totals over the queue

  function Bytes(q: seq<Entry>): seq<Byte> {
    if q == [] then [] else q[0].data + Bytes(q[1..])
  }

  /** Frames still to be decoded; a silent block has none. */
  function Frames(q: seq<Entry>): nat {
    if q == [] then 0 else (if q[0].silent then 0 else q[0].frameCount) + Frames(q[1..])
  }

  function Skips(q: seq<Entry>): int {
    if q == [] then 0 else q[0].skip + Skips(q[1..])
  }

  /** Skips of either sign, added by magnitude: what hand-overs can add up to. */
  function Magnitude(q: seq<Entry>): nat {
    if q == [] then 0 else Abs(q[0].skip) + Magnitude(q[1..])
  }

  predicate Room(q: seq<Entry>) { Magnitude(q) < TWO31 }

  /** A bound on how many passes the queue still takes. */
  function Work(q: seq<Entry>): nat {
    if q == [] then 0 else q[0].frameCount + 1 + Work(q[1..])
  }

  lemma HandOverTotals(q: seq<Entry>, skip: int)
    requires Room(q) && Magnitude(q) + Abs(skip) < TWO31 && ValidQueue(q)
    ensures var r := HandOver(q, skip);
            && ValidQueue(r) && Bytes(r) == Bytes(q) && Frames(r) == Frames(q) && Work(r) == Work(q)
            && Skips(r) == Skips(q) + (if q == [] then 0 else skip) && Magnitude(r) <= Magnitude(q) + Abs(skip)
  {
    var r := HandOver(q, skip);
    if q != [] && skip != 0 {
      assert r[1..] == q[1..] && r[0] == q[0].(skip := S32(q[0].skip + skip));
      assert InS32(q[0].skip + skip);
    }
  }

  lemma RestIsValid(e: Entry, k: nat, skip: int)
    requires ValidEntry(e) && k <= e.frameCount && InS32(skip)
    ensures ValidEntry(Rest(e, k, skip))
    ensures e.data == e.data[..SliceBytes(e, k)] + Rest(e, k, skip).data
  {
    if e.sizes.Each? {
      SumSplits(e.sizes.sizes, k);
    }
  }

  /** The sizes left account for all the bytes left. */
  lemma RestIsExact(e: Entry, k: nat, skip: int)
    requires ValidEntry(e) && Exact(e) && 0 < k <= e.frameCount
    ensures Exact(Rest(e, k, skip))
  {
    match e.sizes
    case Uniform =>
      if k < e.frameCount {
        UniformTailExact(|e.data|, e.frameCount, k);
        FloorUnique(|Rest(e, k, skip).data|, e.frameCount - k, |e.data| / e.frameCount);
      }
    case Each(s) =>
      SumSplits(s, k);
  }

  /** One pass conserves everything: the bytes and frames the queue held are those the
      decoder was given, those a failed block lost, and those still queued, in order; and
      at equal rates the pending skip goes down by exactly the samples dropped, with
      nothing forfeited unless the last block of the queue is disposed. Every pass takes
      the queue closer to empty: it retires the block or decodes at least one frame. */
  lemma PassConserves(q: seq<Entry>, requested: nat, inRate: nat, a: Answer)
    requires CanPass(q, requested, inRate, a) && Room(q)
    ensures var r := After(q, requested, inRate, a);
            var p := Taken(q, requested, inRate, a);
            && ValidQueue(r) && Room(r)
            && Bytes(q) == p.fed + p.lost + Bytes(r)
            && Frames(q) == p.frames + p.lostFrames + Frames(r)
            && (a.Output? ==> p.lost == [] && p.lostFrames == 0)
            && ((a.Output? ==> a.rate == inRate) ==> Skips(q) == p.dropped + p.forfeited + Skips(r))
            && (|r| > 0 ==> p.forfeited == 0)
            && (|r| == |q| - 1 || (|r| == |q| && 1 <= p.frames))
            && Work(r) < Work(q)
  {
    if q[0].silent || a.Failed? {
      if !q[0].silent { KeptFramesWithin(q[0], requested); }
      HandOverTotals(q[1..], q[0].skip);
    } else {
      SliceConserves(q, requested, inRate, a);
    }
  }

  lemma SliceConserves(q: seq<Entry>, requested: nat, inRate: nat, a: Answer)
    requires CanPass(q, requested, inRate, a) && Room(q) && !q[0].silent && a.Output?
    ensures var r, p := After(q, requested, inRate, a), Taken(q, requested, inRate, a);
            && ValidQueue(r) && Room(r)
            && Bytes(q) == p.fed + p.lost + Bytes(r)
            && Frames(q) == p.frames + p.lostFrames + Frames(r)
            && (a.rate == inRate ==> Skips(q) == p.dropped + p.forfeited + Skips(r))
            && (|r| > 0 ==> p.forfeited == 0)
            && (|r| == |q| - 1 || (|r| == |q| && 1 <= p.frames))
            && Work(r) < Work(q)
  {
    var e, k, left := q[0], KeptFrames(q[0], requested), SkipLeft(q[0].skip, a, inRate);
    KeptFramesWithin(e, requested);
    SkipStaysPositive(e.skip, a, inRate);
    if a.rate == inRate {
      EqualRatesConserve(e.skip, a, inRate);
    }
    ConsumeTotals(q, k, left);
  }

  /** What is left when k frames of the front block are done with. */
  lemma ConsumeTotals(q: seq<Entry>, k: nat, left: int)
    requires ValidQueue(q) && Room(q) && q != [] && !q[0].silent && k <= q[0].frameCount && (q[0].frameCount > 0 ==> k > 0)
    requires InS32(left) && Abs(left) <= Abs(q[0].skip)
    ensures var r := Consume(q, k, left);
            && ValidQueue(r) && Room(r)
            && Bytes(q) == q[0].data[..SliceBytes(q[0], k)] + Bytes(r) && Frames(q) == k + Frames(r) && Work(r) < Work(q)
            && Skips(q) - q[0].skip + left == (if k == q[0].frameCount && |q| == 1 then left else 0) + Skips(r)
            && |r| == if k == q[0].frameCount then |q| - 1 else |q|
  {
    if k == q[0].frameCount {
      HandOverTotals(q[1..], left);
    } else {
      RestTotals(q, k, left);
    }
  }

  lemma RestTotals(q: seq<Entry>, k: nat, left: int)
    requires ValidQueue(q) && Room(q) && q != [] && !q[0].silent && 0 < k < q[0].frameCount
    requires InS32(left) && Abs(left) <= Abs(q[0].skip)
    ensures var r := [Rest(q[0], k, left)] + q[1..];
            && ValidQueue(r) && Room(r)
            && Bytes(q) == q[0].data[..SliceBytes(q[0], k)] + Bytes(r) && Frames(q) == k + Frames(r) && Work(r) < Work(q)
            && Skips(q) - q[0].skip + left == Skips(r)
  {
    RestIsValid(q[0], k, left);
    FrontTotals(q, q[0].data[..SliceBytes(q[0], k)], k, Rest(q[0], k, left));
  }

  /** The front block replaced by what is left of it. */
  lemma FrontTotals(q: seq<Entry>, fed: seq<Byte>, k: nat, e: Entry)
    requires ValidQueue(q) && Room(q) && q != [] && ValidEntry(e) && !q[0].silent && !e.silent
    requires q[0].data == fed + e.data && q[0].frameCount == k + e.frameCount && k > 0 && Abs(e.skip) <= Abs(q[0].skip)
    ensures var r := [e] + q[1..];
            && ValidQueue(r) && Room(r)
            && Bytes(q) == fed + Bytes(r) && Frames(q) == k + Frames(r) && Work(r) < Work(q)
            && Skips(q) - q[0].skip + e.skip == Skips(r)
  {
    assert ([e] + q[1..])[1..] == q[1..];
    Associate(fed, e.data, Bytes(q[1..]));
  }

  // ---------------------------------------------------------------- whole runs

  /** A client enqueues a block, or the output asks for more samples. */
  datatype Event = Enqueue(entry: Entry) | More(requested: nat, answer: Answer)

  predicate Possible(q: seq<Entry>, ev: Event, inRate: nat) {
    match ev
    case Enqueue(e) => ValidEntry(e) && Room(q + [e])
    case More(requested, a) => q == [] || CanPass(q, requested, inRate, a)
  }

  function Next(q: seq<Entry>, ev: Event, inRate: nat): seq<Entry>
    requires Possible(q, ev, inRate)
  {
    match ev
    case Enqueue(e) => q + [e]
    case More(requested, a) => if q == [] then q else After(q, requested, inRate, a)
  }

  /** Every event of the run is possible in the state it meets. */
  predicate Run(q: seq<Entry>, evs: seq<Event>, inRate: nat)
    decreases |evs|
  {
    evs == [] || (Possible(q, evs[0], inRate) && Run(Next(q, evs[0], inRate), evs[1..], inRate))
  }

  function Final(q: seq<Entry>, evs: seq<Event>, inRate: nat): seq<Entry>
    requires Run(q, evs, inRate)
    decreases |evs|
  {
    if evs == [] then q else Final(Next(q, evs[0], inRate), evs[1..], inRate)
  }

  /** What one event takes out of the queue: nothing unless a block was passed over. */
  function TakenBy(q: seq<Entry>, ev: Event, inRate: nat): Pass
    requires Possible(q, ev, inRate)
  {
    if ev.More? && q != [] then Taken(q, ev.requested, inRate, ev.answer) else Pass([], 0, [], 0, 0, 0)
  }

  function Passes(q: seq<Entry>, evs: seq<Event>, inRate: nat): seq<Pass>
    requires Run(q, evs, inRate)
    decreases |evs|
  {
    if evs == [] then [] else [TakenBy(q, evs[0], inRate)] + Passes(Next(q, evs[0], inRate), evs[1..], inRate)
  }

  function EnqueuedBy(ev: Event): seq<Entry> { if ev.Enqueue? then [ev.entry] else [] }

  function Enqueued(evs: seq<Event>): seq<Entry> {
    if evs == [] then [] else EnqueuedBy(evs[0]) + Enqueued(evs[1..])
  }

  /** The decoder did not fail, and put out samples at the channel's own rate. */
  predicate SmoothEvent(ev: Event, inRate: nat) { ev.More? ==> ev.answer.Output? && ev.answer.rate == inRate }

  predicate Smooth(evs: seq<Event>, inRate: nat) {
    forall i :: 0 <= i < |evs| ==> SmoothEvent(evs[i], inRate)
  }

  function FedBytes(ps: seq<Pass>): seq<Byte> { if ps == [] then [] else ps[0].fed + FedBytes(ps[1..]) }

  function FedOrLost(ps: seq<Pass>): seq<Byte> {
    if ps == [] then [] else ps[0].fed + ps[0].lost + FedOrLost(ps[1..])
  }

  function FedFrames(ps: seq<Pass>): nat { if ps == [] then 0 else ps[0].frames + FedFrames(ps[1..]) }
  function LostFrames(ps: seq<Pass>): nat { if ps == [] then 0 else ps[0].lostFrames + LostFrames(ps[1..]) }
  function DroppedSamples(ps: seq<Pass>): nat { if ps == [] then 0 else ps[0].dropped + DroppedSamples(ps[1..]) }
  function Forfeited(ps: seq<Pass>): int { if ps == [] then 0 else ps[0].forfeited + Forfeited(ps[1..]) }

  lemma {:induction false} BytesJoin(q: seq<Entry>, r: seq<Entry>)
    ensures Bytes(q + r) == Bytes(q) + Bytes(r)
  {
    if q == [] {
      assert q + r == r;
    } else {
      BytesJoin(q[1..], r);
      assert (q + r)[1..] == q[1..] + r;
      Associate(q[0].data, Bytes(q[1..]), Bytes(r));
    }
  }

  lemma Associate(a: seq<Byte>, b: seq<Byte>, c: seq<Byte>)
    ensures a + (b + c) == a + b + c
  {}

  lemma {:induction false} CountsJoin(q: seq<Entry>, r: seq<Entry>)
    ensures Frames(q + r) == Frames(q) + Frames(r) && Skips(q + r) == Skips(q) + Skips(r)
  {
    if q == [] {
      assert q + r == r;
    } else {
      CountsJoin(q[1..], r);
      assert (q + r)[1..] == q[1..] + r;
    }
  }

  lemma TotalsJoin(q: seq<Entry>, r: seq<Entry>)
    ensures Bytes(q + r) == Bytes(q) + Bytes(r) && Frames(q + r) == Frames(q) + Frames(r)
    ensures Skips(q + r) == Skips(q) + Skips(r)
  {
    BytesJoin(q, r);
    CountsJoin(q, r);
  }

  /** One event conserves: what was queued and what it enqueues is what it takes out and
      what is queued after it. */
  lemma EventConserves(q: seq<Entry>, ev: Event, inRate: nat)
    requires Possible(q, ev, inRate) && ValidQueue(q) && Room(q)
    ensures var r, p := Next(q, ev, inRate), TakenBy(q, ev, inRate);
            && ValidQueue(r) && Room(r)
            && Bytes(q) + Bytes(EnqueuedBy(ev)) == (p.fed + p.lost) + Bytes(r)
            && Frames(q) + Frames(EnqueuedBy(ev)) == p.frames + p.lostFrames + Frames(r)
            && (SmoothEvent(ev, inRate) ==>
                  && p.lost == [] && p.lostFrames == 0
                  && Skips(q) + Skips(EnqueuedBy(ev)) == p.dropped + p.forfeited + Skips(r))
  {
    match ev
    case Enqueue(e) =>
      TotalsJoin(q, [e]);
    case More(requested, a) =>
      if q != [] {
        PassConserves(q, requested, inRate, a);
      }
  }

  lemma Chain(q: seq<Byte>, e: seq<Byte>, es: seq<Byte>, p: seq<Byte>, ps: seq<Byte>, next: seq<Byte>, r: seq<Byte>)
    requires q + e == p + next && next + es == ps + r
    ensures q + (e + es) == (p + ps) + r
  {
    assert q + (e + es) == (q + e) + es == (p + next) + es == p + (next + es) == p + (ps + r);
  }

  /** Over any run of enqueues and requests, bytes and frames are conserved in order: what
      the decoder was given, with what failed blocks lost at their place, followed by what
      is still queued, is what was queued and enqueued. */
  lemma {:induction false} RunConserves(q: seq<Entry>, evs: seq<Event>, inRate: nat)
    requires Run(q, evs, inRate) && ValidQueue(q) && Room(q)
    ensures var ps, r := Passes(q, evs, inRate), Final(q, evs, inRate);
            && Bytes(q) + Bytes(Enqueued(evs)) == FedOrLost(ps) + Bytes(r)
            && Frames(q) + Frames(Enqueued(evs)) == FedFrames(ps) + LostFrames(ps) + Frames(r)
    decreases |evs|
  {
    if evs != [] {
      var next, p := Next(q, evs[0], inRate), TakenBy(q, evs[0], inRate);
      EventConserves(q, evs[0], inRate);
      RunConserves(next, evs[1..], inRate);
      TotalsJoin(EnqueuedBy(evs[0]), Enqueued(evs[1..]));
      var ps, r := Passes(next, evs[1..], inRate), Final(next, evs[1..], inRate);
      Chain(Bytes(q), Bytes(EnqueuedBy(evs[0])), Bytes(Enqueued(evs[1..])), p.fed + p.lost, FedOrLost(ps), Bytes(next), Bytes(r));
      assert Passes(q, evs, inRate)[1..] == ps;
    }
  }

  /** The skips are conserved, and nothing is lost. */
  ghost predicate SkipsBalance(q: seq<Entry>, enqueued: seq<Entry>, ps: seq<Pass>, r: seq<Entry>) {
    && FedOrLost(ps) == FedBytes(ps) && LostFrames(ps) == 0
    && Skips(q) + Skips(enqueued) == DroppedSamples(ps) + Forfeited(ps) + Skips(r)
  }

  lemma BalanceExtends(q: seq<Entry>, es: seq<Entry>, p: Pass, next: seq<Entry>, enqueued: seq<Entry>, ps: seq<Pass>, r: seq<Entry>)
    requires SkipsBalance(next, enqueued, ps, r) && p.lost == [] && p.lostFrames == 0
    requires Skips(q) + Skips(es) == p.dropped + p.forfeited + Skips(next)
    ensures SkipsBalance(q, es + enqueued, [p] + ps, r)
  {
    TotalsJoin(es, enqueued);
    assert ([p] + ps)[1..] == ps;
  }

  lemma {:induction false} SkipsConserved(q: seq<Entry>, evs: seq<Event>, inRate: nat)
    requires Run(q, evs, inRate) && ValidQueue(q) && Room(q) && Smooth(evs, inRate)
    ensures SkipsBalance(q, Enqueued(evs), Passes(q, evs, inRate), Final(q, evs, inRate))
    decreases |evs|
  {
    if evs != [] {
      var next := Next(q, evs[0], inRate);
      EventConserves(q, evs[0], inRate);
      SkipsConserved(next, evs[1..], inRate);
      BalanceExtends(q, EnqueuedBy(evs[0]), TakenBy(q, evs[0], inRate), next, Enqueued(evs[1..]),
                     Passes(next, evs[1..], inRate), Final(next, evs[1..], inRate));
    }
  }

  /** When the decoder never fails and keeps the input rate, the slices it was given are
      exactly the enqueued bytes and frames up to those still queued, and the samples it
      dropped are exactly the skips asked for, up to those still pending or left over
      when the queue ran empty. */
  lemma SmoothRunConserves(q: seq<Entry>, evs: seq<Event>, inRate: nat)
    requires Run(q, evs, inRate) && ValidQueue(q) && Room(q) && Smooth(evs, inRate)
    ensures var ps, r := Passes(q, evs, inRate), Final(q, evs, inRate);
            && Bytes(q + Enqueued(evs)) == FedBytes(ps) + Bytes(r)
            && Frames(q + Enqueued(evs)) == FedFrames(ps) + Frames(r)
            && Skips(q + Enqueued(evs)) == DroppedSamples(ps) + Forfeited(ps) + Skips(r)
  {
    RunConserves(q, evs, inRate);
    SkipsConserved(q, evs, inRate);
    TotalsJoin(q, Enqueued(evs));
  }

  // ---------------------------------------------------------------- answering one request

  predicate NeverWraps(e: Entry, requested: nat) { !e.silent ==> requested + e.samplesPerFrame <= TWO32 }

  /** No slice of any queued block can wrap for a request of this size or smaller. */
  predicate AllBounded(q: seq<Entry>, requested: nat) {
    forall i :: 0 <= i < |q| ==> NeverWraps(q[i], requested)
  }

  lemma BoundedStays(q: seq<Entry>, requested: nat, request: nat, inRate: nat, a: Answer)
    requires CanPass(q, requested, inRate, a) && AllBounded(q, request)
    ensures AllBounded(After(q, requested, inRate, a), request)
  {
    var r := After(q, requested, inRate, a);
    forall i | 0 <= i < |r|
      ensures NeverWraps(r[i], request)
    {
      if |r| < |q| {
        assert NeverWraps(q[i + 1], request);
      } else {
        assert NeverWraps(q[i], request);
      }
    }
  }
}
