/** The sound channel as it runs: blocks whose fields the decoding pass rewrites, the
    queue they hang from, and the loop that answers a request for samples. */
module SoundChannel {
  import opened MachineInt
  import opened SoundQueue

  class Block {
    const source: seq<Byte>
    const silent: bool
    const samplesPerFrame: nat
    const frameSizes: Sizes
    ghost const ticket: nat
    var start: nat
    var dataSize: nat
    var frameCount: nat
    var sizesStart: nat
    var samplesToSkip: int
    var processed: bool

    constructor (data: seq<Byte>, silent: bool, frameCount: nat, samplesPerFrame: nat, sizes: Sizes, skip: int,
                 ghost ticket: nat)
      requires ValidEntry(Entry(data, silent, frameCount, samplesPerFrame, sizes, skip))
      ensures Valid() && !processed && this.ticket == ticket
      ensures Value() == Entry(data, silent, frameCount, samplesPerFrame, sizes, skip)
    {
      this.source, this.silent, this.samplesPerFrame, this.frameSizes := data, silent, samplesPerFrame, sizes;
      this.start, this.dataSize, this.frameCount, this.sizesStart := 0, |data|, frameCount, 0;
      this.samplesToSkip, this.processed, this.ticket := skip, false, ticket;
    }

    predicate InBounds()
      reads this
    {
      Inside(source, start, dataSize, frameSizes, sizesStart)
    }

    /** The part of the block not yet decoded. */
    function Value(): Entry
      requires InBounds()
      reads this
    {
      View(source, start, dataSize, silent, frameCount, samplesPerFrame, frameSizes, sizesStart, samplesToSkip)
    }

    predicate Valid()
      reads this
    {
      InBounds() && ValidEntry(Value())
    }

    /** Find how many whole frames the request needs and how many bytes they take, by
        taking the sizes of the later frames off one at a time. */
    method Slice(requested: nat) returns (frames: nat, bytes: nat)
      requires Valid() && 0 < requested && Bounded(Value(), requested)
      ensures frames == KeptFrames(Value(), requested) <= frameCount
      ensures bytes == SliceBytes(Value(), frames)
    {
      KeptFramesCover(Value(), requested);
      frames, bytes := frameCount, dataSize;
      if U32(frameCount * samplesPerFrame) > requested && frameCount > 1 {
        Product(frameCount, samplesPerFrame);
        var newFrameCount := U32(requested + samplesPerFrame - 1) / samplesPerFrame;
        var frameSize := dataSize / frameCount;
        var i := frameCount - 1;
        while i >= newFrameCount
          invariant newFrameCount - 1 <= i < frameCount
          invariant bytes == SliceBytes(Value(), i + 1)
        {
          TailShrinks(Value(), i);
          bytes := bytes - (match frameSizes case Uniform => frameSize case Each(s) => s[sizesStart + i]);
          i := i - 1;
        }
        frames := newFrameCount;
      }
    }

    /** Step over the frames that went to the decoder. */
    method Advance(frames: nat, bytes: nat)
      requires Valid() && frames < frameCount && bytes == SliceBytes(Value(), frames)
      modifies this
      ensures Valid() && Value() == Rest(old(Value()), frames, old(samplesToSkip)) && processed == old(processed)
    {
      ghost var later := LaterView(source, start, dataSize, silent, frameCount, samplesPerFrame, frameSizes, sizesStart, samplesToSkip, frames, bytes);
      StepFields(frames, bytes, later);
    }

    method StepFields(frames: nat, bytes: nat, ghost later: Entry)
      requires frames <= frameCount && bytes <= dataSize
      requires Inside(source, start + bytes, dataSize - bytes, frameSizes, sizesStart + frames)
      requires later == View(source, start + bytes, dataSize - bytes, silent, frameCount - frames, samplesPerFrame,
                             frameSizes, sizesStart + frames, samplesToSkip)
      modifies `frameCount, `dataSize, `start, `sizesStart
      ensures InBounds() && Value() == later
    {
      frameCount := frameCount - frames;
      dataSize := dataSize - bytes;
      start := start + bytes;
      sizesStart := sizesStart + frames;
    }

    /** Drop decoded samples for the pending skip. */
    method TakeSkip(answer: Answer, inRate: nat) returns (played: nat)
      requires Valid() && answer.Output? && ValidAnswer(answer) && 0 < inRate < TWO32
      modifies `samplesToSkip
      ensures Valid() && Value() == old(Value()).(skip := SkipLeft(old(samplesToSkip), answer, inRate))
      ensures played == answer.samples - Dropped(old(samplesToSkip), answer.samples, inRate, answer.rate)
    {
      SkipStaysPositive(samplesToSkip, answer, inRate);
      played := answer.samples;
      if samplesToSkip > 0 {
        var dropped := U32(samplesToSkip * answer.rate) / inRate;
        if dropped > played {
          dropped := played;
        }
        played := played - dropped;
        samplesToSkip := samplesToSkip - U32(dropped * inRate) / answer.rate;
      }
    }
  }

  predicate Inside(source: seq<Byte>, start: nat, size: nat, sizes: Sizes, from: nat) {
    start + size <= |source| && (sizes.Each? ==> from <= |sizes.sizes|)
  }

  /** The part of a block from start on, with the frame sizes from there on. */
  function View(source: seq<Byte>, start: nat, size: nat, silent: bool, frameCount: nat, samplesPerFrame: nat,
                sizes: Sizes, from: nat, skip: int): Entry
    requires Inside(source, start, size, sizes, from)
  {
    Entry(source[start..start + size], silent, frameCount, samplesPerFrame,
          match sizes case Uniform => Uniform case Each(s) => Each(s[from..]), skip)
  }

  lemma LaterView(source: seq<Byte>, start: nat, size: nat, silent: bool, frameCount: nat, samplesPerFrame: nat,
                  sizes: Sizes, from: nat, skip: int, frames: nat, bytes: nat) returns (later: Entry)
    requires Inside(source, start, size, sizes, from)
    requires var e := View(source, start, size, silent, frameCount, samplesPerFrame, sizes, from, skip);
             ValidEntry(e) && frames < frameCount && bytes == SliceBytes(e, frames) && bytes <= size
    ensures Inside(source, start + bytes, size - bytes, sizes, from + frames)
    ensures later == View(source, start + bytes, size - bytes, silent, frameCount - frames, samplesPerFrame, sizes, from + frames, skip)
    ensures ValidEntry(later)
    ensures later == Rest(View(source, start, size, silent, frameCount, samplesPerFrame, sizes, from, skip), frames, skip)
  {
    RestIsValid(View(source, start, size, silent, frameCount, samplesPerFrame, sizes, from, skip), frames, skip);
    Later(source, start, start + size, bytes);
    if sizes.Each? { Later(sizes.sizes, from, |sizes.sizes|, frames); }
    later := View(source, start + bytes, size - bytes, silent, frameCount - frames, samplesPerFrame, sizes, from + frames, skip);
  }

  lemma Later<T>(s: seq<T>, lo: nat, hi: nat, k: nat)
    requires lo + k <= hi <= |s|
    ensures s[lo..hi][k..] == s[lo + k..hi]
  {}

  lemma TailShrinks(e: Entry, k: nat)
    requires ValidEntry(e) && k < e.frameCount
    ensures TailBytes(e, k) == TailBytes(e, k + 1) + match e.sizes case Uniform => |e.data| / e.frameCount case Each(s) => s[k]
    ensures SliceBytes(e, k + 1) == SliceBytes(e, k) + match e.sizes case Uniform => |e.data| / e.frameCount case Each(s) => s[k]
  {
    match e.sizes
    case Uniform =>
      var size := |e.data| / e.frameCount;
      assert (e.frameCount - k) * size == (e.frameCount - (k + 1)) * size + size;
    case Each(s) =>
      assert s[k..][0] == s[k] && s[k..][1..] == s[k + 1..];
  }

  /** How many output samples of silence a block without data stands for. */
  function Silence(frames: nat, outRate: nat, inRate: nat): nat
    requires 0 < inRate
  {
    U32(frames * outRate) / inRate
  }

  /** The blocks as values. */
  function Values(bs: seq<Block>): (r: seq<Entry>)
    requires forall i :: 0 <= i < |bs| ==> bs[i].InBounds()
    reads bs
    ensures |r| == |bs| && forall i :: 0 <= i < |bs| ==> r[i] == bs[i].Value()
  {
    if bs == [] then [] else [bs[0].Value()] + Values(bs[1..])
  }

  ghost predicate NoneProcessed(bs: seq<Block>)
    reads bs
  {
    forall i :: 0 <= i < |bs| ==> !bs[i].processed
  }

  class Channel {
    var blocks: seq<Block>
    ghost var disposed: nat
    const inSampleRate: nat
    const outSampleRate: nat

    constructor (inSampleRate: nat, outSampleRate: nat)
      requires 0 < inSampleRate < TWO32 && 0 < outSampleRate < TWO32
      ensures Valid() && Queue() == [] && this.inSampleRate == inSampleRate
    {
      this.inSampleRate, this.outSampleRate := inSampleRate, outSampleRate;
      blocks, disposed := [], 0;
    }

    /** Blocks are numbered as they are enqueued, so no block is queued twice. */
    ghost predicate Linked()
      reads this, blocks
    {
      && (forall i :: 0 <= i < |blocks| ==> blocks[i].Valid() && blocks[i].ticket == disposed + i)
      && 0 < inSampleRate < TWO32 && 0 < outSampleRate < TWO32
    }

    ghost function Queue(): (q: seq<Entry>)
      requires Linked()
      reads this, blocks
      ensures |q| == |blocks| && ValidQueue(q)
    {
      Values(blocks)
    }

    /** Between passes no block of the queue has been processed already. */
    ghost predicate Valid()
      reads this, blocks
    {
      Linked() && Room(Queue()) && NoneProcessed(blocks)
    }

    method EnqueueWithSkip(data: seq<Byte>, silent: bool, frameCount: nat, samplesPerFrame: nat, sizes: Sizes, skip: int)
      requires Valid()
      requires ValidEntry(Entry(data, silent, frameCount, samplesPerFrame, sizes, skip))
      requires Room(Queue() + [Entry(data, silent, frameCount, samplesPerFrame, sizes, skip)])
      modifies this
      ensures Valid()
      ensures Queue() == old(Queue()) + [Entry(data, silent, frameCount, samplesPerFrame, sizes, skip)]
      ensures old(blocks) < blocks && fresh(blocks[|old(blocks)|])
    {
      var block := new Block(data, silent, frameCount, samplesPerFrame, sizes, skip, disposed + |blocks|);
      Append(block);
    }

    method Append(block: Block)
      requires Valid() && block.Valid() && !block.processed && block.ticket == disposed + |blocks|
      requires Room(Queue() + [block.Value()])
      modifies `blocks
      ensures Valid() && blocks == old(blocks) + [block] && Queue() == old(Queue()) + [block.Value()]
    {
      ghost var q, bs := Queue() + [block.Value()], blocks + [block];
      forall i | 0 <= i < |bs|
        ensures bs[i].Valid() && bs[i].ticket == disposed + i && !bs[i].processed
      {
        if i < |blocks| { assert bs[i] == blocks[i]; }
      }
      blocks := blocks + [block];
      ValuesAre(blocks, q);
    }

    /** Take the front block off the queue, handing its pending skip to the next. */
    method DisposeFront()
      requires Linked() && blocks != []
      requires |blocks| > 1 ==> InS32(blocks[0].samplesToSkip + blocks[1].samplesToSkip)
      modifies this, blocks`samplesToSkip
      ensures Linked() && blocks == old(blocks)[1..]
      ensures Queue() == HandOver(old(Queue())[1..], old(Queue())[0].skip)
    {
      HandSkip();
      Shift();
    }

    /** Add the pending skip of the front block to that of the next. */
    method HandSkip()
      requires Linked() && blocks != []
      requires |blocks| > 1 ==> InS32(blocks[0].samplesToSkip + blocks[1].samplesToSkip)
      modifies blocks`samplesToSkip
      ensures Linked() && Queue() != [] && Queue()[1..] == HandOver(old(Queue())[1..], old(Queue())[0].skip)
    {
      if blocks[0].samplesToSkip != 0 && |blocks| > 1 {
        AddSkip(blocks[1], 1, blocks[0].samplesToSkip);
      }
    }

    method Shift()
      requires Linked() && blocks != []
      modifies this
      ensures Linked() && blocks == old(blocks)[1..] && Queue() == old(Queue())[1..]
    {
      ghost var q := Queue();
      blocks, disposed := blocks[1..], disposed + 1;
      ValuesAre(blocks, q[1..]);
    }

    method AddSkip(block: Block, ghost k: nat, skip: int)
      requires Linked() && k < |blocks| && block == blocks[k] && InS32(block.samplesToSkip + skip)
      modifies block`samplesToSkip
      ensures Linked()
      ensures Queue() == old(Queue())[k := old(Queue())[k].(skip := S32(old(Queue())[k].skip + skip))]
    {
      ghost var q := Queue();
      ghost var e := q[k].(skip := S32(q[k].skip + skip));
      block.samplesToSkip := block.samplesToSkip + skip;
      OneIs(q, k, e);
    }

    /** The front block has changed to e, and no other. */
    lemma FrontIs(q: seq<Entry>, e: Entry)
      requires Linked() && |q| == |blocks| > 0 && blocks[0].Value() == e
      requires forall i :: 1 <= i < |q| ==> blocks[i].Value() == q[i]
      ensures Queue() == [e] + q[1..]
    {
      ValuesAre(blocks, [e] + q[1..]);
    }

    /** Block k has changed to e, and no other. */
    lemma OneIs(q: seq<Entry>, k: nat, e: Entry)
      requires Linked() && k < |q| == |blocks| && blocks[k].Value() == e
      requires forall i :: 0 <= i < |q| && i != k ==> blocks[i].Value() == q[i]
      ensures Queue() == q[k := e]
    {
      ValuesAre(blocks, q[k := e]);
    }

    method MarkFront(block: Block, processed: bool)
      requires Linked() && blocks != [] && block == blocks[0]
      modifies block`processed
      ensures Linked() && Queue() == old(Queue()) && block.processed == processed
    {
      ghost var q := Queue();
      block.processed := processed;
      ValuesAre(blocks, q);
    }

    method AdvanceFront(block: Block, frames: nat, bytes: nat)
      requires Linked() && blocks != [] && block == blocks[0] && frames < Queue()[0].frameCount && bytes == SliceBytes(Queue()[0], frames)
      modifies block
      ensures Linked() && block.processed == old(block.processed)
      ensures var q := old(Queue()); Queue() == [Rest(q[0], frames, q[0].skip)] + q[1..]
    {
      ghost var q := Queue();
      block.Advance(frames, bytes);
      FrontIs(q, Rest(q[0], frames, q[0].skip));
    }

    method TakeFrontSkip(block: Block, answer: Answer) returns (played: nat)
      requires Linked() && blocks != [] && block == blocks[0] && answer.Output? && ValidAnswer(answer)
      modifies block`samplesToSkip
      ensures Linked()
      ensures var q := old(Queue()); Queue() == [q[0].(skip := SkipLeft(q[0].skip, answer, inSampleRate))] + q[1..]
      ensures played == answer.samples - Dropped(old(Queue())[0].skip, answer.samples, inSampleRate, answer.rate)
    {
      ghost var q := Queue();
      played := block.TakeSkip(answer, inSampleRate);
      FrontIs(q, q[0].(skip := SkipLeft(q[0].skip, answer, inSampleRate)));
    }

    /** After a slice was decoded: step over it, drop what is to be skipped, and let a
        finished block go. */
    method FinishSlice(block: Block, frames: nat, bytes: nat, answer: Answer) returns (played: nat)
      requires Linked() && blocks != [] && block == blocks[0] && answer.Output? && ValidAnswer(answer)
      requires frames <= block.frameCount && bytes == SliceBytes(Queue()[0], frames)
      requires block.processed == (frames == block.frameCount)
      requires |blocks| > 1 ==> InS32(SkipLeft(block.samplesToSkip, answer, inSampleRate) + blocks[1].samplesToSkip)
      modifies this, block, blocks`samplesToSkip
      ensures Linked() && blocks == if frames == old(block.frameCount) then old(blocks)[1..] else old(blocks)
      ensures var q := old(Queue()); Queue() == Consume(q, frames, SkipLeft(q[0].skip, answer, inSampleRate))
      ensures played == answer.samples - Dropped(old(Queue())[0].skip, answer.samples, inSampleRate, answer.rate)
      ensures block.processed == old(block.processed)
    {
      ghost var q, left := Queue(), SkipLeft(Queue()[0].skip, answer, inSampleRate);
      ConsumeInSteps(q, frames, left);
      played := StepOver(block, frames, bytes, answer);
      if block.processed {
        DisposeFront();
      }
    }

    method StepOver(block: Block, frames: nat, bytes: nat, answer: Answer) returns (played: nat)
      requires Linked() && blocks != [] && block == blocks[0] && answer.Output? && ValidAnswer(answer)
      requires frames <= block.frameCount && bytes == SliceBytes(Queue()[0], frames)
      requires block.processed == (frames == block.frameCount)
      modifies block
      ensures Linked() && block.processed == old(block.processed)
      ensures var q := old(Queue());
              Queue() == [Stepped(q[0], frames, SkipLeft(q[0].skip, answer, inSampleRate))] + q[1..]
      ensures played == answer.samples - Dropped(old(Queue())[0].skip, answer.samples, inSampleRate, answer.rate)
    {
      SteppedTwice(Queue(), frames, SkipLeft(Queue()[0].skip, answer, inSampleRate));
      if !block.processed {
        AdvanceFront(block, frames, bytes);
      }
      played := TakeFrontSkip(block, answer);
    }

    /** Cut the slice, and note whether it is all that was left of the block. */
    method TakeSlice(block: Block, requested: nat) returns (fed: seq<Byte>, frames: nat, bytes: nat)
      requires Linked() && blocks != [] && block == blocks[0] && 0 < requested && Bounded(Queue()[0], requested)
      modifies block`processed
      ensures Linked() && Queue() == old(Queue()) && block.processed == (frames == block.frameCount)
      ensures var e := Queue()[0];
              frames == KeptFrames(e, requested) <= e.frameCount && bytes == SliceBytes(e, frames) && fed == e.data[..bytes]
    {
      frames, bytes := block.Slice(requested);
      MarkFront(block, frames == block.frameCount);
      fed := block.source[block.start..block.start + bytes];
    }

    /** Hand a slice of the front block to the decoder. When decoding fails, cleaning up
        disposes of the whole block, whatever was left of it. */
    method DecodeFront(block: Block, requested: nat, answer: Answer) returns (fed: seq<Byte>, frames: nat, played: nat)
      requires Linked() && blocks != [] && block == blocks[0] && !block.silent && ValidAnswer(answer)
      requires 0 < requested && Bounded(Queue()[0], requested)
      requires |blocks| > 1 ==> InS32(block.samplesToSkip + blocks[1].samplesToSkip)
      requires |blocks| > 1 ==> InS32(SkipLeft(block.samplesToSkip, answer, inSampleRate) + blocks[1].samplesToSkip)
      modifies this, block, blocks`samplesToSkip
      ensures Linked() && (blocks == old(blocks) || blocks == old(blocks)[1..])
      ensures var q := old(Queue());
              && Queue() == After(q, requested, inSampleRate, answer)
              && frames == KeptFrames(q[0], requested) <= q[0].frameCount && fed == q[0].data[..SliceBytes(q[0], frames)]
              && played == match answer case Failed => 0
                                        case Output(n, rate) => n - Dropped(q[0].skip, n, inSampleRate, rate)
      ensures block in blocks ==> !block.processed
    {
      var bytes: nat;
      fed, frames, bytes := TakeSlice(block, requested);
      if answer.Failed? {
        DisposeFront();
        played := 0;
      } else {
        played := FinishSlice(block, frames, bytes, answer);
      }
    }

    /** A silent block is put out whole, and nothing is decoded. */
    method PassSilence(requested: nat, answer: Answer) returns (played: nat)
      requires Ready(requested, answer) && Queue()[0].silent
      modifies this, blocks
      ensures Linked() && blocks == old(blocks)[1..] && NoneProcessed(blocks)
      ensures Queue() == After(old(Queue()), requested, inSampleRate, answer)
    {
      var block := blocks[0];
      MarkFront(block, true);
      played := Silence(block.frameCount, outSampleRate, inSampleRate);
      DisposeFront();
    }

    /** A slice of any other block goes to the decoder. */
    method PassSlice(requested: nat, answer: Answer) returns (fed: seq<Byte>, frames: nat, played: nat)
      requires Ready(requested, answer) && !Queue()[0].silent
      modifies this, blocks
      ensures Linked() && NoneProcessed(blocks) && (blocks == old(blocks) || blocks == old(blocks)[1..])
      ensures Queue() == After(old(Queue()), requested, inSampleRate, answer)
      ensures var p := Taken(old(Queue()), requested, inSampleRate, answer);
              fed == p.fed && frames == p.frames && (answer.Output? ==> played == answer.samples - p.dropped)
    {
      var block := blocks[0];
      MarkFront(block, true);
      fed, frames, played := DecodeFront(block, requested, answer);
    }

    /** A pass can be made, and hands no skip on past 32 bits. */
    ghost predicate Ready(requested: nat, answer: Answer)
      reads this, blocks
    {
      && Linked() && CanPass(Queue(), requested, inSampleRate, answer)
      && (|blocks| > 1 ==> InS32(blocks[0].samplesToSkip + blocks[1].samplesToSkip))
      && (|blocks| > 1 ==> InS32(SkipLeft(blocks[0].samplesToSkip, answer, inSampleRate) + blocks[1].samplesToSkip))
      && NoneProcessed(blocks)
    }

    /** One pass over the front block; answer is what the decoder makes of the slice. */
    method ProcessBlock(requested: nat, answer: Answer)
      returns (fed: seq<Byte>, frames: nat, played: nat, dropped: nat, failed: bool)
      requires Valid() && CanPass(Queue(), requested, inSampleRate, answer)
      modifies this, blocks
      ensures Valid() && Queue() == After(old(Queue()), requested, inSampleRate, answer)
      ensures var p := Taken(old(Queue()), requested, inSampleRate, answer);
              && fed == p.fed && frames == p.frames && dropped == p.dropped
              && (answer.Output? && !old(Queue())[0].silent ==> played == answer.samples - dropped)
      ensures failed <==> answer.Failed? && !old(Queue())[0].silent
      ensures blocks == old(blocks) || blocks == old(blocks)[1..]
    {
      ghost var q := Queue();
      RoomStays(q, requested, inSampleRate, answer);
      HandOverFits(q, requested, inSampleRate, answer);
      if blocks[0].silent {
        played := PassSilence(requested, answer);
        fed, frames, dropped, failed := [], 0, 0, false;
      } else {
        fed, frames, played := PassSlice(requested, answer);
        dropped := if answer.Output? then answer.samples - played else 0;
        failed := answer.Failed?;
      }
    }

    /** The queue is in order, and all its blocks are among those of frame. */
    ghost predicate Serving(frame: set<Block>, request: nat)
      reads this, blocks
    {
      (forall i :: 0 <= i < |blocks| ==> blocks[i] in frame) && Valid() && AllBounded(Queue(), request)
    }

    method FirstUnprocessed() returns (k: nat)
      ensures k <= |blocks| && (forall i :: 0 <= i < k ==> blocks[i].processed)
      ensures k < |blocks| ==> !blocks[k].processed
    {
      k := 0;
      while k < |blocks| && blocks[k].processed
        invariant k <= |blocks| && forall i :: 0 <= i < k ==> blocks[i].processed
      {
        k := k + 1;
      }
    }

    /** Pass over the front block, adding to what left the queue so far. */
    method PassFront(ghost frame: set<Block>, ghost q: seq<Entry>, ghost request: nat, feed: Feed, left: nat, answer: Answer,
                     ghost keepsRate: bool)
      returns (more: Feed, played: nat, failed: bool, ghost lost: Feed)
      requires Serving(frame, request) && blocks != [] && 0 < left <= request && ValidAnswer(answer)
      requires Balanced(q, feed, NOTHING, Queue(), keepsRate) && (keepsRate ==> KeepsRate(answer, inSampleRate))
      modifies this, frame
      ensures Serving(frame, request) && Balanced(q, more, lost, Queue(), keepsRate)
      ensures Work(Queue()) < old(Work(Queue())) && LostOnly(lost, failed, Queue())
    {
      ghost var now := Queue();
      BlocksWithin(frame, blocks);
      ghost var p := Taken(now, left, inSampleRate, answer);
      PassBalances(q, feed, now, left, request, inSampleRate, answer, After(now, left, inSampleRate, answer), p, keepsRate);
      var fed, n, dropped;
      fed, n, played, dropped, failed := ProcessBlock(left, answer);
      more, lost := Feed(feed.given + fed, feed.frames + n, feed.skipped + dropped), Lost(p);
      assert more == Fed(feed, p);
    }

    /** One turn of the loop below: find a block not yet processed and pass over it. */
    method PassOnce(ghost frame: set<Block>, ghost q: seq<Entry>, ghost request: nat, feed: Feed, left: nat, answer: Answer,
                    ghost keepsRate: bool, ghost lost0: Feed)
      returns (more: Feed, played: nat, failed: bool, done: bool, ghost lost: Feed)
      requires Serving(frame, request) && 0 < left <= request && ValidAnswer(answer)
      requires Balanced(q, feed, lost0, Queue(), keepsRate) && LostOnly(lost0, false, Queue())
      requires keepsRate ==> KeepsRate(answer, inSampleRate)
      modifies this, frame
      ensures Serving(frame, request) && Balanced(q, more, lost, Queue(), keepsRate) && LostOnly(lost, failed, Queue())
      ensures if done then failed || Queue() == [] else !failed && Work(Queue()) < old(Work(Queue()))
    {
      var thisBlock := FirstUnprocessed();
      if thisBlock == |blocks| {
        more, played, failed, done, lost := feed, 0, false, true, lost0;
      } else {
        more, played, failed, lost := PassFront(frame, q, request, feed, left, answer, keepsRate);
        done := failed;
      }
    }

    /** Answer a request for samples: pass over the queue until enough samples came out,
        a pass failed, or there is nothing left to process. decode is what the decoder
        makes of each pass's slice, filtered what the filters after it make of its output.
        The decoder is given the queue's bytes and frames in order, none twice, and none
        left out unless a failed block took its rest with it; and as long as it keeps the
        input rate the skips asked for are the samples dropped. */
    method ThreadSafeMore(request: nat, decode: nat -> Answer, filtered: (nat, nat) -> nat)
      returns (feed: Feed, left: nat, failed: bool, ghost lost: Feed)
      requires Valid() && AllBounded(Queue(), request) && forall i :: ValidAnswer(decode(i))
      modifies this, blocks
      ensures Valid() && Balanced(old(Queue()), feed, lost, Queue(), AllKeepRate(decode, inSampleRate))
      ensures LostOnly(lost, failed, Queue())
      ensures left == 0 || failed || Queue() == []
    {
      feed, left, failed, lost := NOTHING, request, false, NOTHING;
      ghost var q, keepsRate, frame := Queue(), AllKeepRate(decode, inSampleRate), set b | b in blocks;
      var i: nat, done := 0, false;
      while left > 0 && !done
        invariant left <= request && Serving(frame, request)
        invariant Balanced(q, feed, lost, Queue(), keepsRate) && LostOnly(lost, failed, Queue())
        invariant if done then failed || Queue() == [] else !failed
        decreases !done, Work(Queue())
      {
        var played;
        feed, played, failed, done, lost := PassOnce(frame, q, request, feed, left, decode(i), keepsRate, lost);
        left := StillWanted(left, if played == 0 then 0 else filtered(i, played));
        i := i + 1;
      }
    }
  }

  function StillWanted(left: nat, samplesProcessed: nat): (r: nat)
    ensures r <= left
  {
    if samplesProcessed >= left then 0 else left - samplesProcessed
  }

  /** Bytes, frames and pending skips that left the queue. */
  datatype Feed = Feed(given: seq<Byte>, frames: nat, skipped: int)

  const NOTHING := Feed([], 0, 0)

  /** The bytes and frames of q are, in order, those given to the decoder, those lost with
      a failed block, and those still queued; and when the decoder keeps the input rate the
      skips of q are the samples dropped, what was pending on the very last block, and those
      still queued. */
  ghost predicate Balanced(q: seq<Entry>, feed: Feed, lost: Feed, now: seq<Entry>, keepsRate: bool) {
    && feed.given + lost.given + Bytes(now) == Bytes(q) && feed.frames + lost.frames + Frames(now) == Frames(q)
    && (keepsRate ==> feed.skipped + lost.skipped + Skips(now) == Skips(q))
  }

  /** Nothing is lost but with a failed block, and no skip but with the last block. */
  ghost predicate LostOnly(lost: Feed, failed: bool, now: seq<Entry>) {
    (!failed ==> lost.given == [] && lost.frames == 0) && (now != [] ==> lost.skipped == 0)
  }

  predicate KeepsRate(a: Answer, inRate: nat) { a.Output? ==> a.rate == inRate }

  ghost predicate AllKeepRate(decode: nat -> Answer, inRate: nat) { forall i :: KeepsRate(decode(i), inRate) }

  lemma PassBalances(q: seq<Entry>, feed: Feed, now: seq<Entry>, requested: nat, request: nat, inRate: nat, a: Answer,
                     next: seq<Entry>, p: Pass, keepsRate: bool)
    requires CanPass(now, requested, inRate, a) && Room(now) && AllBounded(now, request) && (keepsRate ==> KeepsRate(a, inRate))
    requires next == After(now, requested, inRate, a) && p == Taken(now, requested, inRate, a)
    requires Balanced(q, feed, NOTHING, now, keepsRate)
    ensures Balanced(q, Fed(feed, p), Lost(p), next, keepsRate) && Work(next) < Work(now) && AllBounded(next, request)
    ensures LostOnly(Lost(p), a.Failed? && !now[0].silent, next)
  {
    PassConserves(now, requested, inRate, a);
    BoundedStays(now, requested, request, inRate, a);
    Rebalance(q, feed, now, next, p, keepsRate);
  }

  /** The feed after another pass, and what that pass lost. */
  function Fed(feed: Feed, p: Pass): Feed { Feed(feed.given + p.fed, feed.frames + p.frames, feed.skipped + p.dropped) }

  function Lost(p: Pass): Feed { Feed(p.lost, p.lostFrames, p.forfeited) }

  lemma Rebalance(q: seq<Entry>, feed: Feed, now: seq<Entry>, next: seq<Entry>, p: Pass, keepsRate: bool)
    requires Balanced(q, feed, NOTHING, now, keepsRate)
    requires Bytes(now) == p.fed + p.lost + Bytes(next) && Frames(now) == p.frames + p.lostFrames + Frames(next)
    requires keepsRate ==> Skips(now) == p.dropped + p.forfeited + Skips(next)
    ensures Balanced(q, Fed(feed, p), Lost(p), next, keepsRate)
  {
    Regroup(feed.given, p.fed, p.lost, Bytes(next));
    assert feed.given + [] == feed.given;
  }

  lemma Regroup(a: seq<Byte>, b: seq<Byte>, c: seq<Byte>, d: seq<Byte>)
    ensures a + (b + c + d) == a + b + c + d
  {}

  /** Stepping over a slice first and settling its skip afterwards. */
  lemma ConsumeInSteps(q: seq<Entry>, k: nat, left: int)
    requires q != [] && ValidEntry(q[0]) && k <= q[0].frameCount
    ensures var q1 := [Stepped(q[0], k, left)] + q[1..];
            Consume(q, k, left) == if k == q[0].frameCount then HandOver(q1[1..], q1[0].skip) else q1
  {
    assert ([Stepped(q[0], k, left)] + q[1..])[1..] == q[1..];
  }

  lemma SteppedTwice(q: seq<Entry>, k: nat, left: int)
    requires q != [] && ValidEntry(q[0]) && k <= q[0].frameCount
    ensures k < q[0].frameCount ==>
              var q1 := [Rest(q[0], k, q[0].skip)] + q[1..];
              q1[0].skip == q[0].skip && [q1[0].(skip := left)] + q1[1..] == [Stepped(q[0], k, left)] + q[1..]
  {
    assert ([Rest(q[0], k, q[0].skip)] + q[1..])[1..] == q[1..];
  }

  /** The front block after k of its frames were decoded; it is whole when those were all. */
  function Stepped(e: Entry, k: nat, left: int): Entry
    requires ValidEntry(e) && k <= e.frameCount
  {
    if k == e.frameCount then e.(skip := left) else Rest(e, k, left)
  }

  lemma BlocksWithin(frame: set<Block>, bs: seq<Block>)
    requires forall i :: 0 <= i < |bs| ==> bs[i] in frame
    ensures forall b :: b in bs ==> b in frame
    ensures bs != [] ==> forall i :: 0 <= i < |bs[1..]| ==> bs[1..][i] in frame
  {}

  lemma RoomStays(q: seq<Entry>, requested: nat, inRate: nat, a: Answer)
    requires CanPass(q, requested, inRate, a) && Room(q)
    ensures Room(After(q, requested, inRate, a))
  {
    PassConserves(q, requested, inRate, a);
  }

  lemma ValuesAre(bs: seq<Block>, r: seq<Entry>)
    requires |r| == |bs| && forall i :: 0 <= i < |bs| ==> bs[i].InBounds() && bs[i].Value() == r[i]
    ensures Values(bs) == r
  {}

  /** Handing the front block's skip on stays inside 32 bits. */
  lemma HandOverFits(q: seq<Entry>, requested: nat, inRate: nat, a: Answer)
    requires CanPass(q, requested, inRate, a) && Room(q)
    ensures |q| > 1 ==> InS32(q[0].skip + q[1].skip) && InS32(SkipLeft(q[0].skip, a, inRate) + q[1].skip)
  {
    SkipStaysPositive(q[0].skip, a, inRate);
    if |q| > 1 {
      assert Magnitude(q) == Abs(q[0].skip) + Magnitude(q[1..]);
      assert Magnitude(q[1..]) >= Abs(q[1].skip);
    }
  }
}
