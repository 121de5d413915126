# Verified models of the Fsk base library

A Dafny model of the parts of the Fsk base library that carry real arithmetic or state:
fixed-point mathematics, pixel fills and blends, the sound channel's queue of compressed
blocks, the registry of instrumented items, the lifetime of bitmaps, and the singly linked
list. Every file holds one module; `dafny verify dfyconfig.toml` checks them all.

The arithmetic is modelled in one configuration of `core/base/FskFixedMath.c`: the portable
C code, with saturation of products and quotients by shifts. Integers are unbounded in
Dafny, so every width, wrap-around, arithmetic shift and truncation of the C code is
written out; `MachineInt` defines them. `FixedMultiply`, `FixedDivide` and
`NormalisingDivide` give the products and quotients their meaning as correctly rounded,
clamped values. `SquareRoot` follows the digit-by-digit loops register by register.
`Cordic` follows the pseudo-rotations: the length they gain is proved by a recurrence that
holds for any sequence of directions, and from it that no step leaves 32 bits;
`CordicVector` puts normalisation, rotation and rescaling together. `Triangle` holds the
de Casteljau loops over a triangular array, once, for any element type and any
interpolation; `BezierCurve` says what the triangle means, first for exact arithmetic and
then for the two interpolations of the library with an error bound. `Horner` and `Affine`
bound the error of polynomial evaluation and of composed transforms. `RealFacts` has the
facts about real arithmetic that the bounds need.

`Rectangle` describes rows of cells in a buffer, and what it means to change them and
nothing else; `Fill` and `Blend` prove the blitters against it. `SoundQueue` states what
one pass of the decoder takes from a queue of blocks and what whole runs conserve;
`SoundChannel` is the channel whose blocks are rewritten in place, each pass refining a
step of `SoundQueue`. `Ownership` and `ForestListing` state the forest of instrumented
items as a value, and `Instrumentation` has the linked records that refine it;
`ListenerMask` has the listeners with their cached mask. `BitmapLifetime` is the use-count
and lock protocol, with its runs. `LinkedList` proves that the intrusive list refines
sequences; the queue, the registry and the listeners then hold their lists as sequences,
with the removal that `UniqueList` describes.

Clocks, devices, codecs and callbacks are parameters: the decoder's answers, the filters'
output counts, whether the hardware stores misaligned words, and the byte order.

## Findings

Where the code does not do what its documentation or its purpose promises, the model keeps
the code as it is, and these lemmas give the exact condition and an input that meets it.

- `core/base/FskFixedMath.h:332-338` promises correctly rounded roots of 62-bit integers.
  The remainder is kept in 32 bits, and the root is the nearest integer exactly when the
  remainder before the last digit stays below 2^30 (`SquareRoot.RemainderOverflows`). The
  first argument that fails is 2^60 + 2^32 (`SquareRoot.FirstOverflow`); 16.16 roots are
  always right (`SquareRoot.FixSqrt`), 2.30 roots go wrong four units above 1
  (`SquareRoot.FracSqrtWrong`).
- `core/base/FskFixedMath.c:403-404` halves the divisor with a shift that floors. The
  quotient is the nearest integer except for odd negative divisors with one particular
  remainder (`FixedDivide.NearestExactlyWhen`): 5 / -1 gives -6, and 0 / -1 gives -1
  (`FixedDivide.MinusOneIsOffByOne`). `FskFixDiv` and `FskFracDiv` inherit the latter,
  while `FskFixedNDiv` tests for a zero numerator first.
- `core/base/FskFixedMath.c:530` tests for a divisor that was shifted down to zero, and the
  saturation that follows looks at the sign of the numerator only. For a negative divisor
  the result is the wrong limit (`NormalisingDivide.VanishingDivisorReached`); this is the
  only way to be more than two units off (`NormalisingDivide.FixNDiv64`).
- `core/base/FskFixedMath.c:528` increments the divisor; for the largest one, shifted by one
  bit, and for no other, the increment leaves 64 bits
  (`NormalisingDivide.IncrementWrapsExactly`, `NormalisingDivide.IncrementWrapReached`). The
  result then has the wrong sign, though it stays within two units.
- `core/base/FskFixedMath.c:569` does the same to the numerator when the shift is negative.
  There the result is more than two units off, and otherwise never more than one
  (`NormalisingDivide.WrappedNumerator`, `NormalisingDivide.FixNDiv64`,
  `NormalisingDivide.NumeratorWrapReached`).
- `core/base/FskAudio.c:2192` adds the requested samples and a frame's samples in 32 bits.
  When the sum wraps the frame count of the slice is zero, and the loop that follows, which
  counts down to it in unsigned arithmetic, has no end (`SoundQueue.ZeroFramesExactly`,
  `SoundQueue.ZeroFramesReachable`).
- `core/base/FskInstrumentation.h:71` and `:84` call `listenerLevel` the maximum of the
  listeners' levels; the code keeps their bitwise or, which is what the guards need. It is
  the maximum if and only if one level includes all others
  (`ListenerMask.MaximumExactly`), as the documented nested levels do; two listeners for one
  bit each have none (`ListenerMask.NoMaximum`).
- `core/base/FskAudio.h:340` documents a negative skip as silence to be inserted before the
  block. The decoding pass does nothing about it; it is only handed on with the block
  (`SoundQueue.NegativeSkipStays`). The samples asked for come out if and only if the skip is
  not negative (`SoundQueue.SkipHonouredExactly`, `SoundQueue.SilenceNotInserted`).
- When decoding a slice fails, cleaning up disposes of the whole block
  (`core/base/FskAudio.c:2532-2536`). Frames are lost if and only if the slice was not all of
  it (`SoundQueue.LostExactly`, `SoundQueue.FrameLost`).
- Items whose owner is disposed of have no owner afterwards but join no list either, so a
  later dump does not show them (`Ownership.DisposalForgets`, `ForestListing.DumpExact`).

## Model

| member | source | states |
|---|---|---|
| MachineInt.ShiftSaturateClamps | core/base/FskFixedMath.c:162-181 | On every 64-bit value the saturation by shifts, the saturation by comparisons and the nearest 32-bit value are the same |
| FixedMultiply.FixedNMul | core/base/FskFixedMath.c:308-326 | The product shifted down by n bits, in two stages past 31, is the product divided by 2^n, rounded once with halves up, and clamped to 32 bits |
| FixedMultiply.FixMul | core/base/FskFixedMath.c:335-348 | The 16.16 product rounds once and clamps |
| FixedMultiply.FracMul | core/base/FskFixedMath.c:355-368 | The 2.30 product rounds once and clamps |
| FixedMultiply.RoundHalfUpUnique | core/base/FskFixedMath.c:308-326 | The rounded quotient is the only integer within half a unit of the exact one, the upper one of two equally near |
| FixedDivide.NearestExactlyWhen | core/base/FskFixedMath.c:399-407 | The biased quotient is a nearest integer if and only if the divisor is not an odd negative number with a remainder just below one half; it is never off by more than half the divisor and a half |
| FixedDivide.BiasedQuotientExactly | core/base/FskFixedMath.c:399-407 | The biased quotient is the exact one rounded with halves away from zero, except in that case, where it is one further from zero |
| FixedDivide.Divide64by32giving32 | core/base/FskFixedMath.c:399-424 | The quotient is nearest, ties away from zero, and clamped, outside the failing case; division by zero saturates by the sign of the numerator |
| FixedDivide.MinusOneIsOffByOne | core/base/FskFixedMath.c:403-405 | Dividing 5 and 0 by -1 shows the failing case |
| FixedDivide.FixedNDiv | core/base/FskFixedMath.c:433-455 | For every shift up to 63 the quotient of x * 2^n by y is nearest and clamped outside the failing case, zero and infinite cases included |
| FixedDivide.EarlySaturation | core/base/FskFixedMath.c:447-450 | Saturating before the shift happens only when the true quotient is out of range by a factor of two or more, and with its sign |
| FixedDivide.FixDiv | core/base/FskFixedMath.c:463-467 | The 16.16 quotient is that of the general routine, but for a zero numerator over -1 |
| FixedDivide.FracDiv | core/base/FskFixedMath.c:475-479 | The same for the 2.30 quotient |
| NormalisingDivide.LeadingZeros64 | core/base/FskFixedMath.c:231-273 | The binary search finds the highest set bit of every nonzero 64-bit integer, and 63 for zero |
| NormalisingDivide.FixNDiv64 | core/base/FskFixedMath.c:489-588 | For shifts of either sign and 64-bit registers: with headroom enough the quotient is num * 2^n / den rounded once and clamped; without it, for positive shifts, the result is within two units of the true quotient, or saturated within two units of the limit, if and only if the divisor is not a negative one shifted down to zero, and for negative shifts it is within one unit if and only if the numerator's increment does not wrap |
| NormalisingDivide.LoweredRounds | core/base/FskFixedMath.c:519-532 | An operand shifted almost all the way down, incremented and halved is that operand over a power of two, rounded to nearest |
| NormalisingDivide.IncrementWrapsExactly | core/base/FskFixedMath.c:523-528 | The increment leaves 64 bits if and only if the operand is the largest integer and is shifted by one bit |
| NormalisingDivide.RaiseStaysInside | core/base/FskFixedMath.c:498-516 | Shifting an operand up as far as its headroom, in two stages past 31, or down by one bit never leaves 64 bits |
| NormalisingDivide.WrappedNumerator | core/base/FskFixedMath.c:562-570 | For negative shifts a wrapped increment of the numerator puts the result more than two units off, with the wrong sign |
| NormalisingDivide.NumeratorWrapReached | core/base/FskFixedMath.c:562-570 | The largest numerator over 2^61, halved once more, comes out as -2 |
| NormalisingDivide.VanishingDivisorReached | core/base/FskFixedMath.c:530-531 | 2^62 * 2 / -1 saturates at the wrong limit |
| NormalisingDivide.IncrementWrapReached | core/base/FskFixedMath.c:528 | With the largest divisor a quotient of one half comes out as -1 |
| SquareRoot.DigitStep | core/base/FskFixedMath.c:1266-1274 | One pass of the loop takes the floor root of the bits consumed so far to that of two more, remainder included, as long as the remainder has two bits to spare |
| SquareRoot.DigitsHold | core/base/FskFixedMath.c:1319-1328 | After any number of passes root and remainder are those of the bits consumed, and no bit of the argument is lost between the registers |
| SquareRoot.ShiftInDigits | core/base/FskFixedMath.c:1331-1338 | The loop over the three registers is the repetition of one digit step |
| SquareRoot.FixedSqrt64to32 | core/base/FskFixedMath.c:1309-1343 | For every 62-bit argument the result is an integer nearest to the root if and only if the last remainder does not overflow; skipping the high word when it is zero changes nothing |
| SquareRoot.FixedNSqrt | core/base/FskFixedMath.c:1254-1280 | The same for fixed-point roots with an even number of fraction bits |
| SquareRoot.FirstOverflow | core/base/FskFixedMath.c:1331-1340 | No argument below 2^60 + 2^32 overflows, and that one does |
| SquareRoot.NearestRootUnique | core/base/FskFixedMath.c:1309-1343 | No integer has a root half way between two integers, so that the nearest root is one number |
| SquareRoot.FixSqrt | core/base/FskFixedMath.c:1286-1290 | Every 16.16 root is nearest |
| SquareRoot.FracSqrt | core/base/FskFixedMath.c:1297-1301 | Every 2.30 root up to four units above 1 is nearest, and any other if and only if the last remainder does not overflow |
| SquareRoot.FracSqrtWrong | core/base/FskFixedMath.c:1297-1301 | Four units above 1 the loop gives 1, where the nearest root is two units more |
| Cordic.ShiftedStepGain | core/base/FskFixedMath.c:1440-1454 | A pseudo-rotation with right shifts multiplies the squared length by 1 + 4^-i, up to a fixed error for the bits shifted out |
| Cordic.TurnedNorm | core/base/FskFixedMath.c:1425-1454 | From a normalised vector, pseudo-rotations in any directions keep the squared length near the product of the gains, so that every coordinate on the way fits 32 bits |
| Cordic.GainCancelled | core/base/FskFixedMath.c:1372 | The scale constant is the reciprocal of the accumulated gain, to nine digits |
| Cordic.Reduce | core/base/FskFixedMath.c:1413-1423 | Whole half turns bring every 32-bit angle to between -90 and 90 degrees, and angle and half turns add up to the original |
| Cordic.ReduceAngle | core/base/FskFixedMath.c:1413-1423 | The loops end, and the vector is negated exactly when the number of half turns is odd |
| Cordic.AngleConverges | core/base/FskFixedMath.c:1374-1381 | From every angle between -90 and 90 degrees the signed sum of the table leaves a residual of at most one unit |
| Cordic.AngleConserved | core/base/FskFixedMath.c:1425-1454 | The angle left over and the signed sum of the table angles used always add up to the angle asked for |
| Cordic.PseudoRotate | core/base/FskFixedMath.c:1403-1459 | Any normalised vector and any angle: no overflow, the result is the vector turned by the directions that the angle asks for, and its squared length has grown by the total gain |
| Cordic.FracCosineSine | core/base/FskFixedMath.c:1581-1587 | For every angle the result is a unit vector, its squared length within 2^-21 of one |
| Cordic.FxPreNorm | core/base/FskFixedMath.c:1524-1572 | Every nonzero vector is scaled by one power of two until the larger magnitude lies in [2^27, 2^28], with the signs kept |
| Cordic.PolarConverges | core/base/FskFixedMath.c:1485-1512 | Turning towards the axis halves the distance from it, relative to x, at every step |
| Cordic.PseudoPolarize | core/base/FskFixedMath.c:1465-1516 | No overflow; the vector ends within 535 units of the positive x axis with its length grown by the gain, and the angle is what was turned |
| CordicVector.LengthKept | core/base/FskFixedMath.c:1604-1607 | Rotated and rescaled by the constant, a normalised vector keeps its squared length to four parts in a million |
| CordicVector.LengthAfterShift | core/base/FskFixedMath.c:1608-1616 | After the shift back the squared length is that of the argument, up to a unit in each coordinate and four parts in a million; a left shift is exact if and only if it stays in 32 bits, which every vector shorter than about 2^31 does |
| CordicVector.VectorRotate | core/base/FskFixedMath.c:1596-1617 | The whole rotation: normalised, turned as the angle asks, rescaled and shifted back, and of the old length within the stated tolerance |
| CordicVector.Polarize | core/base/FskFixedMath.c:1642-1662 | The whole conversion: the radius is the length of the argument within the stated tolerance, and the angle that of the turned vector |
| Triangle.FillTriangle | core/base/FskFixedMath.c:1719-1734 | The double loop that reads and writes downwards stores every round of the interpolation in its row, for every order, stays in the triangle and leaves the rest of the array alone |
| Triangle.DeCasteljau | core/base/FskFixedMath.c:1690-1713 | Copying strided control points to the base and refining them leaves all rounds over that lane |
| Triangle.CopyEdges | core/base/FskFixedMath.c:1757-1763 | The left edge, read upwards, and the right edge, read downwards, are stored as the parts' control points, in their lane only |
| Triangle.Split | core/base/FskFixedMath.c:1740-1765 | For every order and dimension both parts hold the edges of each coordinate's triangle, also when the control points are overwritten |
| Triangle.PartsMeet | core/base/FskFixedMath.c:1740-1765 | The parts keep the outer end points and share the apex |
| BezierCurve.SplitPreservesCurve | core/base/FskFixedMath.c:1740-1765 | In exact arithmetic the left part at s is the curve at s*t and the right part at s the curve at t + s(1 - t), for every order, t and s |
| BezierCurve.RoundedSplitTracksCurve | core/base/FskFixedMath.c:1740-1765 | With an interpolation that rounds, both parts stay within half a unit per degree of the curve, everywhere |
| BezierCurve.FixedLerpRounds | core/base/FskFixedMath.c:1709-1712 | The fixed-point interpolation stays between its arguments and rounds the exact one once, for parameters from 0 to 1 and differences of 32 bits |
| BezierCurve.FixedSplitBezier | core/base/FskFixedMath.c:1740-1765 | The library's split: every coordinate of both parts tracks the curve and stays within the bounds of the control points |
| BezierCurve.AverageIsFloor | core/base/FskFixedMath.c:1793-1799 | The average without overflow is the floor of the mean of any two 32-bit values |
| BezierCurve.PartsInHull | core/base/FskFixedMath.c:1773-1800 | Every control point of both parts lies between the bounds of the original ones |
| BezierCurve.FixedBisectBezier | core/base/FskFixedMath.c:1805-1829 | Bisection of any 32-bit control points neither overflows nor leaves their bounds, and tracks the curve |
| Horner.NestedIsPolynomial | core/base/FskFixedMath.c:1902-1910 | Nested multiplication computes the sum of the coefficients times the powers |
| Horner.FixedHorner | core/base/FskFixedMath.c:1902-1910 | For a parameter from -1 to 1 and coefficients of bounded sum the result is within half a unit per degree of the polynomial |
| Affine.CompositionBound | core/base/FskFixedMath.c:2050-2086 | Transforming by L and then R differs from transforming by their product by at most 3/2 + (abs x + abs y + abs R0j + abs R1j) / 2^17 units in each coordinate, absent saturation |
| Affine.TransformRowPoints | core/base/FskFixedMath.c:2394-2404 | Every point is transformed from its original value, also in place |
| Affine.MultiplyMatrix | core/base/FskFixedMath.c:2264-2279 | For any number of fraction bits the product is that of the original factors, each entry rounded once and clamped, also in place |
| Rectangle.MapRowsMapped | core/base/FskBlit.c:308-345 | Walking a rectangle row by row changes exactly its cells, each once, when the rows do not overlap |
| Rectangle.InRowsMeans | core/base/FskBlit.c:308-345 | A cell lies in the rectangle exactly when it is some column of some row |
| Fill.FillColor32 | core/base/FskBlit.c:308-345 | The unrolled fill equals the plain one, for every width and height from 1 |
| Fill.FillColor16 | core/base/FskBlit.c:348-395 | Aligning, double-pixel words, unrolled blocks and a last pixel together equal the plain fill, at every alignment and in both byte orders |
| Fill.FillColor24 | core/base/FskBlit.c:239-306 | The three-word pattern and the byte loop together equal the plain fill, at every alignment and in both byte orders |
| Fill.FilledExactly | core/base/FskBlit.c:239-395 | The plain fill puts the pixel's bytes in cyclic order into exactly the bytes of the rectangle, and leaves every other byte |
| Blend.BlendPixel32Exact | core/base/FskBlit.c:479-497 | Each of four channels, two to a word, is (s*b + d*(255 - b)) / 255 rounded to nearest, in spite of borrows and wrap-around between lanes |
| Blend.BlendColor32 | core/base/FskBlit.c:470-503 | The same for every pixel of a rectangle, and no other changes |
| Blend.BlendPixel16Exact | core/base/FskBlit.c:518-531 | Each of three channels packed in 16 bits is (s*a + d*(32 - a) + 16) / 32, in spite of borrows |
| Blend.BlendColor16 | core/base/FskBlit.c:505-538 | The same for every pixel of a rectangle, and no other changes |
| Blend.AlphaNScaleRounds | core/base/FskBlit.c:559 | c*a / (2^b - 1) rounded to nearest, for all channel widths of up to 8 bits and all values; the result fits the channel |
| Blend.ColorizeBytes | core/base/FskBlit.c:561-607 | Every byte of a rectangle is scaled by the colour byte of its channel, rounded to nearest |
| Blend.Colorize16LE | core/base/FskBlit.c:609-640 | Every channel of every 565 pixel of a rectangle is scaled by that of the colour, rounded to nearest |
| SoundQueue.KeptFramesCover | core/base/FskAudio.c:2190-2196 | A slice has at least one frame and no more than the block, and no whole frame more than the request needs, also when the 32-bit product wraps |
| SoundQueue.ZeroFramesExactly | core/base/FskAudio.c:2192-2195 | The slice's frame count comes out zero if and only if its sum wraps around |
| SoundQueue.ZeroFramesReachable | core/base/FskAudio.c:2192-2195 | Two frames of 0xC0000000 samples and a request for 0x40000001 do that |
| SoundQueue.SliceIsWholeFrames | core/base/FskAudio.c:2193-2195 | When the sizes account for the block, the slice is exactly the bytes of its first frames |
| SoundQueue.SkipStaysPositive | core/base/FskAudio.c:2227-2238 | A pending skip never goes below zero, whatever the sample rates and even where 32 bits wrap |
| SoundQueue.EqualRatesConserve | core/base/FskAudio.c:2227-2238 | At equal rates the skip goes down by exactly the samples dropped, even where 32 bits wrap |
| SoundQueue.SkipHonouredExactly | core/base/FskAudio.c:2227-2238 | Where the output reaches past the skip, the number of samples asked for comes out if and only if the skip is not negative |
| SoundQueue.NegativeSkipStays | core/base/FskAudio.c:2227 | Whatever the decoder answers, a negative skip drops nothing and stays pending |
| SoundQueue.SilenceNotInserted | core/base/FskAudio.c:2227 | With five samples of silence asked for and ten decoded, ten come out |
| SoundQueue.LostExactly | core/base/FskAudio.c:2532-2536 | A pass loses frames if and only if a slice of part of a block fails to decode |
| SoundQueue.FrameLost | core/base/FskAudio.c:2532-2536 | Of two frames of 1000 samples, a request for 500 whose decoding fails loses one |
| SoundQueue.PassConserves | core/base/FskAudio.c:2065-2262 | One pass conserves bytes, frames and, at equal rates, samples to skip; it retires the block or decodes a frame of it |
| SoundQueue.RunConserves | core/base/FskAudio.c:1989-2041 | Over any run of enqueues and requests the slices, with what failed blocks lost, are the enqueued bytes and frames in order, up to what is still queued |
| SoundQueue.SmoothRunConserves | core/base/FskAudio.c:1989-2041 | Without failures and at equal rates the slices alone are those bytes and frames, and the samples dropped are the skips asked for, up to those pending or left when the queue ran empty |
| SoundChannel.Block.Slice | core/base/FskAudio.c:2190-2196 | The loop that takes frame sizes off one at a time finds the length of the slice |
| SoundChannel.Channel.EnqueueWithSkip | core/base/FskAudio.c:1696-1721 | The block becomes the last of the queue |
| SoundChannel.Channel.DisposeFront | core/base/FskAudio.c:1948-1954 | The front block leaves the queue and hands its pending skip to its successor |
| SoundChannel.Channel.ProcessBlock | core/base/FskAudio.c:2065-2262 | The pass that rewrites the block in place is one step of the queue: slice, failure, skip and disposal |
| SoundChannel.Channel.ThreadSafeMore | core/base/FskAudio.c:1989-2041 | The loop ends; what the decoder was given over all its passes, with what a failure lost, is the front of the queue in order; while the decoder keeps the input rate the skips are the samples dropped, up to those pending or left when the queue ran empty; and it stops only when satisfied, failed or out of blocks |
| ListenerMask.GuardExact | core/base/FskInstrumentation.c:91-104 | A message passes the mask exactly when some listener wants its level |
| ListenerMask.MaximumExactly | core/base/FskInstrumentation.h:71 | The mask is the level of some listener if and only if one listener's level includes all the others |
| ListenerMask.NestedHaveMaximum | core/base/FskInstrumentation.h:118-122 | For the documented nested levels it is the highest level of a listener |
| ListenerMask.NoMaximum | core/base/FskInstrumentation.h:71 | Two listeners for one bit each have a mask that is neither's level |
| ListenerMask.Listened.Add | core/base/FskInstrumentation.c:317-335 | The mask stays the or of the attached listeners' levels |
| ListenerMask.Listened.Remove | core/base/FskInstrumentation.c:338-359 | So it does when a listener goes, and the other listeners keep their order |
| ListenerMask.Listened.SendGuarded | core/base/FskInstrumentation.c:472-488 | The guarded send reaches exactly the listeners that an unguarded one would, in order |
| Ownership.ItemKeepsForest | core/base/FskInstrumentation.c:154-178 | Registering an item keeps the forest |
| Ownership.OwnerKeepsForest | core/base/FskInstrumentation.c:223-249 | Giving an item an owner that is not the item itself or beneath it keeps the forest |
| Ownership.CycleIsNoForest | core/base/FskInstrumentation.c:223-249 | Any other owner makes a cycle that no order of ranks allows |
| Ownership.DisposalKeepsForest | core/base/FskInstrumentation.c:180-221 | Disposing of an item keeps the forest |
| Ownership.DisposalForgets | core/base/FskInstrumentation.c:180-221 | Afterwards nothing refers to the item, and the items it owned have no owner and are on no list of children and not among the roots |
| ForestListing.ListingExact | core/base/FskInstrumentation.c:785-810 | The listing of an item shows exactly the items that hang from it, each at its depth, leaving out the log file's own item with what hangs from it |
| ForestListing.ListingOnce | core/base/FskInstrumentation.c:785-810 | And shows no line twice |
| ForestListing.DumpExact | core/base/FskInstrumentation.c:770-783 | The dump shows every item that hangs from a root, once, at its depth, and no other |
| Instrumentation.Registry.New | core/base/FskInstrumentation.c:154-178 | The records end as the forest with the item added, and with its type when that is new; the type's listeners that want the message get it |
| Instrumentation.Registry.SetOwner | core/base/FskInstrumentation.c:223-249 | The records end as the forest with the item moved |
| Instrumentation.Registry.Dispose | core/base/FskInstrumentation.c:180-221 | The records end as the forest without the item, nothing mentions it, its children are detached and its listeners gone; a null or unregistered item changes nothing |
| Instrumentation.Registry.DumpItem | core/base/FskInstrumentation.c:785-810 | The recursion ends, and prints the listing of the item |
| Instrumentation.Registry.Dump | core/base/FskInstrumentation.c:770-783 | The dump prints exactly the items that hang from the roots, each once and at its depth |
| BitmapLifetime.LifetimeHolds | core/base/FskBitmap.c:415-461 | In every run in which only holders act and give up only what they have: use count plus one is owners plus open brackets, the surface is locked exactly while a bracket is open, and storage is freed once, when no one is left |
| BitmapLifetime.FreedByTheLast | core/base/FskBitmap.c:669-767 | A step frees the storage exactly when it gives up the last reference, and no further step is possible |
| BitmapLifetime.SeedCountsWrites | core/base/FskBitmap.c:722-742 | The write seed counts the write brackets and nothing else |
| BitmapLifetime.UnfairDisposeFreesEarly | core/base/FskBitmap.c:415-425 | One disposal too many frees the storage under an open bracket |
| BitmapLifetime.Bitmap.Dispose | core/base/FskBitmap.c:415-461 | For an owner the counters go on telling who holds the bitmap, and its storage is freed exactly when that was the last |
| BitmapLifetime.Bitmap.ReadBegin | core/base/FskBitmap.c:676-695 | For a holder the counters go on telling who holds the bitmap, and the surface is locked |
| BitmapLifetime.Bitmap.ReadEnd | core/base/FskBitmap.c:697-720 | The same, and the storage is freed exactly when the bracket was the last reference |
| BitmapLifetime.Bitmap.WriteEnd | core/base/FskBitmap.c:744-767 | The same for a write bracket, which leaves the seed alone |
| LinkedList.InsertSortedStable | core/base/FskList.c:122-145 | In a list sorted by a total preorder the new value goes after all that are equal or less and before all that are greater, and the list stays sorted |
| LinkedList.InsertedListSorted | core/base/FskList.c:122-145 | The same for the nodes, and taking the new one out again gives the old list |
| LinkedList.List.Prepend | core/base/FskList.c:60-80 | The node becomes the first |
| LinkedList.List.Append | core/base/FskList.c:83-104 | The walk to the end links the node last |
| LinkedList.List.InsertAfter | core/base/FskList.c:107-117 | The node is linked after the given one, or first |
| LinkedList.List.InsertSorted | core/base/FskList.c:120-145 | The walking loop links the node at the place the order gives it |
| LinkedList.List.RemoveLast | core/base/FskList.c:148-170 | The last node is unlinked and returned, with its link cleared |
| LinkedList.List.RemoveFirst | core/base/FskList.c:173-187 | The first node is unlinked and returned, with its link cleared |
| LinkedList.List.Remove | core/base/FskList.c:190-215 | The node is unlinked wherever it is, with its link cleared; a node that is not in the list leaves it alone |

## Left out

- FixNDiv64: assumes shifts of registers by less than 64 bits and that no operand to be shifted up is the least 64-bit integer, where the C code is undefined; and that adding half the divisor fits 64 bits where the numerator is not shifted.
- Divide64by32giving32: assumes that adding half the divisor fits 64 bits.
- FixedNSqrt: models even numbers of fraction bits and arguments that fit 62 bits once shifted; for odd ones the code takes the root for one bit less.
- FixedSqrt64to32: models arguments of up to 62 bits, as documented; `FskFixedHypot` and vector norms, which can pass more, are left out.
- VectorRotate: a left shift back that leaves 32 bits loses its top, as in the code; the length is then not kept.
- FxPreNorm: assumes that neither coordinate is the least 32-bit integer, whose negation overflows.
- FixedSplitBezier: the scratch triangle is allocated by the order; the C code has a fixed one for small orders.
- FixedHorner: the error bound is stated for parameters from -1 to 1 and coefficients whose magnitudes add up to 32 bits.
- CompositionBound: stated for 16 fraction bits, which is what the point transform uses, and results that do not saturate.
- BlendColor32: pixels are words of the buffer and row strides are counted in pixels; the same holds for BlendColor16 and Colorize16LE.
- ProcessBlock: the frames that the filters, the volume and the output device make of decoded samples are a parameter; blocks of uncompressed formats, and the flush marker passed as data, are not modelled.
- ThreadSafeMore: runs on a thread other than the channel's, where an empty queue ends the loop; refills by the client's callback appear as enqueues between requests.
- EnqueueWithSkip: assumes that all skips queued add up to less than 2^31, so that handing them over cannot overflow.
- New: assumes a cleared record, as the code does not reset its listener mask; type identifiers do not wrap around.
- Dispose: the notice to the system listeners that an item is disposed of before its children is not modelled, and callbacks do not call back into the registry.
- SetOwner: requires an owner that is not beneath the item; the code does not look.
- Listened: level words are sets of bits; listeners are allocated without failure. Like the registry's and the channel's lists, its list is a sequence: the links in the records, of which an item has two, are modelled only by LinkedList, on nodes of its own.
- Bitmap: its methods are called by holders only, as the protocol demands; what other calls do is shown on the protocol's values. No OpenGL port, and the frame buffer's lock and the release of storage are a flag and a count.
- The x86, PPC and ARM assembler variants of the arithmetic, and conversions from floating point.
- `FskFixedNRatio`, `FskFixedMatrixInvert2x2`, dot products, distances and the tangent of `FskFixedEvaluateBezierVector`.
- `FskFixedVectorInclination`, which returns the angle of the same polarisation.
- The doubly linked list, whose removals leave stale links in neighbours.
- YUV fills, `blendColor24` and `blend8G`, which divide by 256, and `fill8G`.
- Device back ends, codecs, filters and float volume of `core/base/FskAudio.c`; formatting, log files and the memory dump of `core/base/FskInstrumentation.c`; platform bitmaps.
