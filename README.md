# image-cryptor: the scramble engine in Dafny

This project models the core of image-cryptor's scrambler. It has two parts:

- **`RandomNumberGenerator`**, the MINSTD Lehmer generator (multiplier
  A = 16807, modulus P = 2^31 - 1).
  - Its state update A * c mod P is computed with Schrage's split
    (QL = P / A = 127773, RR = P mod A = 2836), so nothing overflows.
  - A seed that shares a factor with P is normalised by stepping to
    (seed + 1) % P until it no longer does.
- **`RasterCreator`**, which scrambles and descrambles an image. `create` has
  four steps:
  1. It unpacks the width * height packed ARGB pixels, row-major, into
     [R, G, B, A] tuples.
  2. It draws one transposition (i, i + (int) random(0, N - i)) per pixel
     from a generator seeded with the seed.
  3. It applies the transpositions in place: in order to scramble, in
     reverse order to descramble.
  4. It writes the pixels back with alpha forced to 255.

Files:

- `java_arith.dfy` (module `JavaArith`) writes out the Java arithmetic the
  source relies on:
  - truncating `/` and `%`;
  - 32-bit `int` wrap-around;
  - the `(int)` cast of a `double`, which truncates and saturates.
- `random_number_generator.dfy` (module `Minstd`) holds:
  - `Gcd`, the seed normalisation `Normalize` and the Schrage update `Step`,
    as functions;
  - the generator as a class `Generator` with one mutable `state` field;
  - lemmas proving that the step is the MINSTD recurrence and stays in
    [1, P - 1], and that the draws are determined by the seed.
- `raster_creator.dfy` (module `RasterCreator`) holds:
  - the pixel codec;
  - the transposition algebra (`SwapAt`, `ApplySwaps`, `Reverse`);
  - the swap list as a function of the seed and the pixel count;
  - the specification function `Transform`;
  - the imperative `create`, split into its read, draw, swap and write
    loops over arrays and sequences;
  - the round-trip, permutation and bounds theorems.

Properties of the code that the proofs bring out:

- A seed is never reduced modulo P. `seed(long)` changes a seed only while
  it shares a factor with P.
  - Every seed of magnitude below 96752654379 gives the first draw a state
    in [1, P - 1]. This covers every seed in [0, P) and the sentinel -1
    (`SafeSeed`). From there every drawn index lies in the image.
  - The seed 1000 * P + 1 is kept as it is. The state of its first draw
    is -45097139780, and the single transposition drawn for a one-pixel image
    is (0, -20), so `swap` throws (`LargeSeedOutOfBounds`).
  - The model keeps this behaviour. `Transform` and `Create` return the
    out-of-bounds outcome and leave the destination untouched.
- The comment on line 108 of `RasterCreator.java` promises
  leftIndex < rightIndex. The code draws rightIndex in [leftIndex, N), which
  is the Durstenfeld shuffle. Equality does occur: for a 2 x 1 image and
  seed 1 both transpositions are (i, i) (`SeedOneTwoPixels`). The model
  follows the code.
- The generator is built even for an image with no pixels, which then
  draws nothing. The model follows the code here as well (`BuildSwapList`
  with n = 0, `TransformEmpty`).

All source paths below are under `src/main/java/cuenen/raymond/image/`,
written out in full.

## Model

| member | source | states |
|---|---|---|
| JavaArith.Div | src/main/java/cuenen/raymond/image/RandomNumberGenerator.java:84 | Java's `/` on `long`: the quotient rounded toward zero; `DivRem` ties it to `Rem` |
| JavaArith.Rem | src/main/java/cuenen/raymond/image/RandomNumberGenerator.java:57 | Java `%`: the remainder is smaller than the divisor in magnitude, takes the dividend's sign, and agrees with the mathematical `%` on non-negative operands |
| JavaArith.DivRem | src/main/java/cuenen/raymond/image/RandomNumberGenerator.java:84-86 | Java's truncating quotient and remainder recombine to the dividend |
| JavaArith.Wrap32 | src/main/java/cuenen/raymond/image/RasterCreator.java:109 | `int` addition: the result equals the exact sum when that is in range, and is always congruent to it modulo 2^32 |
| JavaArith.DoubleToInt | src/main/java/cuenen/raymond/image/RasterCreator.java:109 | the `(int)` cast: a value strictly between INT_MIN and INT_MAX truncates toward zero (the floor of a non-negative value, minus the floor of the magnitude of a negative one); a value at or beyond either end saturates to INT_MAX or INT_MIN |
| Minstd.SchrageConstants | src/main/java/cuenen/raymond/image/RandomNumberGenerator.java:30-49 | QL = P / A and RR = P mod A, so A * QL + RR = P and RR < QL, the condition for Schrage's method |
| Minstd.Gcd | src/main/java/cuenen/raymond/image/RandomNumberGenerator.java:23-25 | `gcd(a, b)`: `a` when `b` is 0, else `gcd(b, a % b)` with Java's `%`; `GcdDivides` and `GcdGreatest` prove it is the greatest common divisor of naturals |
| Minstd.GcdDivides | src/main/java/cuenen/raymond/image/RandomNumberGenerator.java:23-25 | for natural arguments `gcd` is non-negative and divides both arguments |
| Minstd.GcdGreatest | src/main/java/cuenen/raymond/image/RandomNumberGenerator.java:23-25 | every common divisor of two naturals divides their `gcd`, so it is the greatest common divisor |
| Minstd.GcdSmallCases | src/main/java/cuenen/raymond/image/RandomNumberGenerator.java:23-25 | gcd(0, P) = P; gcd(1, P) = gcd(P - 1, P) = gcd(Long.MAX_VALUE, P) = 1; gcd(-1, P) = -1 |
| Minstd.Normalize | src/main/java/cuenen/raymond/image/RandomNumberGenerator.java:56-58 | `seed(long)` terminates. The source's gcd of its result with P is at most 1, and the result is never a multiple of P (`NormalizedNotMultiple`). A seed coprime with P comes back unchanged. A seed in [0, P) maps into [max(seed, 1), P - 1] |
| Minstd.NormalizeZero | src/main/java/cuenen/raymond/image/RandomNumberGenerator.java:56-58 | the seed 0 normalises to 1 |
| Minstd.NormalizeIdempotent | src/main/java/cuenen/raymond/image/RandomNumberGenerator.java:56-58 | normalising a normalised seed changes nothing |
| Minstd.NormalizeNoOverflow | src/main/java/cuenen/raymond/image/RandomNumberGenerator.java:57 | when a `long` seed is stepped, `seed + 1` is still a `long` |
| Minstd.NormalizedNotMultiple | src/main/java/cuenen/raymond/image/RandomNumberGenerator.java:56-58 | a normalised seed is never a multiple of P |
| Minstd.Step | src/main/java/cuenen/raymond/image/RandomNumberGenerator.java:84-88 | the state update of `random(x, y)`: l = c / QL, n = A(c - QL l) - RR l, plus P when n < 0; `StepCongruent`, `StepIsMinstd`, `StepInRange` and `StepStaysLong` state what it computes |
| Minstd.StepCongruent | src/main/java/cuenen/raymond/image/RandomNumberGenerator.java:84-88 | for every state c, Schrage's update is congruent to A * c modulo P |
| Minstd.MultiplierInvertible | src/main/java/cuenen/raymond/image/RandomNumberGenerator.java:30-36 | A is invertible modulo P: A * c is a multiple of P only when c is |
| Minstd.StepInRange | src/main/java/cuenen/raymond/image/RandomNumberGenerator.java:84-88 | from any state that is not a multiple of P and has magnitude below 96752654379, the update lands in [1, P - 1] |
| Minstd.StepIsMinstd | src/main/java/cuenen/raymond/image/RandomNumberGenerator.java:84-88 | for 1 <= c <= P - 1 the update equals (A * c) mod P and stays in [1, P - 1] |
| Minstd.StepStaysLong | src/main/java/cuenen/raymond/image/RandomNumberGenerator.java:84-88 | a state that fits in a `long` updates to one that does |
| Minstd.Scale | src/main/java/cuenen/raymond/image/RandomNumberGenerator.java:89 | the value `random(x, y)` returns from the new state s, x + (y - x)(s - 1)/(P - 1) over exact reals; `ScaleInRange` bounds it |
| Minstd.SafeSeed | src/main/java/cuenen/raymond/image/RandomNumberGenerator.java:56-88 | every seed of magnitude below 96752654379 gives the first draw a state in [1, P - 1], although the seed itself may lie outside that range |
| Minstd.ScaleInRange | src/main/java/cuenen/raymond/image/RandomNumberGenerator.java:89 | for a state in [1, P - 1], x + (y - x)(s - 1)/(P - 1) lies in [x, y) |
| Minstd.Generator.constructor | src/main/java/cuenen/raymond/image/RandomNumberGenerator.java:72-74 | the state is the normalised seed, in [1, P - 1] for a seed in [0, P) |
| Minstd.Generator.FromClock | src/main/java/cuenen/raymond/image/RandomNumberGenerator.java:63-65 | the no-argument constructor seeds with the clock reading % P; for a non-negative reading the state is in [1, P - 1] |
| Minstd.Generator.Random | src/main/java/cuenen/raymond/image/RandomNumberGenerator.java:83-90 | `random(x, y)` advances the state exactly once by Schrage's update, returns the new state scaled into [x, y), and keeps the state in [1, P - 1] |
| Minstd.Generator.RandomUnit | src/main/java/cuenen/raymond/image/RandomNumberGenerator.java:97-99 | `random()` is `random(0, 1)`, so from an in-range state the result is in [0, 1) |
| Minstd.Generator.Seed | src/main/java/cuenen/raymond/image/RandomNumberGenerator.java:106-108 | `seed()` returns the current state and changes nothing |
| Minstd.StateAfter | src/main/java/cuenen/raymond/image/RandomNumberGenerator.java:72-88 | the state of a generator built from `seed` after k calls of `random`: the normalised seed, then k updates |
| Minstd.DrawsFrom | src/main/java/cuenen/raymond/image/RandomNumberGenerator.java:83-90 | the first k values a generator built from `seed` returns from `random(x, y)`; it has k entries |
| Minstd.StateAfterInRange | src/main/java/cuenen/raymond/image/RandomNumberGenerator.java:72-89 | from a seed in [0, P) every state lies in [1, P - 1]; from any seed of magnitude below 96752654379, the sentinel -1 included, every state after the first update does |
| Minstd.DrawsFromAt | src/main/java/cuenen/raymond/image/RandomNumberGenerator.java:83-90 | draw i of a seeded generator scales its state after i + 1 updates |
| Minstd.Draws | src/main/java/cuenen/raymond/image/RandomNumberGenerator.java:72-108 | k calls of `random(x, y)` on a freshly seeded generator return draws that are a function of (seed, x, y, k) and leave a state that is a function of (seed, k), so generators seeded alike and called alike agree |
| Minstd.DrawsInRange | src/main/java/cuenen/raymond/image/RandomNumberGenerator.java:83-90 | every draw from a seed of magnitude below 96752654379 (all of [0, P) and -1) lies in [x, y) |
| RasterCreator.Unpack | src/main/java/cuenen/raymond/image/RasterCreator.java:94-99 | every unpacked channel is in [0, 255] |
| RasterCreator.UnpackLayout | src/main/java/cuenen/raymond/image/RasterCreator.java:94-99 | the four channels are the pixel's four bytes: alpha bits 24-31, red 16-23, green 8-15, blue 0-7 |
| RasterCreator.Repack | src/main/java/cuenen/raymond/image/RasterCreator.java:129-131 | the repacked `int`: bytes 0xFF, R, G, B from high to low, which as a Java `int` lies in [-2^24, -1] |
| RasterCreator.UnpackRepack | src/main/java/cuenen/raymond/image/RasterCreator.java:129-131 | unpacking a repacked tuple gives back its red, green and blue bytes, with alpha 255 |
| RasterCreator.Opaque | src/main/java/cuenen/raymond/image/RasterCreator.java:94-131 | a pixel read by the unpacking code and written back by the repacking code; `OpaqueKeepsColour`, `OpaqueIdempotent` and `OpaqueAlreadyOpaque` say what that does |
| RasterCreator.OpaqueKeepsColour | src/main/java/cuenen/raymond/image/RasterCreator.java:129-131 | reading and writing a pixel keeps red, green and blue and sets alpha to 255 |
| RasterCreator.OpaqueIdempotent | src/main/java/cuenen/raymond/image/RasterCreator.java:129-131 | forcing alpha twice is forcing it once |
| RasterCreator.OpaqueAlreadyOpaque | src/main/java/cuenen/raymond/image/RasterCreator.java:129-131 | a pixel whose alpha is already 255 is written back bit for bit |
| RasterCreator.OpaqueTwice | src/main/java/cuenen/raymond/image/RasterCreator.java:124-134 | forcing alpha over a whole image a second time changes nothing |
| RasterCreator.SwapAt | src/main/java/cuenen/raymond/image/RasterCreator.java:145-150 | `swap` exchanges the two positions, keeps every other one, and changes nothing when they coincide |
| RasterCreator.SwapAtRearranges | src/main/java/cuenen/raymond/image/RasterCreator.java:145-150 | one transposition keeps the multiset of elements |
| RasterCreator.SwapTwice | src/main/java/cuenen/raymond/image/RasterCreator.java:145-150 | a transposition undoes itself |
| RasterCreator.ApplySwaps | src/main/java/cuenen/raymond/image/RasterCreator.java:116-122 | the swap loop run over a list of transpositions first to last, `swap` applied to each; it keeps the length |
| RasterCreator.Reverse | src/main/java/cuenen/raymond/image/RasterCreator.java:119 | the swap list read last to first: entry k of the result is entry N - 1 - k |
| RasterCreator.ApplySwapsRearranges | src/main/java/cuenen/raymond/image/RasterCreator.java:116-122 | applying in-bounds transpositions keeps the multiset of elements |
| RasterCreator.BackwardUndoesForward | src/main/java/cuenen/raymond/image/RasterCreator.java:116-122 | replaying the swap list last to first undoes replaying it first to last |
| RasterCreator.ForwardUndoesBackward | src/main/java/cuenen/raymond/image/RasterCreator.java:116-122 | replaying it first to last undoes replaying it last to first |
| RasterCreator.Order | src/main/java/cuenen/raymond/image/RasterCreator.java:118-120 | the order in which the swap loop visits the list: as drawn for FORWARD, reversed for BACKWARD; it keeps the length |
| RasterCreator.Permute | src/main/java/cuenen/raymond/image/RasterCreator.java:116-122 | the swap loop for either direction; it keeps the length |
| RasterCreator.OrderAt | src/main/java/cuenen/raymond/image/RasterCreator.java:118-120 | step i of the swap loop uses entry i to scramble and entry N - i - 1 to descramble |
| RasterCreator.RightIndex | src/main/java/cuenen/raymond/image/RasterCreator.java:109 | `leftIndex + (int) rand.random(0, N - leftIndex)` once the generator holds state s, with the cast and the `int` addition as Java does them; `RightIndexInRange` and `RightIndexIsIntegerDraw` state its value |
| RasterCreator.RightIndexInRange | src/main/java/cuenen/raymond/image/RasterCreator.java:108-109 | from a state in [1, P - 1] the drawn index lies in [leftIndex, N), equality included |
| RasterCreator.RightIndexIsIntegerDraw | src/main/java/cuenen/raymond/image/RasterCreator.java:109 | the drawn index is leftIndex + floor((N - leftIndex)(s - 1)/(P - 1)), computed over the integers |
| RasterCreator.SwapsFrom | src/main/java/cuenen/raymond/image/RasterCreator.java:107-114 | the entries the draw loop appends for positions left .. N - 1 from a given state: N - left entries, entry k having leftIndex left + k |
| RasterCreator.SwapList | src/main/java/cuenen/raymond/image/RasterCreator.java:104-114 | the swap list of an N-pixel image drawn from a generator seeded with `seed`: N entries, entry i having leftIndex i |
| RasterCreator.SwapsFromInRange | src/main/java/cuenen/raymond/image/RasterCreator.java:104-114 | while the states stay in [1, P - 1], the entry for position i pairs it with a position in [i, N) |
| RasterCreator.SwapListInBounds | src/main/java/cuenen/raymond/image/RasterCreator.java:104-114 | when the state of the first draw is in [1, P - 1], the swap list has N entries and entry i is (i, j) with i <= j < N: a Fisher–Yates shuffle |
| RasterCreator.LargeSeedOutOfBounds | src/main/java/cuenen/raymond/image/RasterCreator.java:105-109 | the seed 1000 * P + 1 is not reduced, steps out of [1, P - 1], and draws the index -20 for a one-pixel image |
| RasterCreator.SeedOneTwoPixels | src/main/java/cuenen/raymond/image/RasterCreator.java:107-114 | seed 1 with two pixels draws (0, 0) and (1, 1): rightIndex can equal leftIndex, contrary to the comment on line 108 |
| RasterCreator.Transform | src/main/java/cuenen/raymond/image/RasterCreator.java:83-135 | what `create` leaves in the destination: the unpacked pixels rearranged by the swap list in the chosen direction and repacked, or the out-of-bounds outcome when a drawn index lies outside the image; a written image has N pixels |
| RasterCreator.TransformPermutesOpaque | src/main/java/cuenen/raymond/image/RasterCreator.java:83-135 | when every swap is in bounds, `create` writes the alpha-forced pixels rearranged by the swap list in the given direction |
| RasterCreator.ScrambleRoundTrip | src/main/java/cuenen/raymond/image/RasterCreator.java:55-69 | descrambling a scrambled image with the same seed restores every pixel's colour, with alpha 255 |
| RasterCreator.DescrambleRoundTrip | src/main/java/cuenen/raymond/image/RasterCreator.java:55-69 | scrambling a descrambled image with the same seed restores it likewise |
| RasterCreator.TransformRearranges | src/main/java/cuenen/raymond/image/RasterCreator.java:116-122 | either direction writes N pixels, the same multiset as the alpha-forced input |
| RasterCreator.TransformSucceeds | src/main/java/cuenen/raymond/image/RasterCreator.java:104-122 | no swap throws when the state of the first draw is in [1, P - 1] |
| RasterCreator.TransformEmpty | src/main/java/cuenen/raymond/image/RasterCreator.java:89-134 | an image with no pixels draws no transposition and writes nothing |
| RasterCreator.TransformSinglePixel | src/main/java/cuenen/raymond/image/RasterCreator.java:107-122 | when the state of the first draw is in [1, P - 1] (every seed of magnitude below 96752654379, by `SafeSeed`), a one-pixel image draws the single transposition (0, 0) and is written back unchanged apart from alpha |
| RasterCreator.ReadImage | src/main/java/cuenen/raymond/image/RasterCreator.java:89-102 | the read loop yields the unpacked pixels in row-major order |
| RasterCreator.DrawSwap | src/main/java/cuenen/raymond/image/RasterCreator.java:109-113 | one draw advances the generator once and produces the next entry of the swap list |
| RasterCreator.BuildSwapList | src/main/java/cuenen/raymond/image/RasterCreator.java:104-114 | the draw loop produces exactly the swap list determined by the seed and N |
| RasterCreator.Swap | src/main/java/cuenen/raymond/image/RasterCreator.java:145-150 | `swap` succeeds exactly when both indices are in the list. It then exchanges the two positions in place. Otherwise it throws with the list unchanged |
| RasterCreator.PerformSwaps | src/main/java/cuenen/raymond/image/RasterCreator.java:116-122 | the swap loop completes exactly when every entry is in bounds, and leaves the list rearranged in the chosen direction |
| RasterCreator.FillRow | src/main/java/cuenen/raymond/image/RasterCreator.java:127-132 | the buffer holds the next row of repacked pixels, and the list index advances by the row width |
| RasterCreator.SetRow | src/main/java/cuenen/raymond/image/RasterCreator.java:133 | `setDataElements` replaces one row of the destination with the buffer and leaves the rest |
| RasterCreator.WriteImage | src/main/java/cuenen/raymond/image/RasterCreator.java:124-134 | the write loop stores the repacked pixel k at index k = x + y * width |
| RasterCreator.Create | src/main/java/cuenen/raymond/image/RasterCreator.java:83-135 | `create` writes exactly the pixels `Transform` specifies, or leaves the destination untouched when a swap throws |
| RasterCreator.Scramble | src/main/java/cuenen/raymond/image/RasterCreator.java:55-57 | `scramble` is `create` in the forward direction |
| RasterCreator.Descramble | src/main/java/cuenen/raymond/image/RasterCreator.java:67-69 | `descramble` is `create` in the backward direction |

## Left out

- The Swing viewer, `HiddenMask`, `GraphicsUtilities`, `ImageCreator` and `ImageConstructor` are not part of this model. They are UI code, float compositing, library image conversion, and file, PNG and metadata I/O.
- The end-to-end file round trip through `ImageCreator` is not modelled. That code scrambles with the raw seed (-1 for a random seed) but stores the normalised random number, so the round trip is proved at the `RasterCreator` level with one shared seed.
- `System.currentTimeMillis()` becomes the parameter of `Generator.FromClock`.
- The `AtomicLong` is modelled as a plain field. Line 84 reads the state before `updateAndGet`, so concurrent callers could use a stale quotient. That interleaving is not modelled.
- `double` arithmetic in `random(x, y)` is idealised as exact real arithmetic. IEEE rounding is not modelled. `RightIndexIsIntegerDraw` states the integer form of the resulting draw.
- The primality of P is not proved. The facts that need it use the explicit inverse 1407677000 of A modulo P instead.
- Seeds are unbounded integers. The lemmas show that no intermediate value leaves the `long` range (`NormalizeNoOverflow`, `StepStaysLong`).
- `Raster.getDataElements` and `setDataElements` are abstracted:
  - the source is a row-major sequence of packed `int` pixels;
  - the destination is an `int32` array of the same length.
- The `int` overflow of width * height and the limits of `ArrayList` sizes are not modelled. N is taken to be the exact pixel count.
- `RasterElement.pixel` is modelled as a four-field datatype rather than a mutable `int[4]`. The source never updates one after filling it.
- `imageList` is modelled as an array of elements rather than a growable list. It is filled from the unpacked sequence before the swap loop.
