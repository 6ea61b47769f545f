/** `RasterCreator`: scrambles an image by a seeded Fisher–Yates shuffle of its
    pixels and descrambles it by replaying the same transpositions in reverse
    order.

    `create` runs in four steps: it unpacks the width * height packed ARGB
    pixels into [R, G, B, A] channel tuples (row-major, index x + y * width),
    draws one transposition (i, i + draw) per pixel from a generator seeded
    with the seed, applies the transpositions in place (in order to scramble,
    in reverse order to descramble) and repacks the pixels with alpha forced
    to 255. The raster reads and writes become a row-major sequence of
    pixels and a destination array. */
module RasterCreator {
  import opened JavaArith
  import opened Minstd

  /** `SwapDirection`. */
  datatype SwapDirection = Forward | Backward

  /** The four channels of one pixel, in the source's order [R, G, B, A]
      (`RasterElement.pixel`). */
  datatype RasterElement = RasterElement(red: int, green: int, blue: int, alpha: int)

  /** One transposition of the shuffle (`SwapElement`). */
  datatype SwapElement = SwapElement(leftIndex: int, rightIndex: int)

  /** What `create` does with an image: it writes the destination pixels, or
      `swap` throws an IndexOutOfBoundsException on a drawn index outside the
      image and nothing is written. */
  datatype Outcome = Written(pixels: seq<int32>) | IndexOutOfBounds

  function Map<T, U>(f: T -> U, s: seq<T>): seq<U> {
    seq(|s|, i requires 0 <= i < |s| => f(s[i]))
  }

  lemma MapCompose<T, U, V>(f: T -> U, g: U -> V, h: T -> V, s: seq<T>)
    requires forall x :: h(x) == g(f(x))
    ensures Map(g, Map(f, s)) == Map(h, s)
  {
  }

  // ------------------------------------------------------------ pixel codec

  predicate IsChannel(v: int) {
    0 <= v < 0x100
  }

  /** Unpacking a packed ARGB `int` as `(pixel >> k) & 0xFF`. On a Java `int`
      the arithmetic shift right by k is floor division by 2^k and `& 0xFF`
      is the non-negative remainder modulo 256, for negative pixels too. */
  function Unpack(pixel: int32): (e: RasterElement)
    ensures IsChannel(e.red) && IsChannel(e.green) && IsChannel(e.blue) && IsChannel(e.alpha)
  {
    var p := pixel as int;
    RasterElement((p / 0x1_0000) % 0x100, (p / 0x100) % 0x100, p % 0x100, (p / 0x100_0000) % 0x100)
  }

  /** The four channels are exactly the four bytes of the pixel's 32 bits,
      alpha the highest. */
  lemma UnpackLayout(pixel: int32)
    ensures var e := Unpack(pixel);
      pixel as int % 0x1_0000_0000 == e.alpha * 0x100_0000 + e.red * 0x1_0000 + e.green * 0x100 + e.blue
  {
    ByteLayout(pixel as int);
  }

  lemma ByteLayout(p: int)
    ensures p % 0x1_0000_0000
         == ((p / 0x100_0000) % 0x100) * 0x100_0000 + ((p / 0x1_0000) % 0x100) * 0x1_0000
          + ((p / 0x100) % 0x100) * 0x100 + p % 0x100
  {
    var q1 := p / 0x100;
    var q2 := q1 / 0x100;
    var q3 := q2 / 0x100;
    var q4 := q3 / 0x100;
    assert q2 == p / 0x1_0000 && q3 == p / 0x100_0000 && q4 == p / 0x1_0000_0000;
    assert p == q1 * 0x100 + p % 0x100;
    assert q1 == q2 * 0x100 + q1 % 0x100;
    assert q2 == q3 * 0x100 + q2 % 0x100;
    assert q3 == q4 * 0x100 + q3 % 0x100;
    assert p == q4 * 0x1_0000_0000 + p % 0x1_0000_0000;
  }

  /** Repacking `(255 & 0xFF) << 24 | (R & 0xFF) << 16 | (G & 0xFF) << 8 | B & 0xFF`:
      the four bytes do not overlap, so the `|` is their sum, and the top
      byte 0xFF makes the Java `int` negative. */
  function Repack(e: RasterElement): (r: int32)
    ensures -0x100_0000 <= r < 0
  {
    (0xFF * 0x100_0000 + (e.red % 0x100) * 0x1_0000 + (e.green % 0x100) * 0x100
      + e.blue % 0x100 - 0x1_0000_0000) as int32
  }

  /** The bytes of a number laid out as four bytes plus a multiple of 2^32,
      as Unpack extracts them. */
  lemma Bytes(p: int, k: int, b3: int, b2: int, b1: int, b0: int)
    requires IsChannel(b3) && IsChannel(b2) && IsChannel(b1) && IsChannel(b0)
    requires p == b3 * 0x100_0000 + b2 * 0x1_0000 + b1 * 0x100 + b0 + k * 0x1_0000_0000
    ensures p % 0x100 == b0 && (p / 0x100) % 0x100 == b1
    ensures (p / 0x1_0000) % 0x100 == b2 && (p / 0x100_0000) % 0x100 == b3
  {
    DivMod(p, 0x100, b3 * 0x1_0000 + b2 * 0x100 + b1 + k * 0x100_0000, b0);
    DivMod(p / 0x100, 0x100, b3 * 0x100 + b2 + k * 0x1_0000, b1);
    DivMod(p, 0x1_0000, b3 * 0x100 + b2 + k * 0x1_0000, b1 * 0x100 + b0);
    DivMod(p / 0x1_0000, 0x100, b3 + k * 0x100, b2);
    DivMod(p, 0x100_0000, b3 + k * 0x100, b2 * 0x1_0000 + b1 * 0x100 + b0);
    DivMod(p / 0x100_0000, 0x100, k, b3);
  }

  /** Unpacking a repacked pixel gives back its colour bytes with alpha 255. */
  lemma UnpackRepack(e: RasterElement)
    ensures Unpack(Repack(e)) == RasterElement(e.red % 0x100, e.green % 0x100, e.blue % 0x100, 0xFF)
  {
    Bytes(Repack(e) as int, -1, 0xFF, e.red % 0x100, e.green % 0x100, e.blue % 0x100);
  }

  /** A pixel as `create` writes it back: same colour, fully opaque. */
  function Opaque(pixel: int32): int32 {
    Repack(Unpack(pixel))
  }

  /** Forcing alpha keeps red, green and blue and sets alpha to 255. */
  lemma OpaqueKeepsColour(pixel: int32)
    ensures Unpack(Opaque(pixel)) == Unpack(pixel).(alpha := 0xFF)
  {
    var e := Unpack(pixel);
    assert e.red % 0x100 == e.red && e.green % 0x100 == e.green && e.blue % 0x100 == e.blue;
    var q := Opaque(pixel) as int;
    assert q == 0xFF * 0x100_0000 + e.red * 0x1_0000 + e.green * 0x100 + e.blue - 0x1_0000_0000;
    Bytes(q, -1, 0xFF, e.red, e.green, e.blue);
  }

  /** Forcing alpha twice is forcing it once. */
  lemma OpaqueIdempotent(pixel: int32)
    ensures Opaque(Opaque(pixel)) == Opaque(pixel)
  {
    OpaqueKeepsColour(pixel);
    var e := Unpack(pixel);
    assert Repack(e.(alpha := 0xFF)) == Repack(e);
  }

  /** An already opaque pixel is left as it is. */
  lemma OpaqueAlreadyOpaque(pixel: int32)
    requires Unpack(pixel).alpha == 0xFF
    ensures Opaque(pixel) == pixel
  {
    var e := Unpack(pixel);
    UnpackLayout(pixel);
    var u := pixel as int % 0x1_0000_0000;
    assert u == 0xFF * 0x100_0000 + e.red * 0x1_0000 + e.green * 0x100 + e.blue;
    assert u >= 0x8000_0000;
    assert pixel < 0;
    assert u == pixel as int + 0x1_0000_0000;
    assert e.red % 0x100 == e.red && e.green % 0x100 == e.green && e.blue % 0x100 == e.blue;
    assert Repack(e) as int == u - 0x1_0000_0000;
  }

  /** Forcing alpha on a whole image a second time changes nothing. */
  lemma OpaqueTwice(s: seq<int32>)
    ensures Map(Opaque, Map(Opaque, s)) == Map(Opaque, s)
  {
    forall x: int32
      ensures Opaque(x) == Opaque(Opaque(x))
    {
      OpaqueIdempotent(x);
    }
    MapCompose(Opaque, Opaque, Opaque, s);
  }

  // ------------------------------------------------------------- transpositions

  /** `swap` on a list: the two positions exchange their elements, every other
      position keeps its own, and nothing changes when they are the same. */
  function SwapAt<T>(s: seq<T>, i: int, j: int): (r: seq<T>)
    requires 0 <= i < |s| && 0 <= j < |s|
    ensures |r| == |s| && r[i] == s[j] && r[j] == s[i]
    ensures forall k :: 0 <= k < |s| && k != i && k != j ==> r[k] == s[k]
    ensures i == j ==> r == s
  {
    s[j := s[i]][i := s[j]]
  }

  /** A transposition keeps every element, as many times as before. */
  lemma SwapAtRearranges<T>(s: seq<T>, i: int, j: int)
    requires 0 <= i < |s| && 0 <= j < |s|
    ensures multiset(SwapAt(s, i, j)) == multiset(s)
  {
    assert SwapAt(s, i, j) == s[j := s[i]][i := s[j]];
  }

  /** Every index of every transposition lies in [0, n). */
  predicate InBounds(swaps: seq<SwapElement>, n: int) {
    forall k :: 0 <= k < |swaps| ==> 0 <= swaps[k].leftIndex < n && 0 <= swaps[k].rightIndex < n
  }

  /** The transpositions applied one after the other, first to last. */
  function ApplySwaps<T>(s: seq<T>, swaps: seq<SwapElement>): (r: seq<T>)
    requires InBounds(swaps, |s|)
    ensures |r| == |s|
    decreases |swaps|
  {
    if swaps == [] then s
    else ApplySwaps(SwapAt(s, swaps[0].leftIndex, swaps[0].rightIndex), swaps[1..])
  }

  /** Applying transpositions only rearranges: every element is kept, as many
      times as before. */
  lemma {:induction false} ApplySwapsRearranges<T>(s: seq<T>, swaps: seq<SwapElement>)
    requires InBounds(swaps, |s|)
    ensures multiset(ApplySwaps(s, swaps)) == multiset(s)
    decreases |swaps|
  {
    if swaps != [] {
      var t := SwapAt(s, swaps[0].leftIndex, swaps[0].rightIndex);
      SwapAtRearranges(s, swaps[0].leftIndex, swaps[0].rightIndex);
      ApplySwapsRearranges(t, swaps[1..]);
    }
  }

  /** The sequence read backwards. */
  function Reverse<T>(s: seq<T>): (r: seq<T>)
    ensures |r| == |s| && forall k :: 0 <= k < |s| ==> r[k] == s[|s| - 1 - k]
  {
    if s == [] then [] else [s[|s| - 1]] + Reverse(s[..|s| - 1])
  }

  lemma ReverseFirst<T>(s: seq<T>)
    requires s != []
    ensures Reverse(s) == Reverse(s[1..]) + [s[0]]
  {
    assert forall k :: 0 <= k < |s| ==> Reverse(s)[k] == (Reverse(s[1..]) + [s[0]])[k];
  }

  lemma ReverseReverse<T>(s: seq<T>)
    ensures Reverse(Reverse(s)) == s
  {
    assert forall k :: 0 <= k < |s| ==> Reverse(Reverse(s))[k] == s[k];
  }

  lemma ReverseInBounds(swaps: seq<SwapElement>, n: int)
    ensures InBounds(Reverse(swaps), n) <==> InBounds(swaps, n)
  {
    var r := Reverse(swaps);
    if InBounds(swaps, n) {
      forall k | 0 <= k < |r|
        ensures 0 <= r[k].leftIndex < n && 0 <= r[k].rightIndex < n
      {
        assert r[k] == swaps[|swaps| - 1 - k];
      }
    }
    if InBounds(r, n) {
      forall k | 0 <= k < |swaps|
        ensures 0 <= swaps[k].leftIndex < n && 0 <= swaps[k].rightIndex < n
      {
        assert r[|swaps| - 1 - k] == swaps[k];
      }
    }
  }

  /** Applying u and then v is applying u + v. */
  lemma {:induction false} ApplySwapsAppend<T>(s: seq<T>, u: seq<SwapElement>, v: seq<SwapElement>)
    requires InBounds(u, |s|) && InBounds(v, |s|)
    ensures InBounds(u + v, |s|)
    ensures ApplySwaps(s, u + v) == ApplySwaps(ApplySwaps(s, u), v)
    decreases |u|
  {
    assert forall k :: 0 <= k < |u + v| ==> (u + v)[k] == if k < |u| then u[k] else v[k - |u|];
    if u == [] {
      assert u + v == v;
    } else {
      var t := SwapAt(s, u[0].leftIndex, u[0].rightIndex);
      assert (u + v)[0] == u[0] && (u + v)[1..] == u[1..] + v;
      assert ApplySwaps(s, u + v) == ApplySwaps(t, u[1..] + v);
      assert ApplySwaps(s, u) == ApplySwaps(t, u[1..]);
      ApplySwapsAppend(t, u[1..], v);
    }
  }

  /** One more transposition at the end of a prefix. */
  lemma ApplySwapsStep<T>(s: seq<T>, order: seq<SwapElement>, i: nat)
    requires i < |order| && InBounds(order[..i], |s|)
    requires 0 <= order[i].leftIndex < |s| && 0 <= order[i].rightIndex < |s|
    ensures InBounds(order[..i + 1], |s|)
    ensures ApplySwaps(s, order[..i + 1])
         == SwapAt(ApplySwaps(s, order[..i]), order[i].leftIndex, order[i].rightIndex)
  {
    var e := order[i];
    assert order[..i + 1] == order[..i] + [e];
    assert InBounds([e], |s|);
    ApplySwapsAppend(s, order[..i], [e]);
    assert [e][1..] == [];
  }

  /** A transposition undoes itself. */
  lemma SwapTwice<T>(s: seq<T>, i: int, j: int)
    requires 0 <= i < |s| && 0 <= j < |s|
    ensures SwapAt(SwapAt(s, i, j), i, j) == s
  {
    assert forall k :: 0 <= k < |s| ==> SwapAt(SwapAt(s, i, j), i, j)[k] == s[k];
  }

  /** Replaying the transpositions in reverse order undoes them. */
  lemma {:induction false} BackwardUndoesForward<T>(s: seq<T>, swaps: seq<SwapElement>)
    requires InBounds(swaps, |s|)
    ensures InBounds(Reverse(swaps), |s|)
    ensures ApplySwaps(ApplySwaps(s, swaps), Reverse(swaps)) == s
    decreases |swaps|
  {
    ReverseInBounds(swaps, |s|);
    if swaps != [] {
      var first, rest := swaps[0], swaps[1..];
      var t := SwapAt(s, first.leftIndex, first.rightIndex);
      ReverseFirst(swaps);
      ReverseInBounds(rest, |s|);
      BackwardUndoesForward(t, rest);
      ApplySwapsAppend(ApplySwaps(t, rest), Reverse(rest), [first]);
      SwapTwice(s, first.leftIndex, first.rightIndex);
    }
  }

  /** And replaying them in order undoes the reverse replay. */
  lemma ForwardUndoesBackward<T>(s: seq<T>, swaps: seq<SwapElement>)
    requires InBounds(swaps, |s|)
    ensures InBounds(Reverse(swaps), |s|)
    ensures ApplySwaps(ApplySwaps(s, Reverse(swaps)), swaps) == s
  {
    ReverseInBounds(swaps, |s|);
    BackwardUndoesForward(s, Reverse(swaps));
    ReverseReverse(swaps);
  }

  /** Rearranging commutes with converting each element. */
  lemma {:induction false} ApplySwapsMap<T, U>(f: T -> U, s: seq<T>, swaps: seq<SwapElement>)
    requires InBounds(swaps, |s|)
    ensures ApplySwaps(Map(f, s), swaps) == Map(f, ApplySwaps(s, swaps))
    decreases |swaps|
  {
    if swaps != [] {
      var i, j := swaps[0].leftIndex, swaps[0].rightIndex;
      assert SwapAt(Map(f, s), i, j) == Map(f, SwapAt(s, i, j));
      ApplySwapsMap(f, SwapAt(s, i, j), swaps[1..]);
    }
  }

  /** The order in which the swap loop visits the list: first to last to
      scramble, last to first to descramble. */
  function Order(dir: SwapDirection, swaps: seq<SwapElement>): (r: seq<SwapElement>)
    ensures |r| == |swaps|
  {
    if dir == Forward then swaps else Reverse(swaps)
  }

  /** Step i of the swap loop uses entry i to scramble and entry N - i - 1 to
      descramble. */
  lemma OrderAt(dir: SwapDirection, swaps: seq<SwapElement>, i: nat)
    requires i < |swaps|
    ensures |Order(dir, swaps)| == |swaps|
    ensures Order(dir, swaps)[i] == swaps[if dir == Forward then i else |swaps| - i - 1]
  {
  }

  /** A visiting order in bounds means the list is in bounds. */
  lemma OrderInBounds(dir: SwapDirection, swaps: seq<SwapElement>, n: int)
    requires InBounds(Order(dir, swaps), n)
    ensures InBounds(swaps, n)
  {
    ReverseInBounds(swaps, n);
  }

  /** The swap loop of `create` for either direction. */
  function Permute<T>(dir: SwapDirection, s: seq<T>, swaps: seq<SwapElement>): (r: seq<T>)
    requires InBounds(swaps, |s|)
    ensures |r| == |s|
  {
    ReverseInBounds(swaps, |s|);
    ApplySwaps(s, Order(dir, swaps))
  }

  // ------------------------------------------------------------- the swap list

  /** `leftIndex + (int) rand.random(0, N - leftIndex)` once the generator has
      moved to state s. */
  function RightIndex(left: int, n: int, s: int): int {
    Wrap32(left + DoubleToInt(Scale(0.0, (n - left) as real, s)) as int) as int
  }

  /** From a state in [1, P - 1] the drawn index lies in [left, n): it may equal
      left, so a pixel can stay where it is. */
  lemma RightIndexInRange(left: int, n: int, s: int)
    requires 0 <= left < n <= INT_MAX && 1 <= s < P
    ensures left <= RightIndex(left, n, s) < n
  {
    var m := (n - left) as real;
    ScaleInRange(0.0, m, s);
    var d := Scale(0.0, m, s);
    assert 0.0 <= d < m <= INT_MAX as real;
    assert DoubleToInt(d) as int == d.Floor;
    assert 0 <= d.Floor < n - left;
  }

  /** The floor of an exact real quotient of naturals is their integer
      quotient. */
  lemma RealQuotientFloor(a: nat, b: nat)
    requires b > 0
    ensures (a as real / b as real).Floor == a / b
  {
    var q, r := a / b, a % b;
    assert a == q * b + r;
    var d := a as real / b as real;
    assert a as real == q as real * b as real + r as real;
    assert d == q as real + r as real / b as real;
    assert 0.0 <= r as real / b as real < 1.0;
  }

  /** The drawn index is the integer idealisation of the draw: left plus
      (n - left) * (s - 1) / (P - 1), rounded down. */
  lemma RightIndexIsIntegerDraw(left: int, n: int, s: int)
    requires 0 <= left < n <= INT_MAX && 1 <= s < P
    ensures RightIndex(left, n, s) == left + ((n - left) * (s - 1)) / (P - 1)
  {
    var m := n - left;
    RightIndexInRange(left, n, s);
    ScaleInRange(0.0, m as real, s);
    var d := Scale(0.0, m as real, s);
    assert d == (m * (s - 1)) as real / (P - 1) as real;
    RealQuotientFloor(m * (s - 1), P - 1);
    assert DoubleToInt(d) as int == (m * (s - 1)) / (P - 1);
  }

  /** The transpositions for positions left .. n - 1, the generator being in
      `state` before the first draw: one per position, position first. */
  function SwapsFrom(state: int, left: nat, n: nat): (r: seq<SwapElement>)
    requires left <= n
    ensures |r| == n - left
    ensures forall k :: 0 <= k < |r| ==> r[k].leftIndex == left + k
    decreases n - left
  {
    if left == n then []
    else
      var next := Step(state);
      [SwapElement(left, RightIndex(left, n, next))] + SwapsFrom(next, left + 1, n)
  }

  /** One draw peeled off the front of the list. */
  lemma SwapsFromUnfold(state: int, left: nat, n: nat)
    requires left < n
    ensures SwapsFrom(state, left, n)
         == [SwapElement(left, RightIndex(left, n, Step(state)))] + SwapsFrom(Step(state), left + 1, n)
  {
  }

  /** The swap list of `create` for an image of n pixels: a function of the
      seed and n alone. */
  function SwapList(seed: int, n: nat): (r: seq<SwapElement>)
    ensures |r| == n && forall k :: 0 <= k < n ==> r[k].leftIndex == k
  {
    SwapsFrom(Normalize(seed), 0, n)
  }

  /** While the generator's states stay in [1, P - 1], transposition k pairs
      position k with a position in [k, n). */
  lemma {:induction false} SwapsFromInRange(state: int, left: nat, n: nat)
    requires left <= n <= INT_MAX && 1 <= Step(state) < P
    ensures forall k :: 0 <= k < n - left ==>
      left + k <= SwapsFrom(state, left, n)[k].rightIndex < n
    decreases n - left
  {
    if left < n {
      var next := Step(state);
      RightIndexInRange(left, n, next);
      StepIsMinstd(next);
      SwapsFromInRange(next, left + 1, n);
      var r := SwapsFrom(state, left, n);
      assert r[1..] == SwapsFrom(next, left + 1, n);
      forall k | 0 <= k < n - left
        ensures left + k <= r[k].rightIndex < n
      {
        if k > 0 {
          assert r[k] == r[1..][k - 1];
        }
      }
    }
  }

  /** When the first draw lands in [1, P - 1], the swap list describes a
      Fisher–Yates shuffle: n entries, entry i being (i, j) with i <= j < n. */
  lemma SwapListInBounds(seed: int, n: nat)
    requires n <= INT_MAX && 1 <= Step(Normalize(seed)) < P
    ensures InBounds(SwapList(seed, n), n)
    ensures forall k :: 0 <= k < n ==>
      SwapList(seed, n)[k].leftIndex == k <= SwapList(seed, n)[k].rightIndex < n
  {
    SwapsFromInRange(Normalize(seed), 0, n);
  }

  lemma LargeSeedCoprime()
    ensures Gcd(1000 * P + 1, P) == 1
  {
    var seed := 1000 * P + 1;
    assert seed == 2147483647001;
    assert Rem(seed, P) == 1 by {
      assert seed % P == 1;
    }
    assert Rem(P, 1) == 0;
  }

  lemma LargeSeedStep()
    ensures Step(1000 * P + 1) == -45097139780
  {
    var seed := 2147483647001;
    assert Div(seed, QL) == 16807022 by {
      DivMod(seed, QL, 16807022, 24995);
    }
    assert A * (seed - QL * 16807022) - RR * 16807022 == -47244623427;
  }

  /** Seeds are not reduced modulo P: the seed 1000 * P + 1 is coprime with P
      and kept as it is, its first step leaves [1, P - 1], and the single
      transposition drawn for a one-pixel image points outside the image. */
  lemma LargeSeedOutOfBounds()
    ensures Normalize(1000 * P + 1) == 1000 * P + 1
    ensures Step(1000 * P + 1) == -45097139780
    ensures SwapList(1000 * P + 1, 1) == [SwapElement(0, -20)]
    ensures !InBounds(SwapList(1000 * P + 1, 1), 1)
  {
    var seed := 1000 * P + 1;
    LargeSeedCoprime();
    assert Normalize(seed) == seed;
    LargeSeedStep();
    var d := Scale(0.0, 1.0, -45097139780);
    assert -21.0 < d < -20.0;
    assert (-d).Floor == 20;
    assert DoubleToInt(d) == -20;
    assert RightIndex(0, 1, Step(seed)) == -20;
    assert SwapsFrom(Step(seed), 1, 1) == [];
    assert SwapsFrom(seed, 0, 1) == [SwapElement(0, RightIndex(0, 1, Step(seed)))] + SwapsFrom(Step(seed), 1, 1);
    assert SwapList(seed, 1) == [SwapElement(0, -20)];
    assert SwapList(seed, 1)[0].rightIndex < 0;
  }

  /** Seed 1 is kept and its first two states are A and A^2. */
  lemma SeedOneStates()
    ensures Normalize(1) == 1 && Step(1) == 16807 && Step(16807) == 282475249
  {
    assert Gcd(1, P) == 1 by {
      assert Rem(1, P) == 1 && Rem(P, 1) == 0;
    }
    StepIsMinstd(1);
    StepIsMinstd(16807);
  }

  /** A draw from a small state truncates to 0. */
  lemma SmallDrawIsZero(left: int, n: int, s: int)
    requires 0 <= left < n <= 2 && 1 <= s <= 282475249
    ensures RightIndex(left, n, s) == left
  {
    var d := Scale(0.0, (n - left) as real, s);
    assert 0.0 <= d < 1.0 by {
      var w, k, q := (n - left) as real, (s - 1) as real, (P - 1) as real;
      assert 0.0 <= w * k <= 2.0 * k < q;
    }
    assert d.Floor == 0;
  }

  /** The case of a 2 x 1 image and seed 1: both draws are 0, so both
      transpositions are no-ops. */
  lemma SeedOneTwoPixels()
    ensures SwapList(1, 2) == [SwapElement(0, 0), SwapElement(1, 1)]
  {
    SeedOneStates();
    SmallDrawIsZero(0, 2, 16807);
    SmallDrawIsZero(1, 2, 282475249);
    SwapsFromUnfold(1, 0, 2);
    SwapsFromUnfold(16807, 1, 2);
    assert SwapsFrom(282475249, 2, 2) == [];
  }

  // ------------------------------------------------------------- the transform

  /** What `create(dir, seed, src, dst)` leaves in the destination. */
  function Transform(dir: SwapDirection, seed: int, src: seq<int32>): (r: Outcome)
    ensures r.Written? ==> |r.pixels| == |src|
  {
    var swaps := SwapList(seed, |src|);
    if InBounds(swaps, |src|) then
      Written(Map(Repack, Permute(dir, Map(Unpack, src), swaps)))
    else
      IndexOutOfBounds
  }

  /** Unpacking, rearranging and repacking is rearranging the opaque pixels. */
  lemma PermuteOpaque(dir: SwapDirection, src: seq<int32>, swaps: seq<SwapElement>)
    requires InBounds(swaps, |src|)
    ensures Map(Repack, Permute(dir, Map(Unpack, src), swaps)) == Permute(dir, Map(Opaque, src), swaps)
  {
    ReverseInBounds(swaps, |src|);
    var order := Order(dir, swaps);
    var unpacked := Map(Unpack, src);
    ApplySwapsMap(Repack, unpacked, order);
    MapCompose(Unpack, Repack, Opaque, src);
  }

  /** The transform, when it succeeds, rearranges the opaque pixels. */
  lemma TransformPermutesOpaque(dir: SwapDirection, seed: int, src: seq<int32>)
    requires InBounds(SwapList(seed, |src|), |src|)
    ensures Transform(dir, seed, src) == Written(Permute(dir, Map(Opaque, src), SwapList(seed, |src|)))
  {
    PermuteOpaque(dir, src, SwapList(seed, |src|));
  }

  /** Descrambling a scrambled image with the same seed restores every pixel's
      colour, with alpha 255. */
  lemma ScrambleRoundTrip(seed: int, src: seq<int32>)
    requires Transform(Forward, seed, src).Written?
    ensures Transform(Backward, seed, Transform(Forward, seed, src).pixels) == Written(Map(Opaque, src))
  {
    var swaps := SwapList(seed, |src|);
    var forced := Map(Opaque, src);
    TransformPermutesOpaque(Forward, seed, src);
    var scrambled := ApplySwaps(forced, swaps);
    TransformPermutesOpaque(Backward, seed, scrambled);
    ApplySwapsMap(Opaque, forced, swaps);
    OpaqueTwice(src);
    BackwardUndoesForward(forced, swaps);
  }

  /** Scrambling a descrambled image with the same seed restores it as well. */
  lemma DescrambleRoundTrip(seed: int, src: seq<int32>)
    requires Transform(Backward, seed, src).Written?
    ensures Transform(Forward, seed, Transform(Backward, seed, src).pixels) == Written(Map(Opaque, src))
  {
    var swaps := SwapList(seed, |src|);
    var forced := Map(Opaque, src);
    TransformPermutesOpaque(Backward, seed, src);
    ReverseInBounds(swaps, |src|);
    var descrambled := ApplySwaps(forced, Reverse(swaps));
    TransformPermutesOpaque(Forward, seed, descrambled);
    ApplySwapsMap(Opaque, forced, Reverse(swaps));
    OpaqueTwice(src);
    ForwardUndoesBackward(forced, swaps);
  }

  /** Either direction only rearranges the pixels: the output holds the same
      forced pixels as the input, as many times each. */
  lemma TransformRearranges(dir: SwapDirection, seed: int, src: seq<int32>)
    requires Transform(dir, seed, src).Written?
    ensures |Transform(dir, seed, src).pixels| == |src|
    ensures multiset(Transform(dir, seed, src).pixels) == multiset(Map(Opaque, src))
  {
    var swaps := SwapList(seed, |src|);
    TransformPermutesOpaque(dir, seed, src);
    ReverseInBounds(swaps, |src|);
    ApplySwapsRearranges(Map(Opaque, src), Order(dir, swaps));
  }

  /** The transform succeeds whenever the first draw lands in [1, P - 1]. */
  lemma TransformSucceeds(dir: SwapDirection, seed: int, src: seq<int32>)
    requires |src| <= INT_MAX && 1 <= Step(Normalize(seed)) < P
    ensures Transform(dir, seed, src).Written?
  {
    SwapListInBounds(seed, |src|);
  }

  /** No pixels: nothing is drawn and nothing is written. */
  lemma TransformEmpty(dir: SwapDirection, seed: int)
    ensures SwapList(seed, 0) == []
    ensures Transform(dir, seed, []) == Written([])
  {
    var none: seq<int32> := [];
    assert SwapsFrom(Normalize(seed), 0, 0) == [];
    assert Permute(dir, Map(Unpack, none), []) == [];
  }

  /** One pixel: the single transposition (0, 0) leaves it in place. */
  lemma TransformSinglePixel(dir: SwapDirection, seed: int, pixel: int32)
    requires 1 <= Step(Normalize(seed)) < P
    ensures SwapList(seed, 1) == [SwapElement(0, 0)]
    ensures Transform(dir, seed, [pixel]) == Written([Opaque(pixel)])
  {
    SwapListInBounds(seed, 1);
    TransformPermutesOpaque(dir, seed, [pixel]);
    var swaps := SwapList(seed, 1);
    assert swaps == [SwapElement(0, 0)];
    assert Reverse(swaps) == swaps;
    assert ApplySwaps(Map(Opaque, [pixel]), swaps) == SwapAt(Map(Opaque, [pixel]), 0, 0);
  }

  // ------------------------------------------------------------- the methods

  /** Row y of a width * height image ends within the image. */
  lemma RowFits(y: nat, width: nat, height: nat)
    requires y < height
    ensures y * width + width == (y + 1) * width <= width * height
  {
    MulMonotone(y + 1, height, width);
  }

  /** The read loop of `create`: row by row, pixel by pixel, each pixel
      unpacked and appended to the image list. */
  method ReadImage(src: seq<int32>, width: nat, height: nat) returns (imageList: seq<RasterElement>)
    requires |src| == width * height
    ensures imageList == Map(Unpack, src)
  {
    imageList := [];
    var y := 0;
    while y < height
      invariant 0 <= y <= height
      invariant |imageList| == y * width <= |src|
      invariant forall k :: 0 <= k < |imageList| ==> imageList[k] == Unpack(src[k])
    {
      RowFits(y, width, height);
      // getDataElements(0, y, width, 1, srcPixels)
      var srcPixels := src[y * width .. y * width + width];
      var x := 0;
      while x < width
        invariant 0 <= x <= width
        invariant |imageList| == y * width + x
        invariant forall k :: 0 <= k < |imageList| ==> imageList[k] == Unpack(src[k])
      {
        imageList := imageList + [Unpack(srcPixels[x])];
        x := x + 1;
      }
      y := y + 1;
    }
  }

  lemma AppendAssoc<T>(a: seq<T>, b: seq<T>, c: seq<T>)
    ensures a + (b + c) == (a + b) + c
  {
  }

  /** One turn of the draw loop of `create`: a draw in [0, n - leftIndex),
      truncated and added to leftIndex with `int` wrap-around. */
  method DrawSwap(rand: Generator, leftIndex: nat, n: nat) returns (elem: SwapElement)
    requires leftIndex < n
    modifies rand
    ensures rand.state == Step(old(rand.state))
    ensures [elem] + SwapsFrom(rand.state, leftIndex + 1, n) == SwapsFrom(old(rand.state), leftIndex, n)
  {
    var draw := rand.Random(0.0, (n - leftIndex) as real);
    var rightIndex := Wrap32(leftIndex + DoubleToInt(draw) as int);
    elem := SwapElement(leftIndex, rightIndex as int);
    SwapsFromUnfold(old(rand.state), leftIndex, n);
  }

  /** The draw loop of `create`: a fresh generator seeded with the seed, one
      draw per position. */
  method BuildSwapList(seed: int, n: nat) returns (swapList: seq<SwapElement>)
    ensures swapList == SwapList(seed, n)
  {
    var rand := new Generator(seed);
    swapList := [];
    var leftIndex := 0;
    while leftIndex < n
      invariant 0 <= leftIndex <= n
      invariant swapList + SwapsFrom(rand.state, leftIndex, n) == SwapList(seed, n)
    {
      var elem := DrawSwap(rand, leftIndex, n);
      AppendAssoc(swapList, [elem], SwapsFrom(rand.state, leftIndex + 1, n));
      swapList := swapList + [elem];
      leftIndex := leftIndex + 1;
    }
    assert SwapsFrom(rand.state, n, n) == [];
    assert swapList + [] == swapList;
  }

  /** `swap`: reads both positions, then writes each element to the other's
      position. A position outside the list throws before anything changes. */
  method Swap(imageList: array<RasterElement>, leftIndex: int, rightIndex: int) returns (ok: bool)
    modifies imageList
    ensures ok == (0 <= leftIndex < imageList.Length && 0 <= rightIndex < imageList.Length)
    ensures ok ==> imageList[..] == SwapAt(old(imageList[..]), leftIndex, rightIndex)
    ensures !ok ==> imageList[..] == old(imageList[..])
  {
    if !(0 <= leftIndex < imageList.Length && 0 <= rightIndex < imageList.Length) {
      return false;
    }
    var leftElement := imageList[leftIndex];
    var rightElement := imageList[rightIndex];
    imageList[rightIndex] := leftElement;
    imageList[leftIndex] := rightElement;
    ok := true;
  }

  /** The swap loop of `create`: entry i in order to scramble, entry N - i - 1
      to descramble. It stops at the first entry that `swap` rejects. */
  method PerformSwaps(dir: SwapDirection, swapList: seq<SwapElement>, imageList: array<RasterElement>)
    returns (ok: bool)
    requires |swapList| == imageList.Length
    modifies imageList
    ensures ok == InBounds(swapList, imageList.Length)
    ensures ok ==> imageList[..] == Permute(dir, old(imageList[..]), swapList)
  {
    var n := imageList.Length;
    ghost var original := imageList[..];
    ghost var order := Order(dir, swapList);
    var i := 0;
    while i < n
      invariant 0 <= i <= n && |order| == n
      invariant InBounds(order[..i], n)
      invariant imageList[..] == ApplySwaps(original, order[..i])
    {
      var index := if dir == Forward then i else n - i - 1;
      var elem := swapList[index];
      ok := Swap(imageList, elem.leftIndex, elem.rightIndex);
      if !ok {
        assert !InBounds(swapList, n) by {
          assert swapList[index] == elem;
        }
        return;
      }
      OrderAt(dir, swapList, i);
      ApplySwapsStep(original, order, i);
      i := i + 1;
    }
    assert order[..n] == order;
    OrderInBounds(dir, swapList, n);
    ok := true;
  }

  /** `setDataElements(0, y, width, 1, srcPixels)`: one row of the destination
      replaced by the buffer. */
  method SetRow(dst: array<int32>, start: nat, srcPixels: array<int32>)
    requires start + srcPixels.Length <= dst.Length && srcPixels != dst
    modifies dst
    ensures forall k :: 0 <= k < dst.Length ==>
      dst[k] == if start <= k < start + srcPixels.Length then srcPixels[k - start] else old(dst[k])
  {
    forall x | 0 <= x < srcPixels.Length {
      dst[start + x] := srcPixels[x];
    }
  }

  /** The inner write loop of `create`: the buffer filled with the next row of
      repacked pixels, alpha forced to 255, the list index advancing by one
      per pixel. */
  method FillRow(imageList: seq<RasterElement>, start: nat, srcPixels: array<int32>) returns (index: nat)
    requires start + srcPixels.Length <= |imageList|
    modifies srcPixels
    ensures index == start + srcPixels.Length
    ensures forall j :: 0 <= j < srcPixels.Length ==> srcPixels[j] == Repack(imageList[start + j])
  {
    index := start;
    var x := 0;
    while x < srcPixels.Length
      invariant 0 <= x <= srcPixels.Length && index == start + x
      invariant forall j :: 0 <= j < x ==> srcPixels[j] == Repack(imageList[start + j])
    {
      srcPixels[x] := Repack(imageList[index]);
      index := index + 1;
      x := x + 1;
    }
  }

  /** The write loop of `create`: row by row, the buffer filled and written
      out at index x + y * width. */
  method WriteImage(imageList: seq<RasterElement>, width: nat, height: nat, dst: array<int32>)
    requires |imageList| == width * height == dst.Length
    modifies dst
    ensures dst[..] == Map(Repack, imageList)
  {
    var srcPixels := new int32[width];
    var index := 0;
    var y := 0;
    while y < height
      invariant 0 <= y <= height && index == y * width <= |imageList|
      invariant forall k :: 0 <= k < index ==> dst[k] == Repack(imageList[k])
    {
      RowFits(y, width, height);
      var next := FillRow(imageList, index, srcPixels);
      SetRow(dst, index, srcPixels);
      index := next;
      y := y + 1;
    }
  }

  /** `create(type, seed, src, dstOut)`: the image is read, the swap list is
      drawn, the swaps are performed in the given direction and, unless a
      swap throws, the image is written to the destination. */
  method Create(dir: SwapDirection, seed: int, src: seq<int32>, width: nat, height: nat, dst: array<int32>)
    returns (ok: bool)
    requires |src| == width * height == dst.Length
    modifies dst
    ensures ok == Transform(dir, seed, src).Written?
    ensures ok ==> dst[..] == Transform(dir, seed, src).pixels
    ensures !ok ==> dst[..] == old(dst[..])
  {
    var elements := ReadImage(src, width, height);
    var n := |elements|;
    var swapList := BuildSwapList(seed, n);
    var imageList := new RasterElement[n](i requires 0 <= i < n => elements[i]);
    assert imageList[..] == elements;
    ok := PerformSwaps(dir, swapList, imageList);
    if ok {
      WriteImage(imageList[..], width, height, dst);
    }
  }

  /** `scramble`: `create` in the forward direction. */
  method Scramble(seed: int, src: seq<int32>, width: nat, height: nat, dst: array<int32>) returns (ok: bool)
    requires |src| == width * height == dst.Length
    modifies dst
    ensures ok == Transform(Forward, seed, src).Written?
    ensures ok ==> dst[..] == Transform(Forward, seed, src).pixels
    ensures !ok ==> dst[..] == old(dst[..])
  {
    ok := Create(Forward, seed, src, width, height, dst);
  }

  /** `descramble`: `create` in the backward direction. */
  method Descramble(seed: int, src: seq<int32>, width: nat, height: nat, dst: array<int32>) returns (ok: bool)
    requires |src| == width * height == dst.Length
    modifies dst
    ensures ok == Transform(Backward, seed, src).Written?
    ensures ok ==> dst[..] == Transform(Backward, seed, src).pixels
    ensures !ok ==> dst[..] == old(dst[..])
  {
    ok := Create(Backward, seed, src, width, height, dst);
  }
}
