/** The Lehmer pseudorandom number generator with the Park–Miller "minimal
    standard" parameters (MINSTD): state' = A * state mod P, computed with
    Schrage's overflow-avoiding split of the multiplication. */
module Minstd {
  import opened JavaArith

  /** The multiplier 7^5 (`Ar`). */
  const A: int := 16807
  /** The prime modulus 2^31 - 1 (`Pr`). */
  const P: int := 2147483647
  /** Schrage's quotient P / A (`QL`). */
  const QL: int := 127773
  /** Schrage's remainder P mod A (`RR`). */
  const RR: int := 2836

  /** A multiplicative inverse of A modulo P: INV * A == 1 + 11017 * P. */
  const INV: int := 1407677000

  /** The largest magnitude below which one Schrage step cannot leave
      [1, P - 1]: QL * ((P - 1) / RR + 1). */
  const SAFE_BOUND: int := 96752654379

  lemma SchrageConstants()
    ensures QL == P / A && RR == P % A
    ensures A * QL + RR == P && RR < QL
  {
  }

  // ---------------------------------------------------------------- gcd

  /** Euclid's algorithm exactly as the source writes it, with Java's `%`
      (so negative arguments give results of either sign). */
  function Gcd(a: int, b: int): int
    decreases Abs(b)
  {
    if b == 0 then a else Gcd(b, Rem(a, b))
  }

  function Mul(k: int, d: int): int {
    k * d
  }

  /** d divides n. */
  ghost predicate Divides(d: int, n: int) {
    exists k :: Mul(k, d) == n
  }

  /** Multiples of d are closed under q * x + y. */
  lemma MulCombine(q: int, x: int, y: int, d: int)
    ensures Mul(q * x + y, d) == q * Mul(x, d) + Mul(y, d)
  {
    assert (q * x + y) * d == q * (x * d) + y * d;
  }

  /** One step of Euclid's algorithm on naturals: a = (a / b) * b + Rem(a, b). */
  lemma EuclidStep(a: nat, b: nat)
    requires b != 0
    ensures Rem(a, b) == a % b && a == (a / b) * b + Rem(a, b)
    ensures Gcd(a, b) == Gcd(b, Rem(a, b))
  {
  }

  /** For natural arguments the result is non-negative and divides both. */
  lemma {:induction false} GcdDivides(a: nat, b: nat)
    ensures Gcd(a, b) >= 0
    ensures Divides(Gcd(a, b), a) && Divides(Gcd(a, b), b)
    decreases b
  {
    if b == 0 {
      assert Mul(1, a) == a && Mul(0, a) == 0;
    } else {
      EuclidStep(a, b);
      var r, q := a % b, a / b;
      GcdDivides(b, r);
      var g := Gcd(b, r);
      var kb :| Mul(kb, g) == b;
      var kr :| Mul(kr, g) == r;
      MulCombine(q, kb, kr, g);
      assert Mul(q * kb + kr, g) == a;
    }
  }

  /** Every common divisor of two naturals divides their Gcd, so the Gcd is the
      greatest common divisor. */
  lemma {:induction false} GcdGreatest(a: nat, b: nat, d: int)
    requires Divides(d, a) && Divides(d, b)
    ensures Divides(d, Gcd(a, b))
    decreases b
  {
    if b != 0 {
      EuclidStep(a, b);
      var r, q := a % b, a / b;
      var ka :| Mul(ka, d) == a;
      var kb :| Mul(kb, d) == b;
      MulCombine(-q, kb, ka, d);
      assert Mul(-q * kb + ka, d) == r;
      GcdGreatest(b, r, d);
    }
  }

  /** Every non-zero multiple of P shares the factor P with the modulus. */
  lemma GcdOfMultiple(k: int)
    requires k != 0
    ensures Gcd(k * P, P) == P
  {
    assert Rem(k * P, P) == 0;
  }

  lemma GcdSmallCases()
    ensures Gcd(0, P) == P
    ensures Gcd(1, P) == 1
    ensures Gcd(P - 1, P) == 1
    ensures Gcd(-1, P) == -1
    ensures Gcd(LONG_MAX, P) == 1
  {
    assert Rem(0, P) == 0;
    assert Rem(1, P) == 1 && Rem(P, 1) == 0;
    assert Rem(P - 1, P) == P - 1 && Rem(P, P - 1) == 1 && Rem(P - 1, 1) == 0;
    assert Rem(-1, P) == -1 && Rem(P, -1) == 0;
    assert Rem(LONG_MAX, P) == 1;
  }

  // ------------------------------------------------------ seed normalisation

  function NormalizeRank(seed: int): nat {
    if seed >= P || seed <= -P then 2 else if seed < 0 then 1 else 0
  }

  function NormalizeDistance(seed: int): nat {
    if 0 <= seed < P then P - seed else if -P < seed < 0 then -seed else 0
  }

  /** The static `seed(long)`: while the seed shares a factor with P, step to
      (seed + 1) % P. A seed is never reduced modulo P otherwise, so a seed
      outside [0, P) that is coprime with P comes back unchanged. */
  function Normalize(seed: int): (r: int)
    ensures Gcd(r, P) <= 1
    ensures Gcd(seed, P) <= 1 ==> r == seed
    ensures 0 <= seed < P ==> 1 <= r < P && seed <= r
    ensures Abs(r) <= Abs(seed) || Abs(r) < P
    decreases NormalizeRank(seed), NormalizeDistance(seed)
  {
    if Gcd(seed, P) > 1 then
      GcdSmallCases();
      Normalize(Rem(seed + 1, P))
    else
      seed
  }

  lemma NormalizeZero()
    ensures Normalize(0) == 1
  {
    GcdSmallCases();
  }

  /** Normalising an already normalised seed changes nothing. */
  lemma NormalizeIdempotent(seed: int)
    ensures Normalize(Normalize(seed)) == Normalize(seed)
  {
  }

  /** The `seed + 1` of the source never overflows a `long`. */
  lemma NormalizeNoOverflow(seed: int)
    requires IsLong(seed) && Gcd(seed, P) > 1
    ensures IsLong(seed + 1)
  {
    GcdSmallCases();
  }

  /** A normalised seed is never a multiple of P, because the Gcd of a
      non-zero multiple of P with P is P. */
  lemma NormalizedNotMultiple(seed: int)
    ensures Normalize(seed) % P != 0
  {
    var r := Normalize(seed);
    if r % P == 0 {
      var k := r / P;
      assert r == k * P;
      if k == 0 {
        GcdSmallCases();
      } else {
        GcdOfMultiple(k);
      }
    }
  }

  // -------------------------------------------------------- the Schrage step

  lemma MultipleOfP(k: int)
    ensures (k * P) % P == 0
  {
  }

  /** One state update of `random(x, y)`: with l = c / QL,
      n = A * (c - QL * l) - RR * l, plus P when n is negative. */
  function Step(c: int): int {
    var l := Div(c, QL);
    var n := A * (c - QL * l) - RR * l;
    if n < 0 then n + P else n
  }

  /** Whatever the state, the step is congruent to A * c modulo P: it is the
      multiplication of the Lehmer recurrence. */
  lemma StepCongruent(c: int)
    ensures (Step(c) - A * c) % P == 0
  {
    var l := Div(c, QL);
    var n := A * (c - QL * l) - RR * l;
    assert n == A * c - P * l;
    MultipleOfP(-l);
    MultipleOfP(1 - l);
  }

  /** The quotient and remainder the step splits c into. */
  lemma StepSplit(c: int)
    ensures Abs(c - QL * Div(c, QL)) < QL
    ensures Abs(Div(c, QL)) == Abs(c) / QL
    ensures c >= 0 ==> Div(c, QL) >= 0 && c - QL * Div(c, QL) >= 0
    ensures c <= 0 ==> Div(c, QL) <= 0 && c - QL * Div(c, QL) <= 0
  {
    var l := Div(c, QL);
    if c >= 0 {
      var q, m := c / QL, c % QL;
      assert l == q;
      assert c == QL * q + m && 0 <= m < QL;
      assert c - QL * l == m;
    } else {
      var q, m := (-c) / QL, (-c) % QL;
      assert l == -q;
      assert -c == QL * q + m && 0 <= m < QL;
      assert c - QL * l == -m;
    }
  }

  /** A zero Schrage result means A * c, and so c, is a multiple of P. */
  lemma StepZero(c: int, l: int)
    requires A * (c - QL * l) - RR * l == 0
    ensures c % P == 0
  {
    assert A * c == P * l;
    MultipleOfP(l);
    MultiplierInvertible(c);
  }

  /** Schrage's two terms have the same sign, so they cannot add up: with
      |l| <= bound, n = A * rem - RR * l stays within RR * bound of (-P, P). */
  lemma SchrageTerms(rem: int, l: int, bound: int)
    requires (0 <= rem < QL && 0 <= l <= bound) || (-QL < rem <= 0 && -bound <= l <= 0)
    ensures -P - RR * bound < A * rem - RR * l < P + RR * bound
    ensures RR * bound < P ==> -P < A * rem - RR * l < P
  {
  }

  lemma LongQuotient(c: int)
    requires IsLong(c)
    ensures Abs(c) / QL <= 72185610706915
  {
  }

  /** The update needs no more than a `long`: a state that fits in a `long`
      steps to one that does. */
  lemma StepStaysLong(c: int)
    requires IsLong(c)
    ensures IsLong(Step(c))
  {
    StepSplit(c);
    LongQuotient(c);
    var l := Div(c, QL);
    SchrageTerms(c - QL * l, l, 72185610706915);
  }

  /** A * c is a multiple of P only when c is: A is invertible modulo P. */
  lemma {:induction false} MultiplierInvertible(c: int)
    requires (A * c) % P == 0
    ensures c % P == 0
  {
    var k := (A * c) / P;
    assert A * c == P * k;
    assert INV * A == 1 + 11017 * P;
    calc {
      c;
      INV * (A * c) - 11017 * P * c;
      INV * (P * k) - 11017 * P * c;
      P * (INV * k - 11017 * c);
    }
  }

  /** Schrage's step computes the MINSTD recurrence without overflow and stays
      within [1, P - 1]. */
  lemma StepIsMinstd(c: int)
    requires 1 <= c < P
    ensures Step(c) == (A * c) % P
    ensures 1 <= Step(c) < P
  {
    assert Abs(c) < SAFE_BOUND && c % P == c;
    StepInRange(c);
    StepCongruent(c);
    var s := Step(c);
    var k := (s - A * c) / P;
    assert s - A * c == k * P;
    DivMod(A * c, P, -k, s);
  }

  /** More generally one step lands in [1, P - 1] from any state that is not a
      multiple of P and whose magnitude is below SAFE_BOUND. */
  lemma {:induction false} StepInRange(c: int)
    requires c % P != 0 && Abs(c) < SAFE_BOUND
    ensures 1 <= Step(c) < P
  {
    StepSplit(c);
    var l := Div(c, QL);
    assert Abs(l) <= 757222;
    SchrageTerms(c - QL * l, l, 757222);
    if A * (c - QL * l) - RR * l == 0 {
      StepZero(c, l);
    }
  }

  /** Every seed of magnitude below SAFE_BOUND (about 9.7 * 10^10) starts the
      draws in [1, P - 1]: in particular every seed in [0, P) and the
      sentinel -1. */
  lemma SafeSeed(seed: int)
    requires Abs(seed) < SAFE_BOUND
    ensures 1 <= Step(Normalize(seed)) < P
  {
    NormalizedNotMultiple(seed);
    StepInRange(Normalize(seed));
  }

  /** The draw of `random(x, y)`: x + (y - x) * (s - 1) / (P - 1), with the
      `double` arithmetic idealised as exact. */
  function Scale(x: real, y: real, s: int): real {
    x + (y - x) * (s - 1) as real / (P - 1) as real
  }

  /** For a state in [1, P - 1] the draw lies in [x, y). */
  lemma ScaleInRange(x: real, y: real, s: int)
    requires 1 <= s < P && x < y
    ensures x <= Scale(x, y, s) < y
  {
    var d, k, q := y - x, (s - 1) as real, (P - 1) as real;
    assert 0.0 <= k < q;
    assert d * k < d * q;
    assert 0.0 <= d * k / q < d;
  }

  // ------------------------------------------------------------ the generator

  /** `RandomNumberGenerator`: one mutable state field. */
  class Generator {
    var state: int

    /** `RandomNumberGenerator(long seed)`: the state is the normalised seed. */
    constructor (seed: int)
      ensures state == Normalize(seed)
      ensures 0 <= seed < P ==> 1 <= state < P
    {
      state := Normalize(seed);
    }

    /** `RandomNumberGenerator()`: the clock reading is a parameter. */
    constructor FromClock(millis: int)
      ensures state == Normalize(Rem(millis, P))
      ensures 0 <= millis ==> 1 <= state < P
    {
      state := Normalize(Rem(millis, P));
    }

    /** `random(x, y)`: advances the state by one Schrage step and scales the
        new state into [x, y). */
    method Random(x: real, y: real) returns (r: real)
      modifies this
      ensures state == Step(old(state))
      ensures r == Scale(x, y, state)
      ensures 1 <= old(state) < P ==> 1 <= state < P
    {
      var c := state;
      var l := Div(c, QL);
      var n := A * (c - QL * l) - RR * l;
      state := if n < 0 then n + P else n;
      assert state == Step(c);
      r := Scale(x, y, state);
      if 1 <= c < P {
        StepIsMinstd(c);
      }
    }

    /** `random()`: a draw in [0, 1). */
    method RandomUnit() returns (r: real)
      modifies this
      ensures state == Step(old(state))
      ensures r == Scale(0.0, 1.0, state)
      ensures 1 <= old(state) < P ==> 0.0 <= r < 1.0
    {
      ghost var c := state;
      r := Random(0.0, 1.0);
      if 1 <= c < P {
        ScaleInRange(0.0, 1.0, state);
      }
    }

    /** `seed()`: the current state, unchanged. */
    method Seed() returns (s: int)
      ensures s == state
    {
      s := state;
    }
  }

  /** The state after k draws from a generator seeded with `seed`. */
  function StateAfter(seed: int, k: nat): int {
    if k == 0 then Normalize(seed) else Step(StateAfter(seed, k - 1))
  }

  /** From a seed in [0, P) every state stays in [1, P - 1]; from any seed of
      magnitude below SAFE_BOUND, such as the sentinel -1, every state after
      the first update does. */
  lemma {:induction false} StateAfterInRange(seed: int, k: nat)
    requires 0 <= seed < P || (Abs(seed) < SAFE_BOUND && k >= 1)
    ensures 1 <= StateAfter(seed, k) < P
  {
    if k == 1 {
      SafeSeed(seed);
    } else if k > 1 {
      StateAfterInRange(seed, k - 1);
      StepIsMinstd(StateAfter(seed, k - 1));
    }
  }

  /** The first k draws in [x, y) of a generator seeded with `seed`. */
  function DrawsFrom(seed: int, x: real, y: real, k: nat): (r: seq<real>)
    ensures |r| == k
  {
    if k == 0 then [] else DrawsFrom(seed, x, y, k - 1) + [Scale(x, y, StateAfter(seed, k))]
  }

  /** Draw i scales the state after i + 1 steps. */
  lemma {:induction false} DrawsFromAt(seed: int, x: real, y: real, k: nat, i: nat)
    requires i < k
    ensures DrawsFrom(seed, x, y, k)[i] == Scale(x, y, StateAfter(seed, i + 1))
  {
    if i < k - 1 {
      DrawsFromAt(seed, x, y, k - 1, i);
    }
  }

  /** k draws from a generator seeded with `seed`, then its state read back
      with `seed()`: the draws are a function of (seed, x, y, k) and the final
      state of (seed, k), so two generators seeded alike and called alike
      hold the same state and draw alike. */
  method Draws(seed: int, x: real, y: real, k: nat) returns (draws: seq<real>, last: int)
    ensures draws == DrawsFrom(seed, x, y, k)
    ensures last == StateAfter(seed, k)
  {
    var g := new Generator(seed);
    draws := [];
    var i := 0;
    while i < k
      invariant 0 <= i <= k
      invariant g.state == StateAfter(seed, i)
      invariant draws == DrawsFrom(seed, x, y, i)
    {
      var d := g.Random(x, y);
      draws := draws + [d];
      i := i + 1;
    }
    last := g.Seed();
  }

  /** Every draw from a seed of magnitude below SAFE_BOUND (every seed in
      [0, P) among them) lies in [x, y). */
  lemma DrawsInRange(seed: int, x: real, y: real, k: nat, i: nat)
    requires Abs(seed) < SAFE_BOUND && x < y && i < k
    ensures x <= DrawsFrom(seed, x, y, k)[i] < y
  {
    DrawsFromAt(seed, x, y, k, i);
    StateAfterInRange(seed, i + 1);
    ScaleInRange(x, y, StateAfter(seed, i + 1));
  }
}
