/** Java's fixed-width integer arithmetic, written out over Dafny's unbounded
    integers: `/` and `%` truncate toward zero, `int` wraps at 32 bits, and a
    `double` narrowed to `int` truncates toward zero and saturates. */
module JavaArith {

  const INT_MIN: int := -0x8000_0000
  const INT_MAX: int := 0x7FFF_FFFF
  const LONG_MIN: int := -0x8000_0000_0000_0000
  const LONG_MAX: int := 0x7FFF_FFFF_FFFF_FFFF

  /** A Java `int`. */
  newtype int32 = x: int | -0x8000_0000 <= x < 0x8000_0000

  /** The values a Java `long` can hold. */
  predicate IsLong(x: int) {
    LONG_MIN <= x <= LONG_MAX
  }

  function Abs(x: int): nat {
    if x < 0 then -x else x
  }

  /** Java's integer `/`: the quotient rounded toward zero. */
  function Div(a: int, b: int): int
    requires b != 0
  {
    if (a >= 0) == (b > 0) then Abs(a) / Abs(b) else -(Abs(a) / Abs(b))
  }

  /** Java's integer `%`: the remainder takes the sign of the dividend, and
      quotient and remainder recombine to the dividend. */
  function Rem(a: int, b: int): (r: int)
    requires b != 0
    ensures Abs(r) < Abs(b)
    ensures a >= 0 ==> r >= 0
    ensures a <= 0 ==> r <= 0
    ensures a >= 0 && b > 0 ==> r == a % b
  {
    if a >= 0 then Abs(a) % Abs(b) else -(Abs(a) % Abs(b))
  }

  /** Java's quotient and remainder recombine to the dividend. */
  lemma DivRem(a: int, b: int)
    requires b != 0
    ensures Div(a, b) * b + Rem(a, b) == a
  {
    var q, m := Abs(a) / Abs(b), Abs(a) % Abs(b);
    QuotientSign(q, b);
  }

  /** The truncated quotient times the divisor, for each sign of the divisor. */
  lemma QuotientSign(q: int, b: int)
    ensures b >= 0 ==> q * b == q * Abs(b)
    ensures b < 0 ==> -q * b == q * Abs(b)
  {
  }

  lemma MulAtLeast(d: int, m: int)
    requires d >= 1 && m > 0
    ensures d * m >= m
  {
  }

  /** Euclidean division is unique: a quotient and a remainder in [0, m) that
      recombine to x are x / m and x % m. */
  lemma DivMod(x: int, m: int, q: int, r: int)
    requires m > 0 && 0 <= r < m && x == q * m + r
    ensures x / m == q && x % m == r
  {
    var q', r' := x / m, x % m;
    assert x == q' * m + r';
    if q' > q {
      MulAtLeast(q' - q, m);
      assert false;
    } else if q' < q {
      MulAtLeast(q - q', m);
      assert false;
    }
  }

  /** Multiplication by a non-negative factor keeps an order. */
  lemma MulMonotone(a: int, b: int, c: int)
    requires a <= b && c >= 0
    ensures a * c <= b * c
  {
    assert b * c - a * c == (b - a) * c;
  }

  /** Java's `int` addition: the exact sum wrapped into 32 bits. */
  function Wrap32(x: int): (r: int32)
    ensures INT_MIN <= x <= INT_MAX ==> r as int == x
    ensures (r as int - x) % 0x1_0000_0000 == 0
  {
    ((x - INT_MIN) % 0x1_0000_0000 + INT_MIN) as int32
  }

  /** Java's narrowing of a `double` to `int` (an `(int)` cast): rounds toward
      zero and saturates at the ends of the `int` range. The `double` itself is
      idealised as an exact real. */
  function DoubleToInt(d: real): (r: int32)
    ensures 0.0 <= d < INT_MAX as real ==> r as int == d.Floor
    ensures INT_MIN as real < d < 0.0 ==> r as int == -((-d).Floor)
    ensures d >= INT_MAX as real ==> r as int == INT_MAX
    ensures d <= INT_MIN as real ==> r as int == INT_MIN
    ensures d < 0.0 ==> r <= 0
    ensures d >= 0.0 ==> r >= 0
  {
    if d >= INT_MAX as real then INT_MAX as int32
    else if d <= INT_MIN as real then INT_MIN as int32
    else if d >= 0.0 then d.Floor as int32
    else -((-d).Floor) as int32
  }
}
