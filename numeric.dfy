/** Fixed-width integer types of the program and the conversions it relies on,
    written out over unbounded integers and exact reals. */
module Numeric {

  /** Go's uint8. */
  type Byte = x: int | 0 <= x < 256

  /** Go's uint16. */
  type U16 = x: int | 0 <= x < 65536

  const MaxU16: int := 0xFFFF
  const MinInt64: int := -0x8000_0000_0000_0000
  const MaxInt64: int := 0x7FFF_FFFF_FFFF_FFFF

  function Max(a: int, b: int): int { if a < b then b else a }
  function Min(a: int, b: int): int { if a < b then a else b }
  function MaxReal(a: real, b: real): real { if a < b then b else a }
  function MinReal(a: real, b: real): real { if a < b then a else b }

  function Max3(a: int, b: int, c: int): (m: int)
    ensures m == a || m == b || m == c
    ensures a <= m && b <= m && c <= m
  {
    Max(a, Max(b, c))
  }

  function Min3(a: int, b: int, c: int): (m: int)
    ensures m == a || m == b || m == c
    ensures m <= a && m <= b && m <= c
  {
    Min(a, Min(b, c))
  }

  /** math.Round on a non-negative argument: halves round up. */
  function Round(x: real): (n: int)
    requires x >= 0.0
    ensures n >= 0
    ensures n as real - 0.5 <= x < n as real + 0.5
  {
    (x + 0.5).Floor
  }

  /** Conversion of a float to an integer type truncates toward zero. */
  function Trunc(x: real): (n: int)
    ensures x >= 0.0 ==> n == x.Floor
    ensures (if n < 0 then -n else n) as real <= (if x < 0.0 then -x else x)
    ensures (if x < 0.0 then -x else x) < (if n < 0 then -n else n) as real + 1.0
  {
    if x >= 0.0 then x.Floor else -((-x).Floor)
  }

  /** int64(x) for a float x: truncation toward zero; a value outside the int64
      range becomes MinInt64, which is what amd64 produces. */
  function ToInt64(x: real): (n: int)
    ensures MinInt64 <= n <= MaxInt64
    ensures MinInt64 as real <= x < MaxInt64 as real + 1.0 ==> n == Trunc(x)
  {
    var t := Trunc(x);
    if MinInt64 <= t <= MaxInt64 then t else MinInt64
  }

  /** uint16(x) for a float x: int64 conversion followed by keeping the low 16 bits. */
  function ToU16(x: real): (n: U16)
    ensures 0.0 <= x < 65536.0 ==> n == x.Floor
  {
    ToInt64(x) % 0x1_0000
  }

  /** Largest integer whose square does not exceed n. */
  function IntSqrt(n: nat): (s: nat)
    ensures s * s <= n < (s + 1) * (s + 1)
  {
    if n == 0 then 0
    else
      var t := IntSqrt(n - 1);
      if (t + 1) * (t + 1) <= n then t + 1 else t
  }

  /** The integer square root is determined by its two bounds. */
  lemma IntSqrtUnique(n: nat, s: nat)
    requires s * s <= n < (s + 1) * (s + 1)
    ensures IntSqrt(n) == s
  {
    var t := IntSqrt(n);
    if t < s {
      assert t + 1 <= s;
      MulMonotone(t + 1, s);
    } else if t > s {
      assert s + 1 <= t;
      MulMonotone(s + 1, t);
    }
  }

  lemma MulMonotone(a: nat, b: nat)
    requires a <= b
    ensures a * a <= b * b
  {
    assert a * a <= a * b <= b * b;
  }

  lemma MulLeft(a: nat, b: nat, m: nat)
    requires a <= b
    ensures a * m <= b * m && m * a <= m * b
  {
    assert b * m == a * m + (b - a) * m;
  }

  /** Integer division is determined by quotient and remainder. */
  lemma DivUnique(a: int, d: int, q: int, r: int)
    requires d > 0 && a == q * d + r && 0 <= r < d
    ensures a / d == q
  {
    var q0, r0 := a / d, a % d;
    assert a == q0 * d + r0;
    assert (q - q0) * d == r0 - r;
    ZeroFactor(q - q0, d);
  }

  lemma ZeroFactor(x: int, d: int)
    requires d > 0 && -d < x * d < d
    ensures x == 0
  {
  }
}
