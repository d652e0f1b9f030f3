/** Go's fixed-width integers: the ranges, the wrap-around of each width, and truncating division. */
module MachineInts {
  const TWO_32: int := 0x1_0000_0000
  const TWO_64: int := 0x1_0000_0000_0000_0000
  const MAX_INT32: int := 0x7fff_ffff
  const MIN_INT32: int := -0x8000_0000
  const MAX_INT64: int := 0x7fff_ffff_ffff_ffff
  const MIN_INT64: int := -0x8000_0000_0000_0000

  type int32 = x: int | MIN_INT32 <= x <= MAX_INT32
  type uint32 = x: int | 0 <= x < TWO_32
  type int64 = x: int | MIN_INT64 <= x <= MAX_INT64

  /** The int32 an exact result wraps to. */
  function I32(x: int): (r: int32)
    ensures MIN_INT32 <= x <= MAX_INT32 ==> r == x
  {
    if MIN_INT32 <= x <= MAX_INT32 then x else (x - MIN_INT32) % TWO_32 + MIN_INT32
  }

  function U32(x: int): (r: uint32)
    ensures 0 <= x < TWO_32 ==> r == x
  {
    if 0 <= x < TWO_32 then x else x % TWO_32
  }

  function I64(x: int): (r: int64)
    ensures MIN_INT64 <= x <= MAX_INT64 ==> r == x
  {
    if MIN_INT64 <= x <= MAX_INT64 then x else (x - MIN_INT64) % TWO_64 + MIN_INT64
  }

  /** Division truncating toward zero. */
  function Quo(a: int, b: int): (q: int)
    requires b > 0
    ensures a >= 0 ==> q == a / b
    ensures a < 0 ==> q == -((-a) / b)
  {
    if a >= 0 then a / b else -((-a) / b)
  }

  /** Remainder with the sign of the dividend. */
  function Rem(a: int, b: int): (r: int)
    requires b > 0
    ensures a == Quo(a, b) * b + r
    ensures -b < r < b
  {
    if a >= 0 then a % b else -((-a) % b)
  }

  /** Quotient and remainder are determined by the division equation. */
  lemma DivUnique(x: int, k: int, q: int, r: int)
    requires k > 0 && 0 <= r < k && x == k * q + r
    ensures x / k == q && x % k == r
  {
    var q', r' := x / k, x % k;
    assert k * (q - q') == r' - r;
    MultipleGrows(k, q - q');
  }

  lemma MultipleGrows(k: int, d: int)
    requires k > 0
    ensures d >= 1 ==> k * d >= k
    ensures d <= -1 ==> k * d <= -k
  {
    if d >= 1 { assert k * d == k + k * (d - 1); }
    if d <= -1 { assert k * d == -k + k * (d + 1); }
  }
}
