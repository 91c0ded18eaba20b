/** Fixed-width integers of the adapter and the standard `u64` operations it calls
    (`overflowing_add`, `checked_add`, `saturating_add`), with wrap-around written out. */
module Ints {

  const TWO_64: int := 0x1_0000_0000_0000_0000
  const U64_MAX: int := TWO_64 - 1
  const I64_MIN: int := -0x8000_0000_0000_0000
  const I64_MAX: int := 0x7FFF_FFFF_FFFF_FFFF

  /** An unsigned 64-bit integer. */
  type U64 = x: int | 0 <= x <= U64_MAX

  /** A signed (two's complement) 64-bit integer. */
  type I64 = x: int | I64_MIN <= x <= I64_MAX

  datatype Option<+T> = None | Some(value: T)

  /** `a.overflowing_add(b)`: the sum modulo 2^64 and whether the mathematical sum
      did not fit in 64 bits (the carry out of the top bit). */
  function OverflowingAdd(a: U64, b: U64): (r: (U64, bool))
    ensures r.1 <==> a + b > U64_MAX
    ensures r.0 == (a + b) % TWO_64
  {
    if a + b > U64_MAX then (a + b - TWO_64, true) else (a + b, false)
  }

  /** `a.checked_add(b)`: the sum when it fits in 64 bits, `None` otherwise. */
  function CheckedAdd(a: U64, b: U64): (r: Option<U64>)
    ensures r.Some? <==> a + b <= U64_MAX
    ensures r.Some? ==> r.value == a + b
  {
    var (sum, overflowed) := OverflowingAdd(a, b);
    if overflowed then None else Some(sum)
  }

  /** `a.saturating_add(b)`: the sum, or `u64::MAX` when the sum does not fit;
      it never wraps, so it is never below either operand. */
  function SaturatingAdd(a: U64, b: U64): (r: U64)
    ensures a <= r && b <= r
    ensures r == a + b || (a + b > U64_MAX && r == U64_MAX)
  {
    match CheckedAdd(a, b)
    case Some(sum) => sum
    case None => U64_MAX
  }
}
