/** Adding a signed 64-bit offset to an unsigned 64-bit position by
    reinterpreting the offset's bits and adding with wrap-around. */
module SignedOffset {
  import opened Ints

  /** `rhs as u64`: the unsigned number with the same two's-complement bits. */
  function AsUnsigned(rhs: I64): (r: U64)
    ensures (r - rhs) % TWO_64 == 0
    ensures rhs < 0 <==> r > I64_MAX
  {
    if rhs < 0 then rhs + TWO_64 else rhs
  }

  /** `overflowing_add_signed`: the wrapped sum, and a flag that is the carry of the
      unsigned addition XOR the sign of `rhs`. The flag is set exactly when the
      mathematical sum leaves [0, 2^64). */
  function OverflowingAddSigned(lhs: U64, rhs: I64): (r: (U64, bool))
    ensures r.0 == (lhs + rhs) % TWO_64
    ensures r.1 <==> !(0 <= lhs + rhs <= U64_MAX)
  {
    var (res, overflowed) := OverflowingAdd(lhs, AsUnsigned(rhs));
    assert res == (lhs + rhs) % TWO_64 by {
      if rhs < 0 {
        WrapShift(lhs + rhs);
      }
    }
    (res, overflowed != (rhs < 0))
  }

  /** Adding 2^64 does not change a number modulo 2^64. */
  lemma WrapShift(x: int)
    ensures (x + TWO_64) % TWO_64 == x % TWO_64
  {
  }

  /** `checked_add_signed`: `Some(lhs + rhs)` exactly when the mathematical sum is
      a valid `u64`, `None` otherwise. */
  function CheckedAddSigned(lhs: U64, rhs: I64): (r: Option<U64>)
    ensures r == if 0 <= lhs + rhs <= U64_MAX then Some(lhs + rhs) else None
  {
    var (a, b) := OverflowingAddSigned(lhs, rhs);
    if b then None else Some(a)
  }

  /** The boundary values 0, u64::MAX, i64::MIN and i64::MAX: a negative offset
      whose unsigned addition wraps is a legal backward move, and a raw addition
      that does not carry with a negative offset is an underflow. */
  lemma OverflowingAddSignedBoundaries()
    ensures OverflowingAddSigned(1, -1) == (0, false)
    ensures OverflowingAddSigned(0, -1) == (U64_MAX, true)
    ensures OverflowingAddSigned(U64_MAX, 1) == (0, true)
    ensures OverflowingAddSigned(U64_MAX, -1) == (U64_MAX - 1, false)
    ensures OverflowingAddSigned(U64_MAX, I64_MIN) == (I64_MAX, false)
    ensures OverflowingAddSigned(0, I64_MIN) == (I64_MAX + 1, true)
    ensures OverflowingAddSigned(0, I64_MAX) == (I64_MAX, false)
    ensures OverflowingAddSigned(I64_MAX + 1, I64_MAX) == (U64_MAX, false)
    ensures OverflowingAddSigned(I64_MAX + 2, I64_MAX) == (0, true)
  {
  }
}
