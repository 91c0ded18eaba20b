/** The guards that let a 64-bit offset cross into the browser's double-precision
    numbers, and a size come back, only when no precision is lost. */
module SafeNumber {
  import opened Ints

  /** `Number.MAX_SAFE_INTEGER`: the largest integer n such that n and n + 1 are
      both exactly representable as a double. */
  const MAX_SAFE_INTEGER: int := 0x1F_FFFF_FFFF_FFFF

  /** A JavaScript number: a finite value, an infinity or NaN. Finite values are
      kept as exact reals; rounding to 53 bits is not modelled. */
  datatype F64 = Finite(v: real) | PosInf | NegInf | NaN

  /** `u64_to_f64_safe`: the number for `x` when `x` does not exceed
      `MAX_SAFE_INTEGER`, so that the conversion is exact. */
  function U64ToF64Safe(x: U64): (r: Option<F64>)
    ensures r.Some? <==> x <= MAX_SAFE_INTEGER
    ensures r.Some? ==> r.value.Finite? && r.value.v == x as real
    ensures r.Some? ==> F64ToU64Safe(r.value) == Some(x)
  {
    if x <= MAX_SAFE_INTEGER then Some(Finite(x as real)) else None
  }

  /** `f64_to_u64_safe`: succeeds exactly for the finite numbers in
      [0, MAX_SAFE_INTEGER] and yields `x as u64`, the integer part of `x`. */
  function F64ToU64Safe(x: F64): (r: Option<U64>)
    ensures r.Some? <==> x.Finite? && 0.0 <= x.v <= MAX_SAFE_INTEGER as real
    ensures r.Some? ==> r.value <= MAX_SAFE_INTEGER
    ensures r.Some? ==> r.value as real <= x.v < r.value as real + 1.0
  {
    if x.Finite? && 0.0 <= x.v && x.v <= MAX_SAFE_INTEGER as real then
      Some(x.v.Floor)
    else
      None
  }

  /** NaN, the infinities, negative numbers and numbers above the safe bound are
      all refused. */
  lemma F64ToU64SafeRefuses(x: F64)
    requires x.NaN? || x.PosInf? || x.NegInf? || (x.Finite? && (x.v < 0.0 || x.v > MAX_SAFE_INTEGER as real))
    ensures F64ToU64Safe(x) == None
  {
  }

  /** An integral number in the safe range comes back as exactly that integer. */
  lemma F64ToU64SafeExact(n: int)
    requires 0 <= n <= MAX_SAFE_INTEGER
    ensures F64ToU64Safe(Finite(n as real)) == Some(n)
  {
  }

  /** Every offset the forward guard accepts converts back to itself, and every
      offset above the bound is refused. */
  lemma SafeRoundTrip(x: U64)
    ensures x <= MAX_SAFE_INTEGER ==> F64ToU64Safe(U64ToF64Safe(x).value) == Some(x)
    ensures x > MAX_SAFE_INTEGER ==> U64ToF64Safe(x) == None
  {
  }

  /** The backward guard followed by the forward one gives back the original number
      whenever that number is integral. */
  lemma SafeRoundTripBack(y: F64)
    requires F64ToU64Safe(y).Some? && y.v == y.v.Floor as real
    ensures U64ToF64Safe(F64ToU64Safe(y).value) == Some(y)
  {
  }
}
