/** Go's fixed-width integers, and the conversions between them, over Dafny's unbounded int. */
module Ints {

  const TwoTo32: int := 0x1_0000_0000
  const TwoTo64: int := 0x1_0000_0000_0000_0000
  const MaxInt64: int := 0x7FFF_FFFF_FFFF_FFFF
  const MaxUint64: int := 0xFFFF_FFFF_FFFF_FFFF

  type byte = b: int | 0 <= b < 0x100
  type uint32 = x: int | 0 <= x < 0x1_0000_0000
  type uint64 = x: int | 0 <= x < 0x1_0000_0000_0000_0000
  type int64 = x: int | -0x8000_0000_0000_0000 <= x <= 0x7FFF_FFFF_FFFF_FFFF

  /** The value a uint64 addition or subtraction yields: the exact result modulo 2^64. */
  function Wrap64(x: int): (r: uint64)
    ensures 0 <= x <= MaxUint64 ==> r == x
    ensures -TwoTo64 <= x < 0 ==> r == x + TwoTo64
  {
    x % TwoTo64
  }

  /** Incrementing a wrapped value wraps the incremented value. */
  lemma Wrap64Succ(x: nat)
    ensures Wrap64(Wrap64(x) + 1) == Wrap64(x + 1)
  {
  }

  /** Go's `int64(x)` for a uint64 `x`: values of 2^63 and above become negative. */
  function ToInt64(x: uint64): (r: int64)
    ensures 0 <= r <==> x <= MaxInt64
    ensures 0 <= r ==> r == x
    ensures r < 0 ==> r == x - TwoTo64
  {
    if x <= MaxInt64 then x else x - TwoTo64
  }

  /** Go's `uint32(x)` for a uint64 `x`: the low 32 bits. */
  function Trunc32(x: uint64): (r: uint32)
    ensures x < TwoTo32 ==> r == x
  {
    x % TwoTo32
  }
}
