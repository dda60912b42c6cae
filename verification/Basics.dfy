/** Values shared by every module: optional values (Go's nil), byte strings and the bounds of
    Go's fixed-width integers. */
module Basics {

  datatype Option<+T> = None | Some(value: T)

  type byte = x: int | 0 <= x < 256
  type Bytes = seq<byte>

  const MAX_INT64: int := 0x7FFF_FFFF_FFFF_FFFF
  const MIN_INT64: int := -0x8000_0000_0000_0000
  const TWO_64: int := 0x1_0000_0000_0000_0000
  const TWO_16: int := 0x1_0000

  predicate IsInt64(n: int) { MIN_INT64 <= n <= MAX_INT64 }

  /** Go's `n + 1` on an int64. */
  function Inc64(n: int): (r: int)
    requires IsInt64(n)
    ensures IsInt64(r)
    ensures r > n <==> n != MAX_INT64
  {
    if n == MAX_INT64 then MIN_INT64 else n + 1
  }

  /** The bytes of a possibly nil slice: nil and the empty slice carry the same bytes. */
  function Raw(b: Option<Bytes>): Bytes { if b.Some? then b.value else [] }
}
