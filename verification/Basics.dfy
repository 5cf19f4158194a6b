/** Bytes, Option and Result, shared by every model. */
module Basics {

  datatype Option<+T> = None | Some(value: T)

  datatype Result<+T, +E> = Success(value: T) | Failure(error: E)

  type Byte = x: int | 0 <= x < 256

  // usize, u64 and u32 limits of the source's target
  const U64_MAX: nat := 0xFFFF_FFFF_FFFF_FFFF
  const U32_MAX: nat := 0xFFFF_FFFF

  function SaturatingInc(n: nat, limit: nat): nat {
    if n < limit then n + 1 else n
  }

  function Min(a: int, b: int): int {
    if a <= b then a else b
  }

  function Max(a: int, b: int): int {
    if a >= b then a else b
  }
}
