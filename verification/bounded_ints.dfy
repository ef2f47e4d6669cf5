/** The machine integers of the source language. */
module BoundedInts {

  const MIN_INT32: int := -0x8000_0000
  const MAX_INT32: int := 0x7FFF_FFFF

  /** A 32-bit signed integer (C# `int`). Speeds and thresholds are only ever compared,
      never added or scaled, so no wrap-around can arise in the governor. */
  type Int32 = x: int | MIN_INT32 <= x <= MAX_INT32
}
