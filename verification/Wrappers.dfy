/** Shared value types, and what is said about them more than once. */
module Wrappers {
  datatype Option<+T> = None | Some(value: T)

  /** An unsigned 8-bit value (uint8_t). */
  type Byte = x: int | 0 <= x < 0x100

  type Bytes = seq<Byte>

  const TWO_TO_THE_32: nat := 0x1_0000_0000

  // Error codes of include/hs/common.h
  const ERROR_MEMORY := -1
  const ERROR_NOT_FOUND := -2
  const ERROR_IO := -4

  /** As much of b as fits into room. */
  function Prefix(b: Bytes, room: nat): (p: Bytes)
    ensures p <= b && |p| == if room < |b| then room else |b|
  {
    if room > |b| then b else b[..room]
  }

  lemma Regroup<T>(a: seq<T>, b: seq<T>, c: seq<T>)
    ensures a + b + c == a + (b + c)
  {
  }
}
