/** Shared value types: options, results and the machine integer bounds the sources rely on. */
module Prelude {

  datatype Option<+T> = None | Some(value: T)

  datatype Result<+T, +E> = Ok(value: T) | Err(error: E)

  const U32_MAX: int := 0xFFFF_FFFF
  const U64_MAX: int := 0xFFFF_FFFF_FFFF_FFFF

  type byte = bv8

  type u64 = x: int | 0 <= x <= U64_MAX

  function Min(a: int, b: int): int {
    if a <= b then a else b
  }

  function Max(a: int, b: int): int {
    if a <= b then b else a
  }

  /** `u64::saturating_add`; the addend may be any length. */
  function SaturatingAdd(a: u64, b: nat): u64 {
    Min(a + b, U64_MAX)
  }

  /** Division rounded up. */
  function CeilDiv(n: nat, d: nat): nat
    requires d > 0
  {
    (n + d - 1) / d
  }

  lemma {:induction false} AppendSnoc<T>(a: seq<T>, s: seq<T>)
    requires s != []
    ensures a + s == a + s[..|s| - 1] + [s[|s| - 1]]
  {
  }
}
