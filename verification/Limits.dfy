/** Unsigned limits and the saturating operations of the source. */
module Limits {

  const U16_MAX: nat := 0xffff
  const U32_MAX: nat := 0xffff_ffff
  const U64_MAX: nat := 0xffff_ffff_ffff_ffff

  function Clamp(n: nat, limit: nat): nat {
    if n <= limit then n else limit
  }

  /** `a.saturating_add(b)` on 64 bits. */
  function SaturatingAdd(a: nat, b: nat): nat {
    Clamp(a + b, U64_MAX)
  }
}
