/**
  The machine integers the crates compute with: a 64-bit `usize`, its checked and
  saturating operations, and the fixed-width types read off the wire.
 */
module Machine {
  import opened Wrappers

  const U32_LIMIT: nat := 0x1_0000_0000
  const U64_LIMIT: nat := 0x1_0000_0000_0000_0000
  const USIZE_MAX: nat := U64_LIMIT - 1

  type byte = b: int | 0 <= b < 0x100
  type u16 = n: int | 0 <= n < 0x1_0000
  type u32 = n: int | 0 <= n < 0x1_0000_0000
  type u64 = n: int | 0 <= n < 0x1_0000_0000_0000_0000
  type usize = n: int | 0 <= n < 0x1_0000_0000_0000_0000

  function CheckedAdd(a: nat, b: nat): Option<usize> {
    if a + b <= USIZE_MAX then Some(a + b) else None
  }

  function CheckedMul(a: nat, b: nat): Option<usize> {
    if a * b <= USIZE_MAX then Some(a * b) else None
  }

  function SaturatingMul(a: nat, b: nat): usize {
    if a * b <= USIZE_MAX then a * b else USIZE_MAX
  }

  /** `usize::div_ceil`: the quotient rounded up. */
  function DivCeil(a: nat, b: nat): nat
    requires b > 0
  {
    if a % b == 0 then a / b else a / b + 1
  }
}
