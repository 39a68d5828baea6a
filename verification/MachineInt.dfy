/** Fixed-width integers as the program's release build computes with them: plain `+` and
    `-` wrap around, `saturating_add` clamps, `/` truncates toward zero. */
module MachineInt {

  const I64_MAX: int := 0x7FFF_FFFF_FFFF_FFFF
  const I64_MIN: int := -0x8000_0000_0000_0000

  type I64 = x: int | I64_MIN <= x <= I64_MAX

  function Max(a: int, b: int): int {
    if a >= b then a else b
  }

  function Min(a: int, b: int): int {
    if a <= b then a else b
  }

  function Clamp(x: int, lo: int, hi: int): int {
    Max(lo, Min(x, hi))
  }

  /** Keeps the low 64 bits of `x`, read as a signed number. */
  function WrapI64(x: int): (r: I64)
    ensures (r - x) % 0x1_0000_0000_0000_0000 == 0
    ensures r == x <==> I64_MIN <= x <= I64_MAX
  {
    (x + 0x8000_0000_0000_0000) % 0x1_0000_0000_0000_0000 - 0x8000_0000_0000_0000
  }

  /** Keeps the low 32 bits of `x`, read as a signed number. */
  function WrapI32(x: int): (r: int)
    ensures -0x8000_0000 <= r < 0x8000_0000
    ensures (r - x) % 0x1_0000_0000 == 0
    ensures r == x <==> -0x8000_0000 <= x < 0x8000_0000
  {
    (x + 0x8000_0000) % 0x1_0000_0000 - 0x8000_0000
  }

  function SaturatingAdd(a: I64, b: I64): (r: I64) {
    Clamp(a + b, I64_MIN, I64_MAX)
  }

  /** Integer division that rounds toward zero. */
  function TruncDiv(a: int, n: int): (q: int)
    requires n > 0
  {
    if a >= 0 then a / n else -((-a) / n)
  }

  /** A larger factor makes a product no smaller. */
  lemma ProductMonotone(x: int, y: int, c: nat)
    requires x <= y
    ensures x * c <= y * c
  {
  }

  /** Products of whole numbers are the same over reals. */
  lemma WholeProduct(a: int, n: nat)
    ensures a as real * n as real == (a * n) as real
  {
  }

  /** Wrapping once at the end or after every addition gives the same number. */
  lemma WrapAbsorbs(x: int, y: int)
    ensures WrapI64(WrapI64(x) + y) == WrapI64(x + y)
  {
  }
}
