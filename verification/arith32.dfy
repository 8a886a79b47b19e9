/** Unsigned 32-bit arithmetic, as `unsigned long` behaves on the AVR
    target: values live in [0, 2^32) and addition and subtraction wrap. */
module Arith32 {

  const MODULUS: int := 0x1_0000_0000

  /** An `unsigned long` value. */
  type U32 = x: int | 0 <= x < 0x1_0000_0000

  const MAX_U32: U32 := 0xFFFF_FFFF

  /** `a + b` on `unsigned long`. */
  function Add(a: U32, b: U32): (r: U32)
    ensures a + b < MODULUS ==> r == a + b
    ensures MODULUS <= a + b ==> r == a + b - MODULUS
  {
    (a + b) % MODULUS
  }

  /** `a - b` on `unsigned long`. */
  function Sub(a: U32, b: U32): (r: U32)
    ensures b <= a ==> r == a - b
    ensures a < b ==> r == a - b + MODULUS
  {
    (a - b) % MODULUS
  }

  /** Subtracting what was added gives the original value back, even when
      the addition wrapped. */
  lemma SubUndoesAdd(a: U32, b: U32)
    ensures Sub(Add(a, b), b) == a
  {
  }
}
