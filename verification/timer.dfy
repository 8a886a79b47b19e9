/** The Timer1 compare value the sensor constructor programs so that a
    trigger pulse is emitted four times a second. Only the arithmetic is
    modelled; the register writes themselves are hardware configuration. */
module Timer1 {

  /** The ATmega clock, in Hz. */
  const CPU_HZ: nat := 16_000_000
  /** The Timer1 prescaler selected by the clock-select bits. */
  const PRESCALER: nat := 64
  /** The trigger rate, in Hz (one pulse every 250 ms). */
  const TRIGGER_HZ: nat := 4
  /** The value the constructor writes to OCR1A. */
  const OCR1A: nat := 62499
  /** The largest prescaler an 8-bit timer of this chip offers. */
  const MAX_PRESCALER: nat := 1024

  /** Whether a compare value fits a counter of `bits` bits. */
  predicate Fits(top: int, bits: nat)
  {
    0 <= top < Pow2(bits)
  }

  function Pow2(n: nat): nat
  {
    if n == 0 then 1 else 2 * Pow2(n - 1)
  }

  /** The compare value for a clear-on-match timer: the counter counts
      `top + 1` prescaled ticks per period, so that is the largest whole
      number of ticks that fits in one period of the target frequency. */
  function CompareValue(clockHz: nat, prescaler: nat, freq: nat): (top: int)
    requires prescaler > 0 && freq > 0
    ensures (top + 1) * (prescaler * freq) <= clockHz < (top + 2) * (prescaler * freq)
  {
    clockHz / (prescaler * freq) - 1
  }

  /** The constant written to OCR1A is the formula's value, fits the 16-bit
      register, and makes the period exactly 250 ms with no rounding. */
  lemma Ocr1aIsExact()
    ensures CompareValue(CPU_HZ, PRESCALER, TRIGGER_HZ) == OCR1A
    ensures Fits(OCR1A, 16)
    ensures (OCR1A + 1) * PRESCALER * TRIGGER_HZ == CPU_HZ
  {
    assert Pow2(16) == 0x1_0000 by {
      assert Pow2(8) == 256;
    }
  }

  /** An 8-bit timer cannot reach 4 Hz, not even with its largest
      prescaler: Timer0 and Timer2 are too small. */
  lemma EightBitTimersTooSmall()
    ensures !Fits(OCR1A, 8)
    ensures !Fits(CompareValue(CPU_HZ, MAX_PRESCALER, TRIGGER_HZ), 8)
  {
    assert Pow2(8) == 256;
  }
}
