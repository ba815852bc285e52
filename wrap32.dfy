// Fixed-width arithmetic of the C++ `uint32_t` / `int32_t` types the
// scheduler computes with: unsigned sums and differences wrap modulo 2^32,
// and a cast to `int32_t` reinterprets the bit pattern as two's complement.
module Wrap32 {

  const MODULUS: int := 0x1_0000_0000
  const HALF: int := 0x8000_0000

  /** A value of C++ `uint32_t`. */
  newtype u32 = x: int | 0 <= x < 0x1_0000_0000

  /** `a + b` on `uint32_t`: the sum, less 2^32 when it overflows. */
  function Add32(a: u32, b: u32): (r: u32)
    ensures r as int == a as int + b as int || r as int == a as int + b as int - MODULUS
    ensures r as int == a as int + b as int <==> a as int + b as int < MODULUS
  {
    if a as int + b as int < MODULUS then a + b
    else (a as int + b as int - MODULUS) as u32
  }

  /** `a - b` on `uint32_t`: the difference, plus 2^32 when it underflows. */
  function Sub32(a: u32, b: u32): (r: u32)
    ensures r as int == a as int - b as int || r as int == a as int - b as int + MODULUS
    ensures r as int == a as int - b as int <==> a >= b
  {
    if a >= b then a - b
    else (a as int - b as int + MODULUS) as u32
  }

  /**
   * `(int32_t)x`: the unique value in the signed 32-bit range that is
   * congruent to `x` modulo 2^32 (two's-complement reinterpretation).
   */
  function ToInt32(x: u32): (r: int)
    ensures -HALF <= r < HALF
    ensures r >= 0 <==> x as int < HALF
  {
    if x as int < HALF then x as int else x as int - MODULUS
  }

  /** `Add32` is addition modulo 2^32. */
  lemma Add32IsModular(a: u32, b: u32)
    ensures Add32(a, b) as int == (a as int + b as int) % MODULUS
  {
  }

  /** `Sub32` is subtraction modulo 2^32. */
  lemma Sub32IsModular(a: u32, b: u32)
    ensures Sub32(a, b) as int == (a as int - b as int) % MODULUS
  {
  }

  /** `ToInt32(x)` is congruent to `x` modulo 2^32. */
  lemma ToInt32Congruent(x: u32)
    ensures (ToInt32(x) - x as int) % MODULUS == 0
  {
  }

  /** Subtraction undoes addition on the wrapped counter. */
  lemma SubAfterAdd(a: u32, b: u32)
    ensures Sub32(Add32(a, b), a) == b
  {
  }

  /** Addition undoes subtraction on the wrapped counter. */
  lemma AddAfterSub(a: u32, b: u32)
    ensures Add32(b, Sub32(a, b)) == a
  {
  }

  /** Two's complement is the only signed 32-bit representative of `x`. */
  lemma ToInt32Unique(x: u32, s: int)
    requires -HALF <= s < HALF
    requires (s - x as int) % MODULUS == 0
    ensures s == ToInt32(x)
  {
    ToInt32Congruent(x);
    var q := (s - x as int) / MODULUS;
    assert s - x as int == q * MODULUS;
    if x as int < HALF {
      assert -HALF - HALF < q * MODULUS < HALF;
      assert q == 0;
    } else {
      assert -MODULUS - HALF < q * MODULUS < 0;
      assert q == -1;
    }
  }

  /** Reducing an operand first gives the same residue. */
  lemma ModAddAbsorb(x: int, y: int)
    ensures ((x % MODULUS) + y) % MODULUS == (x + y) % MODULUS
  {
    var z := (x % MODULUS) + y;
    assert z + (x / MODULUS) * MODULUS == x + y;
  }
}
