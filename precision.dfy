/** The two element representations of the kernels and the conversions
 *  between them, as the bit operations the kernels perform.
 *
 *  An `F32` is the bit pattern of an IEEE-754 single; a `BF16`
 *  (`libxsmm_bfloat16`) is the upper half of such a pattern. Widening
 *  places the 16 bits in the upper half of a 32-bit lane; narrowing first
 *  applies the library's round-to-nearest-even step (whose body is not part
 *  of this model, so it is a parameter) and then keeps the upper 16 bits.
 */
module Precision {

  type F32 = bv32
  type BF16 = bv16

  /** `_mm512_cvtepi16_epi32`: sign-extends a 16-bit lane to 32 bits. */
  function SignExtend(x: bv16): (r: bv32)
    ensures r & 0xFFFF == x as bv32
    ensures r >> 16 == (if x & 0x8000 != 0 then 0xFFFF else 0)
  {
    if x & 0x8000 != 0 then (x as bv32) | 0xFFFF_0000 else x as bv32
  }

  /** The BF16 load of the kernels: `_mm512_slli_epi32(_mm512_cvtepi16_epi32(x), 16)`.
   *  The sign extension is shifted out: the result holds `x` in its upper
   *  half and zeros in its lower half. */
  function Widen(x: BF16): (r: F32)
    ensures r & 0xFFFF == 0
    ensures r >> 16 == x as bv32
  {
    SignExtend(x) << 16
  }

  /** `_mm512_srai_epi32(v, 16)`: arithmetic shift right by 16, filling with the sign bit. */
  function ShiftRightArith16(v: bv32): (r: bv32)
    ensures r & 0xFFFF == v >> 16
    ensures r >> 16 == (if v & 0x8000_0000 != 0 then 0xFFFF else 0)
  {
    if v & 0x8000_0000 != 0 then (v >> 16) | 0xFFFF_0000 else v >> 16
  }

  /** `_mm512_cvtepi32_epi16`: keeps the low 16 bits of a 32-bit lane. */
  function Truncate16(v: bv32): (r: bv16)
    ensures r as bv32 == v & 0xFFFF
  {
    (v & 0xFFFF) as bv16
  }

  /** The upper 16 bits of a lane, as the kernels extract them: an arithmetic
   *  shift followed by truncation, which discards the sign fill. */
  function Upper16(v: F32): (r: BF16)
    ensures r as bv32 == v >> 16
  {
    Truncate16(ShiftRightArith16(v))
  }

  /** The BF16 store of the kernels: the rounding step `round`
   *  (LIBXSMM_INTRINSICS_MM512_ROUNDNE_BF16), then the upper 16 bits. */
  function Narrow(round: F32 -> F32, v: F32): (r: BF16)
    ensures r as bv32 == round(v) >> 16
  {
    Upper16(round(v))
  }

  /** Widening loses nothing: the upper half of a widened value is the value. */
  lemma UpperOfWiden(x: BF16)
    ensures Upper16(Widen(x)) == x
  {
    var w := Widen(x);
    assert Upper16(w) as bv32 == x as bv32;
  }
}
