/** The binary interchange formats of IEEE 754-2008 (section 3.4) as bit
    layouts of an unsigned word: the sign bit on top, then the biased
    exponent field, then the trailing significand (fraction) field. Only the
    layout is modelled, never the number a pattern denotes. */
module Ieee754 {

  /** binary64: 1 sign bit, 11 exponent bits (bias 1023), 52 fraction bits. */
  function Binary64Sign(w: bv64): bv64 { w >> 63 }
  function Binary64Exponent(w: bv64): bv64 { (w >> 52) & 0x7FF }
  function Binary64Fraction(w: bv64): bv64 { w & 0xF_FFFF_FFFF_FFFF }

  /** binary32: 1 sign bit, 8 exponent bits (bias 127), 23 fraction bits. */
  function Binary32Sign(w: bv32): bv32 { w >> 31 }
  function Binary32Exponent(w: bv32): bv32 { (w >> 23) & 0xFF }
  function Binary32Fraction(w: bv32): bv32 { w & 0x7F_FFFF }

  /** The binary32 word with the given fields; the fields are read back
      unchanged, and every word is the assembly of its own fields. */
  function Binary32Word(sign: bv32, exponent: bv32, fraction: bv32): (w: bv32)
    requires sign < 2 && exponent < 0x100 && fraction < 0x80_0000
    ensures Binary32Sign(w) == sign
    ensures Binary32Exponent(w) == exponent
    ensures Binary32Fraction(w) == fraction
  {
    (sign << 31) | (exponent << 23) | fraction
  }

  /** Every binary32 word is determined by its three fields. */
  lemma Binary32WordOfFields(w: bv32)
    ensures Binary32Word(Binary32Sign(w), Binary32Exponent(w), Binary32Fraction(w)) == w
  {
  }

  /** Two binary32 words with the same three fields are the same word. */
  lemma FieldsDetermineWord(a: bv32, b: bv32)
    requires Binary32Sign(a) == Binary32Sign(b)
    requires Binary32Exponent(a) == Binary32Exponent(b)
    requires Binary32Fraction(a) == Binary32Fraction(b)
    ensures a == b
  {
  }
}
