/** The `unpack<double>` specialisation for targets whose `double` is only
    four bytes wide. It reads an eight-byte binary64 pattern and assembles,
    with integer shifts and masks, the four bytes `fn.b[0..3]` of a binary32
    pattern, which the source then reinterprets as a `float`; this model stops
    at those four bytes. `fn.b[0]` is the least significant byte.

    The source's intermediate `int16_t` values are 16-bit two's complement
    words here, which is exact because none of its sums leaves the `int16_t`
    range, and every store into a `uint8_t` keeps the low 8 bits.

    Byte parameters are named by significance within the binary64 pattern:
    `b7` holds the sign bit and `b0` the lowest fraction bits. */
module DoubleUnpack {
  import opened Bytes
  import opened Ieee754
  import Struct

  // ---------------------------------------------------------------------
  // The routine, step by step

  /** `expd`: the 11-bit binary64 exponent field, the low 7 bits of the sign
      byte `b7` shifted over the high nibble of `b6`. */
  function ExponentField(b7: byte, b6: byte): (expd: bv16)
    ensures expd < 0x800
  {
    ((b7 & 127) as bv16 << 4) + ((b6 & 240) >> 4) as bv16
  }

  /** The binary64 bias less the binary32 bias: 1023 - 127 = 896. */
  const BiasDifference: bv16 := 896

  /** `expf`: the exponent field re-biased from binary64 to binary32, with a
      zero field (zero or subnormal input) kept at zero. A field below 896
      gives a negative `expf`, and nothing checks that the result fits the
      8-bit binary32 field. */
  function Rebias(expd: bv16): (expf: bv16)
    requires expd < 0x800
    ensures expd == 0 ==> expf == 0
    ensures expd != 0 ==> expf + BiasDifference == expd
    ensures expd != 0 ==> (expf >= 0x8000 <==> expd < BiasDifference)
  {
    if expd != 0 then (expd - 1024) + 128 else 0
  }

  /** `x >> 1` on an `int16_t`: an arithmetic shift, which drops the low bit
      and keeps the sign bit. */
  function ShiftRight1(x: bv16): (r: bv16)
    ensures (r << 1) | (x & 1) == x
    ensures r & 0x8000 == x & 0x8000
  {
    (x >> 1) | (x & 0x8000)
  }

  /** Storing an `int` into a `uint8_t`: only the value modulo 256
      survives. */
  function Low8(x: bv16): (r: byte)
    ensures r as bv16 == x % 0x100
  {
    (x & 0xFF) as byte
  }

  /** `fn.b[3]`: the sign bit of `b7` plus `expf >> 1`, stored as a byte.
      The addition carries out of the byte, so the top bit is the sign bit
      exclusive-or bit 8 of `expf`, and the low 7 bits are bits 1 to 7 of
      `expf`. */
  function SignExponentByte(b7: byte, expf: bv16): (r: byte)
    ensures r >> 7 == (b7 >> 7) ^ ((expf >> 8) & 1) as byte
    ensures r & 0x7F == ((expf >> 1) & 0x7F) as byte
  {
    Low8((b7 & 128) as bv16 + ShiftRight1(expf))
  }

  /** `fn.b[2]`: the low bit of `expf` on top, then the low nibble of `b6`
      and the top 3 bits of `b5`. */
  function ExponentFractionByte(expf: bv16, b6: byte, b5: byte): (r: byte)
    ensures r >> 7 == (expf & 1) as byte
    ensures (r >> 3) & 0xF == b6 & 0xF
    ensures r & 7 == b5 >> 5
  {
    Low8(((expf & 1) << 7) + ((b6 & 15) << 3) as bv16 + ((b5 & 0xE0) >> 5) as bv16)
  }

  /** `fn.b[1]` and `fn.b[0]`: the low 5 bits of `a` over the top 3 bits of
      `b`. */
  function FractionByte(a: byte, b: byte): (r: byte)
    ensures r >> 3 == a & 0x1F
    ensures r & 7 == b >> 5
  {
    ((a & 0x1F) << 3) + ((b & 0xE0) >> 5)
  }

  /** The four bytes `fn.b[0..3]` computed from the five most significant
      bytes of the binary64 pattern. Both branches of the source run this
      same computation on different buffer positions. */
  function FloatBytes(b7: byte, b6: byte, b5: byte, b4: byte, b3: byte): (fn: seq<byte>)
    ensures |fn| == 4
  {
    var expf := Rebias(ExponentField(b7, b6));
    [ FractionByte(b4, b3),
      FractionByte(b5, b4),
      ExponentFractionByte(expf, b6, b5),
      SignExponentByte(b7, expf) ]
  }

  /** `unpack<double>` up to the four bytes `fn.b[0..3]`. The little-endian
      branch takes the sign byte from `packed[7]` and walks down to
      `packed[3]`; the big-endian branch takes it from `packed[0]` and walks
      up to `packed[4]`. Read as a binary32 word, the result has the binary64
      fraction truncated to its top 23 bits (no rounding), the re-biased
      exponent modulo 256 as its exponent field, and as its sign the binary64
      sign plus the re-biased exponent's ninth bit. Like the source, the byte
      order defaults to little-endian. */
  function DoubleToFloatBytes(packed: seq<byte>, littleEndian: bool := true): (fn: seq<byte>)
    requires 8 <= |packed|
    ensures |fn| == 4
    ensures Narrowed(InputWord(packed, littleEndian), FloatWord(fn))
  {
    if littleEndian then
      FloatBytesFields(packed[7], packed[6], packed[5], packed[4], packed[3], packed[2], packed[1], packed[0]);
      FloatBytes(packed[7], packed[6], packed[5], packed[4], packed[3])
    else
      FloatBytesFields(packed[0], packed[1], packed[2], packed[3], packed[4], packed[5], packed[6], packed[7]);
      FloatBytes(packed[0], packed[1], packed[2], packed[3], packed[4])
  }

  // ---------------------------------------------------------------------
  // The reference: what the routine computes, stated on words

  /** The binary64 pattern held in the buffer: little-endian data starts with
      the least significant byte, big-endian data with the most significant. */
  function InputWord(packed: seq<byte>, littleEndian: bool): bv64
    requires 8 <= |packed|
  {
    if littleEndian then
      Word64(packed[7], packed[6], packed[5], packed[4], packed[3], packed[2], packed[1], packed[0])
    else
      Word64(packed[0], packed[1], packed[2], packed[3], packed[4], packed[5], packed[6], packed[7])
  }

  /** The binary32 pattern held in `fn.b[0..3]`, least significant byte first. */
  function FloatWord(fn: seq<byte>): bv32
    requires |fn| == 4
  {
    Word32(fn[3], fn[2], fn[1], fn[0])
  }

  /** `f` is the binary32 narrowing of the binary64 pattern `w` as the
      routine performs it: the fraction truncated to its top 23 bits (no
      rounding), the re-biased exponent modulo 256 as the exponent field, and
      as sign the binary64 sign plus the re-biased exponent's ninth bit. */
  predicate Narrowed(w: bv64, f: bv32)
  {
    var expf := Rebias(Binary64Exponent(w) as bv16);
    && Binary32Fraction(f) as bv64 == Binary64Fraction(w) >> 29
    && Binary32Exponent(f) == (expf & 0xFF) as bv32
    && Binary32Sign(f) == (Binary64Sign(w) as bv32 + (expf >> 8) as bv32) & 1
  }

  /** The re-encoding as one word operation: the binary64 sign bit shifted
      to bit 31, plus the re-biased exponent shifted to bit 23, plus the top
      23 fraction bits, all in 32-bit arithmetic. */
  function NarrowWord(w: bv64): bv32
  {
    var expf := Rebias(Binary64Exponent(w) as bv16);
    ((Binary64Sign(w) as bv32) << 31) + ((expf as bv32) << 23) + (Binary64Fraction(w) >> 29) as bv32
  }

  // ---------------------------------------------------------------------
  // Field by field, on the bytes the routine reads

  /** The binary64 sign is the top bit of `b7`. */
  lemma Binary64SignOfBytes(b7: byte, b6: byte, b5: byte, b4: byte, b3: byte, b2: byte, b1: byte, b0: byte)
    ensures Binary64Sign(Word64(b7, b6, b5, b4, b3, b2, b1, b0)) == (b7 >> 7) as bv64
  {
  }

  /** The binary64 exponent field is `expd`. */
  lemma Binary64ExponentOfBytes(b7: byte, b6: byte, b5: byte, b4: byte, b3: byte, b2: byte, b1: byte, b0: byte)
    ensures Binary64Exponent(Word64(b7, b6, b5, b4, b3, b2, b1, b0)) as bv16 == ExponentField(b7, b6)
  {
  }

  /** The top 23 bits of the binary64 fraction run from the low nibble of
      `b6` down to the top 3 bits of `b3`. */
  lemma Binary64FractionOfBytes(b7: byte, b6: byte, b5: byte, b4: byte, b3: byte, b2: byte, b1: byte, b0: byte)
    ensures Binary64Fraction(Word64(b7, b6, b5, b4, b3, b2, b1, b0)) >> 29
            == ((b6 & 15) as bv64 << 19) | (b5 as bv64 << 11) | (b4 as bv64 << 3) | (b3 >> 5) as bv64
  {
  }

  /** The binary32 sign of the result: the top bit of `b7` plus the ninth
      bit of `expf`, which `expf >> 1` carries into the top of `fn.b[3]`. */
  lemma FloatSignOfBytes(b7: byte, b6: byte, b5: byte, b4: byte, b3: byte)
    ensures Binary32Sign(FloatWord(FloatBytes(b7, b6, b5, b4, b3)))
            == ((b7 >> 7) as bv32 + (Rebias(ExponentField(b7, b6)) >> 8) as bv32) & 1
  {
  }

  /** The binary32 exponent field of the result is `expf` modulo 256. */
  lemma FloatExponentOfBytes(b7: byte, b6: byte, b5: byte, b4: byte, b3: byte)
    ensures Binary32Exponent(FloatWord(FloatBytes(b7, b6, b5, b4, b3)))
            == (Rebias(ExponentField(b7, b6)) & 0xFF) as bv32
  {
  }

  /** The binary32 fraction field of the result is made of the same bits
      as the top of the binary64 fraction. */
  lemma FloatFractionOfBytes(b7: byte, b6: byte, b5: byte, b4: byte, b3: byte)
    ensures Binary32Fraction(FloatWord(FloatBytes(b7, b6, b5, b4, b3)))
            == ((b6 & 15) as bv32 << 19) | (b5 as bv32 << 11) | (b4 as bv32 << 3) | (b3 >> 5) as bv32
  {
  }

  /** The fraction bits above, assembled in 32 bits, widen to their 64-bit
      assembly. */
  lemma WidenFraction(b6: byte, b5: byte, b4: byte, b3: byte)
    ensures (((b6 & 15) as bv32 << 19) | (b5 as bv32 << 11) | (b4 as bv32 << 3) | (b3 >> 5) as bv32) as bv64
            == ((b6 & 15) as bv64 << 19) | (b5 as bv64 << 11) | (b4 as bv64 << 3) | (b3 >> 5) as bv64
  {
  }

  /** The three binary32 fields of `FloatBytes`, in terms of the binary64
      fields of the eight bytes. */
  lemma FloatBytesFields(b7: byte, b6: byte, b5: byte, b4: byte, b3: byte, b2: byte, b1: byte, b0: byte)
    ensures Narrowed(Word64(b7, b6, b5, b4, b3, b2, b1, b0), FloatWord(FloatBytes(b7, b6, b5, b4, b3)))
  {
    Binary64SignOfBytes(b7, b6, b5, b4, b3, b2, b1, b0);
    Binary64ExponentOfBytes(b7, b6, b5, b4, b3, b2, b1, b0);
    Binary64FractionOfBytes(b7, b6, b5, b4, b3, b2, b1, b0);
    FloatSignOfBytes(b7, b6, b5, b4, b3);
    FloatExponentOfBytes(b7, b6, b5, b4, b3);
    FloatFractionOfBytes(b7, b6, b5, b4, b3);
    WidenFraction(b6, b5, b4, b3);
  }

  // ---------------------------------------------------------------------
  // What the routine computes

  /** `NarrowWord` has the same three fields. */
  lemma NarrowWordFields(w: bv64)
    ensures Narrowed(w, NarrowWord(w))
  {
  }

  /** A binary64 pattern has exactly one narrowing. */
  lemma NarrowedIsUnique(w: bv64, a: bv32, b: bv32)
    requires Narrowed(w, a) && Narrowed(w, b)
    ensures a == b
  {
    FieldsDetermineWord(a, b);
  }

  /** The routine's four bytes are the reference word `NarrowWord` of the
      binary64 pattern in the buffer, for either byte order. */
  lemma DecodeIsNarrowWord(packed: seq<byte>, littleEndian: bool)
    requires 8 <= |packed|
    ensures FloatWord(DoubleToFloatBytes(packed, littleEndian)) == NarrowWord(InputWord(packed, littleEndian))
  {
    var w := InputWord(packed, littleEndian);
    NarrowWordFields(w);
    NarrowedIsUnique(w, FloatWord(DoubleToFloatBytes(packed, littleEndian)), NarrowWord(w));
  }

  /** The re-biased exponent fits the binary32 field exactly when the
      binary64 field is zero or lies in 896..1151. */
  lemma ExponentInRange(expd: bv16)
    requires expd < 0x800
    ensures Rebias(expd) < 0x100 <==> expd == 0 || BiasDifference <= expd < BiasDifference + 0x100
  {
  }

  /** The binary64 exponent field is zero or re-biases into the binary32
      range. */
  predicate ExponentFits(w: bv64)
  {
    var expd := Binary64Exponent(w) as bv16;
    expd == 0 || BiasDifference <= expd < BiasDifference + 0x100
  }

  /** The binary32 pattern with the sign of `w`, its re-biased exponent and
      the top 23 bits of its fraction, for a `w` whose exponent fits. */
  function Binary32Of(w: bv64): bv32
    requires ExponentFits(w)
  {
    var expd := Binary64Exponent(w) as bv16;
    ExponentInRange(expd);
    Binary32Word(Binary64Sign(w) as bv32, Rebias(expd) as bv32, (Binary64Fraction(w) >> 29) as bv32)
  }

  /** When the exponent fits, `NarrowWord` is that binary32 pattern: the
      sign is copied, not disturbed by a carry out of the exponent. */
  lemma NarrowWordInRange(w: bv64)
    requires ExponentFits(w)
    ensures NarrowWord(w) == Binary32Of(w)
  {
    ExponentInRange(Binary64Exponent(w) as bv16);
  }

  /** For a binary64 exponent field of zero or in 896..1151 the result is
      the binary32 pattern with the same sign, the re-biased exponent and
      the top 23 fraction bits. */
  lemma InRangeDecode(packed: seq<byte>, littleEndian: bool)
    requires 8 <= |packed|
    requires ExponentFits(InputWord(packed, littleEndian))
    ensures FloatWord(DoubleToFloatBytes(packed, littleEndian)) == Binary32Of(InputWord(packed, littleEndian))
  {
    DecodeIsNarrowWord(packed, littleEndian);
    NarrowWordInRange(InputWord(packed, littleEndian));
  }

  // ---------------------------------------------------------------------
  // Which bytes are read, and how the two byte orders relate

  /** The little-endian branch reads only `packed[3..8]`. */
  lemma LittleEndianReads(a: seq<byte>, b: seq<byte>)
    requires 8 <= |a| && 8 <= |b|
    requires a[3..8] == b[3..8]
    ensures DoubleToFloatBytes(a, true) == DoubleToFloatBytes(b, true)
  {
    assert forall i :: 3 <= i < 8 ==> a[i] == a[3..8][i - 3] == b[3..8][i - 3] == b[i];
  }

  /** The big-endian branch reads only `packed[..5]`. */
  lemma BigEndianReads(a: seq<byte>, b: seq<byte>)
    requires 8 <= |a| && 8 <= |b|
    requires a[..5] == b[..5]
    ensures DoubleToFloatBytes(a, false) == DoubleToFloatBytes(b, false)
  {
    assert forall i :: 0 <= i < 5 ==> a[i] == a[..5][i] == b[..5][i] == b[i];
  }

  /** The big-endian branch is the little-endian branch applied to the
      eight bytes in reverse order, and so is the pattern it decodes. */
  lemma BigEndianIsReversedLittle(packed: seq<byte>)
    requires 8 <= |packed|
    ensures DoubleToFloatBytes(packed, false) == DoubleToFloatBytes(Reverse(packed[..8]), true)
    ensures InputWord(packed, false) == InputWord(Reverse(packed[..8]), true)
  {
  }

  /** The pattern decoded is the one the generic `unpack` of an eight-byte
      unsigned integer reads from the same buffer in the same byte order. */
  lemma InputWordIsUnpacked(packed: seq<byte>, littleEndian: bool)
    requires 8 <= |packed|
    ensures InputWord(packed, littleEndian) == LeWord64(Struct.Unpacked(packed, 8, littleEndian))
  {
  }

  // ---------------------------------------------------------------------
  // Examples

  /** Both zeros keep their sign: the zero exponent field stays zero. */
  lemma ZeroDecodesToZero(packed: seq<byte>, littleEndian: bool, negative: bool)
    requires 8 <= |packed|
    requires InputWord(packed, littleEndian) == if negative then 0x8000_0000_0000_0000 else 0
    ensures DoubleToFloatBytes(packed, littleEndian) == if negative then [0, 0, 0, 0x80] else [0, 0, 0, 0]
  {
  }

  /** binary64 1.0 (3F F0 00 00 00 00 00 00) decodes to binary32 1.0
      (3F 80 00 00), whose least significant byte comes first. */
  lemma OneDecodesToOne(packed: seq<byte>, littleEndian: bool)
    requires 8 <= |packed|
    requires InputWord(packed, littleEndian) == 0x3FF0_0000_0000_0000
    ensures DoubleToFloatBytes(packed, littleEndian) == [0x00, 0x00, 0x80, 0x3F]
  {
  }

  /** Out of range, the exponent is neither clamped nor reported: the
      smallest positive normal binary64, 2^-1022 (00 10 00 ...), gives
      expf = -895 and decodes to binary32 4.0 (40 80 00 00); and 2^129
      (48 00 00 ...) gives expf = 256, whose ninth bit lands in the sign,
      and decodes to binary32 -0.0 (80 00 00 00). */
  lemma OutOfRangeExamples(small: seq<byte>, large: seq<byte>, littleEndian: bool)
    requires 8 <= |small| && 8 <= |large|
    requires InputWord(small, littleEndian) == 0x0010_0000_0000_0000
    requires InputWord(large, littleEndian) == 0x4800_0000_0000_0000
    ensures DoubleToFloatBytes(small, littleEndian) == [0x00, 0x00, 0x80, 0x40]
    ensures DoubleToFloatBytes(large, littleEndian) == [0x00, 0x00, 0x00, 0x80]
  {
  }
}
