# struct: packing scalars into byte buffers

A Dafny model of the `Struct` library, a small C++ library for embedded
targets that converts fixed-width scalars to and from byte buffers in either
byte order. It has two parts:

- The generic templates `unpack<T>` and `pack<T>`. A value of type `T` is
  represented by its native byte sequence. That sequence is little-endian on
  the library's targets and has length `sizeof(T)`. `unpack` reads the first
  `sizeof(T)` bytes of a buffer, either as they are or reversed. `pack` writes
  the value's bytes into a buffer, either as they are or reversed. The two
  loops of `pack` and the big-endian loop of `unpack` walk the bytes with a
  `uint8_t` counter. A width above 255 would make that counter wrap and the
  loop never end, so width ≤ 255 is part of the contract of every loop. As
  in the source, `littleEndian` defaults to `true`.
- The AVR specialisation `unpack<double>`. On AVR a `double` is only four
  bytes wide. This specialisation takes an eight-byte IEEE 754 binary64
  pattern and builds the four bytes of a binary32 pattern with integer
  shifts and masks. It re-biases the exponent and truncates the fraction.
  The model stops at those four bytes (`fn.b[0..3]`).

Files:

- `bytes.dfy` (module `Bytes`): bytes as `bv8`, reversal, the little- and
  big-endian value of a byte sequence, and 32/64-bit words built from bytes.
- `struct.dfy` (module `Struct`): the generic `unpack` and `pack`, as array
  methods and as pure functions on sequences, with their properties.
- `ieee754.dfy` (module `Ieee754`): the binary32 and binary64 field layouts
  of section 3.4 of IEEE 754-2008, on `bv32` and `bv64` words.
- `double_unpack.dfy` (module `DoubleUnpack`): `unpack<double>`, a reference
  definition of what it computes, and the theorems connecting the two.

Integer conventions follow the C source:

- `uint8_t` is `bv8`.
- The `int16_t` intermediates `expd` and `expf` are 16-bit two's complement
  words (`bv16`).
- `expf >> 1` is an arithmetic shift that keeps the sign bit.
- A store into a `uint8_t` keeps the low 8 bits.
- The `uint8_t` loop counter increments modulo 256.

## Model

| member | source | states |
|---|---|---|
| Bytes.Reverse | struct.h:34-37 | byte `i` of the reversed sequence is byte `n-1-i` of the input, and the length is kept |
| Bytes.LeValueOfReverse | struct.h:34-38 | reading reversed bytes as a little-endian number gives the original bytes read as a big-endian number |
| Struct.Unpacked | struct.h:29-40 | the little-endian result is exactly the first `width` bytes of the buffer, unreordered; byte `i` of the big-endian result is `packed[width-1-i]` |
| Struct.Unpack | struct.h:29-40 | the array method returns the `width` bytes described above and only reads the buffer; only the big-endian branch, which has the `uint8_t` loop, needs `width <= 255` |
| Struct.Packed | struct.h:68-79 | after packing, byte `i < n` of the buffer is `value[i]` (little-endian) or `value[n-1-i]` (big-endian), and every byte from `n` on is unchanged |
| Struct.Pack | struct.h:68-79 | the array method leaves the buffer equal to `Packed` of the value and the buffer's old contents; both `uint8_t` loops need `n <= 255` |
| Struct.UnpackReadsOnlyWidth | struct.h:30-39 | two buffers that agree on their first `width` bytes unpack to the same value |
| Struct.RoundTrip | struct.h:29-79 | unpacking what was packed, with the same byte order, gives the value back, whatever the buffer held before |
| Struct.PackSymmetry | struct.h:70-78 | the big-endian packed bytes are the little-endian packed bytes reversed |
| Struct.UnpackValue | struct.h:33-38 | the big-endian branch, read as the host's little-endian number, is the buffer read as a big-endian number |
| Struct.PackValue | struct.h:74-78 | the big-endian packed bytes, read as a big-endian number, are the number the value holds |
| Struct.PackUint32Example | struct.h:68-79 | 0x01020304 packs to 04 03 02 01 with the default little-endian order and to 01 02 03 04 big-endian |
| Struct.UnpackInt16Example | struct.h:29-40 | the buffer FF 00 unpacks to 0x00FF with the default little-endian order and to 0xFF00 big-endian |
| Ieee754.Binary32Word | struct.cpp:15-18 | a binary32 pattern assembled from a sign, an 8-bit exponent and a 23-bit fraction reads back those three fields |
| Ieee754.FieldsDetermineWord | struct.cpp:15-18 | two binary32 patterns with the same sign, exponent and fraction fields are equal |
| DoubleUnpack.ExponentField | struct.cpp:13 | `expd` is an 11-bit value, below 2048 |
| DoubleUnpack.Binary64ExponentOfBytes | struct.cpp:13 | `expd` is exactly the binary64 exponent field of the eight bytes |
| DoubleUnpack.Rebias | struct.cpp:14 | `expf` is 0 when `expd` is 0; otherwise `expf + 896 == expd` in 16-bit arithmetic, and `expf` is negative exactly when `expd < 896` |
| DoubleUnpack.ShiftRight1 | struct.cpp:15 | `expf >> 1` shifted back left, with the dropped low bit restored, is `expf`; its sign bit is that of `expf` |
| DoubleUnpack.FloatSignOfBytes | struct.cpp:15 | the top bit of `fn.b[3]` is the input sign bit plus the ninth bit of `expf` |
| DoubleUnpack.FloatExponentOfBytes | struct.cpp:15-16 | the binary32 exponent field built from `fn.b[3]` and `fn.b[2]` is `expf` modulo 256 |
| DoubleUnpack.FloatFractionOfBytes | struct.cpp:16-18 | the binary32 fraction field consists of the low nibble of byte 6, bytes 5 and 4, and the top 3 bits of byte 3 |
| DoubleUnpack.Binary64FractionOfBytes | struct.cpp:16-18 | the top 23 bits of the binary64 fraction are those same bits |
| DoubleUnpack.Low8 | struct.cpp:15-18 | a store into a `uint8_t` keeps the value modulo 256 |
| DoubleUnpack.SignExponentByte | struct.cpp:15 | the top bit of `fn.b[3]` is the sign bit exclusive-or bit 8 of `expf`; its low 7 bits are bits 1 to 7 of `expf` |
| DoubleUnpack.ExponentFractionByte | struct.cpp:16 | the top bit of `fn.b[2]` is bit 0 of `expf`, the next four are the low nibble of `packed[6]` (big-endian `packed[1]`), and the low three are the top three bits of `packed[5]` (big-endian `packed[2]`) |
| DoubleUnpack.FractionByte | struct.cpp:17-18 | the top five bits of `fn.b[1]` and `fn.b[0]` are the low five bits of the first byte given, and the low three bits are the top three bits of the second |
| DoubleUnpack.FloatBytes | struct.cpp:13-18 | the shared byte computation yields four bytes |
| DoubleUnpack.FloatBytesFields | struct.cpp:13-18 | from the five top bytes, the four bytes are the `Narrowed` pattern of the eight-byte binary64 word |
| DoubleUnpack.DoubleToFloatBytes | struct.cpp:6-28 | `unpack<double>` up to `fn.b[0..3]` yields four bytes; for either byte order, read as a binary32 word, they have the binary64 fraction truncated to 23 bits without rounding, the re-biased exponent modulo 256, and as sign the input sign plus the re-biased exponent's ninth bit (the `Narrowed` relation) |
| DoubleUnpack.NarrowedIsUnique | struct.cpp:12-25 | those three field relations fix the binary32 pattern |
| DoubleUnpack.NarrowWordFields | struct.cpp:14-18 | the one-expression reference `NarrowWord` (sign shifted to bit 31, plus exponent shifted to bit 23, plus the fraction's top 23 bits) satisfies the same relations |
| DoubleUnpack.DecodeIsNarrowWord | struct.cpp:12-25 | for either byte order, the four bytes read as a binary32 word are `NarrowWord` of the binary64 word in the buffer |
| DoubleUnpack.ExponentInRange | struct.cpp:14 | `expf` fits the 8-bit field exactly when `expd` is 0 or between 896 and 1151 |
| DoubleUnpack.NarrowWordInRange | struct.cpp:14-16 | when the exponent fits, no carry reaches the sign bit; the result is the binary32 pattern with the input sign, `expf` and the truncated fraction |
| DoubleUnpack.InRangeDecode | struct.cpp:12-25 | when the exponent fits, `unpack<double>` produces exactly that binary32 pattern |
| DoubleUnpack.LittleEndianReads | struct.cpp:13-18 | the little-endian branch depends only on `packed[3..8]` |
| DoubleUnpack.BigEndianReads | struct.cpp:20-25 | the big-endian branch depends only on `packed[0..5]` |
| DoubleUnpack.BigEndianIsReversedLittle | struct.cpp:12-25 | decoding a buffer big-endian is decoding its first eight bytes reversed little-endian, and both read the same binary64 word |
| DoubleUnpack.InputWordIsUnpacked | struct.cpp:12-26 | the word decoded is the one the generic `unpack` of an 8-byte integer reads in the same byte order |
| DoubleUnpack.ZeroDecodesToZero | struct.cpp:14-18 | binary64 +0 and -0 decode to binary32 +0 and -0, through the `expd == 0` case |
| DoubleUnpack.OneDecodesToOne | struct.cpp:20-25 | binary64 1.0 (3F F0 00 ...) decodes to the bytes 00 00 80 3F of binary32 1.0 in either byte order |
| DoubleUnpack.OutOfRangeExamples | struct.cpp:14-15 | out-of-range exponents are neither clamped nor reported: 2^-1022 decodes to binary32 4.0, and 2^129 decodes to -0.0 |

## Left out

- The final `return fn.f` is left out (struct.cpp:8-11, 27): the union reinterprets the bytes as a `float`, which is then widened. That is floating-point value semantics, so the model stops at the four bytes.
- `reinterpret_cast` type punning, alignment and host byte order are left out (struct.h:32, 38, 72, 76). `T` is modelled as its native little-endian byte sequence, and `unpack` returns that sequence rather than a `T`.
- The Arduino/WProgram includes and the `#ifdef ARDUINO` selection of the `double` specialisation are left out, because they are build plumbing.
- The commented-out `pack<double>` declaration is left out, because it is not code.
- Struct.Pack: the value and the buffer are assumed not to overlap. The source takes two raw pointers (struct.h:69), and an in-place big-endian pack such as `pack(&x, (uint8_t*)&x, false)` does not reverse: its loop (struct.h:75-76) reads bytes it has already overwritten, so `01 02` becomes `02 02`. `Struct.RoundTrip` and `Struct.PackSymmetry` hold only for a value held apart from the buffer.
- Buffers shorter than `sizeof(T)` are undefined behaviour in the source, which does no check. They appear only as preconditions.
