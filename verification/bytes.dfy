/** Bytes, byte sequences and the two ways of reading a byte sequence as an
    unsigned number. A value of a fixed-width scalar type is represented by
    its native in-memory byte sequence, which on the targets of this library
    is little-endian: byte 0 is the least significant. */
module Bytes {

  /** An 8-bit unsigned value, the element type of every buffer (C `uint8_t`);
      its arithmetic wraps modulo 256 as C's does on storing into a byte. */
  type byte = bv8

  /** The bytes of `s` in the opposite order: the last byte comes first. */
  function Reverse(s: seq<byte>): (r: seq<byte>)
    ensures |r| == |s|
    ensures forall i :: 0 <= i < |s| ==> r[i] == s[|s| - 1 - i]
    decreases |s|
  {
    if |s| == 0 then [] else [s[|s| - 1]] + Reverse(s[..|s| - 1])
  }

  /** The number whose little-endian representation is `s`. */
  function LeValue(s: seq<byte>): nat
    decreases |s|
  {
    if |s| == 0 then 0 else s[0] as int + 256 * LeValue(s[1..])
  }

  /** The number whose big-endian representation is `s`. */
  function BeValue(s: seq<byte>): nat
    decreases |s|
  {
    if |s| == 0 then 0 else BeValue(s[..|s| - 1]) * 256 + s[|s| - 1] as int
  }

  /** Reversing twice gives back the original sequence. */
  lemma ReverseReverse(s: seq<byte>)
    ensures Reverse(Reverse(s)) == s
  {
  }

  /** Reading the reversed bytes little-endian is reading the bytes big-endian. */
  lemma {:induction false} LeValueOfReverse(s: seq<byte>)
    ensures LeValue(Reverse(s)) == BeValue(s)
    decreases |s|
  {
    if |s| > 0 {
      var init := s[..|s| - 1];
      assert Reverse(s)[1..] == Reverse(init);
      LeValueOfReverse(init);
    }
  }

  /** The little-endian value of a 4-byte sequence, byte by byte. */
  lemma LeValueOfFour(s: seq<byte>)
    requires |s| == 4
    ensures LeValue(s) == (s[0] as int) + 0x100 * (s[1] as int) + 0x1_0000 * (s[2] as int) + 0x100_0000 * (s[3] as int)
  {
    assert LeValue(s[3..]) == s[3] as int by { assert s[3..][1..] == []; }
    assert LeValue(s[2..]) == s[2] as int + 256 * LeValue(s[3..]) by { assert s[2..][1..] == s[3..]; }
    assert LeValue(s[1..]) == s[1] as int + 256 * LeValue(s[2..]) by { assert s[1..][1..] == s[2..]; }
  }

  /** The 64-bit word whose bytes, most significant first, are `b7` to `b0`. */
  function Word64(b7: byte, b6: byte, b5: byte, b4: byte, b3: byte, b2: byte, b1: byte, b0: byte): bv64
  {
    (b7 as bv64 << 56) | (b6 as bv64 << 48) | (b5 as bv64 << 40) | (b4 as bv64 << 32)
    | (b3 as bv64 << 24) | (b2 as bv64 << 16) | (b1 as bv64 << 8) | b0 as bv64
  }

  /** The 32-bit word whose bytes, most significant first, are `b3` to `b0`. */
  function Word32(b3: byte, b2: byte, b1: byte, b0: byte): bv32
  {
    (b3 as bv32 << 24) | (b2 as bv32 << 16) | (b1 as bv32 << 8) | b0 as bv32
  }

  /** The 64-bit word whose bytes, least significant first, are `s`. */
  function LeWord64(s: seq<byte>): bv64
    requires |s| == 8
  {
    Word64(s[7], s[6], s[5], s[4], s[3], s[2], s[1], s[0])
  }
}
