/** The generic `unpack<T>` and `pack<T>` templates. A value of type `T` is
    represented by its native (little-endian) byte sequence, whose length is
    `sizeof(T)`; the caller's buffer is an array of bytes. The two loops of
    `pack` and the big-endian loop of `unpack` walk the bytes with a
    `uint8_t` counter, so a width above 255 would make the counter wrap and
    the loop never end: the width bound is part of the contract wherever
    such a loop runs. */
module Struct {
  import opened Bytes

  /** The largest width a `uint8_t` loop counter can walk to. */
  const MaxLoopWidth := 255

  /** What `unpack` returns: the first `width` bytes of the buffer, as they
      are for little-endian data and in reverse order for big-endian data.
      As in the source, the byte order defaults to little-endian. */
  function Unpacked(packed: seq<byte>, width: nat, littleEndian: bool := true): (value: seq<byte>)
    requires width <= |packed|
    ensures |value| == width
    ensures littleEndian ==> value == packed[..width]
    ensures !littleEndian ==> forall i :: 0 <= i < width ==> value[i] == packed[width - 1 - i]
  {
    if littleEndian then packed[..width] else Reverse(packed[..width])
  }

  /** The buffer after `pack`: its first `|value|` bytes are the value's
      bytes, reversed for big-endian, and every later byte is unchanged. The
      byte order defaults to little-endian. */
  function Packed(value: seq<byte>, packed: seq<byte>, littleEndian: bool := true): (r: seq<byte>)
    requires |value| <= |packed|
    ensures |r| == |packed|
    ensures r[|value|..] == packed[|value|..]
    ensures littleEndian ==> forall i :: 0 <= i < |value| ==> r[i] == value[i]
    ensures !littleEndian ==> forall i :: 0 <= i < |value| ==> r[i] == value[|value| - 1 - i]
  {
    (if littleEndian then value else Reverse(value)) + packed[|value|..]
  }

  /** `unpack<T>`: the little-endian branch reinterprets the buffer in place;
      the big-endian branch first copies the bytes backwards into a local
      buffer with a `uint8_t` counter. The caller's buffer is only read, and
      the byte order defaults to little-endian. */
  method Unpack(packed: array<byte>, width: nat, littleEndian: bool := true) returns (value: seq<byte>)
    requires width <= packed.Length
    requires !littleEndian ==> width <= MaxLoopWidth
    ensures |value| == width
    ensures littleEndian ==> value == packed[..width]
    ensures !littleEndian ==> forall i :: 0 <= i < width ==> value[i] == packed[width - 1 - i]
    ensures value == Unpacked(packed[..], width, littleEndian)
  {
    if littleEndian {
      value := packed[..width];
    } else {
      var backwards := new byte[width];
      var i := 0;
      while i < width
        invariant 0 <= i <= width
        invariant forall j :: 0 <= j < i ==> backwards[j] == packed[width - j - 1]
        decreases width - i
      {
        backwards[i] := packed[width - i - 1];
        i := (i + 1) % 0x100;  // uint8_t increment
      }
      value := backwards[..];
    }
  }

  /** `pack<T>`: copies the value's bytes into the caller's buffer with a
      `uint8_t` counter, in order for little-endian and from the last byte
      down for big-endian, little-endian by default. Bytes from index
      `|unpacked|` on are not written. */
  method Pack(unpacked: seq<byte>, packed: array<byte>, littleEndian: bool := true)
    requires |unpacked| <= packed.Length
    requires |unpacked| <= MaxLoopWidth
    modifies packed
    ensures packed[..] == Packed(unpacked, old(packed[..]), littleEndian)
  {
    var width := |unpacked|;
    if littleEndian {
      var i := 0;
      while i < width
        invariant 0 <= i <= width
        invariant forall j :: 0 <= j < i ==> packed[j] == unpacked[j]
        invariant forall j :: i <= j < packed.Length ==> packed[j] == old(packed[j])
        decreases width - i
      {
        packed[i] := unpacked[i];
        i := (i + 1) % 0x100;  // uint8_t increment
      }
    } else {
      var i := 0;
      while i < width
        invariant 0 <= i <= width
        invariant forall j :: 0 <= j < i ==> packed[j] == unpacked[width - j - 1]
        invariant forall j :: i <= j < packed.Length ==> packed[j] == old(packed[j])
        decreases width - i
      {
        packed[i] := unpacked[width - i - 1];
        i := (i + 1) % 0x100;  // uint8_t increment
      }
    }
    assert packed[..] == Packed(unpacked, old(packed[..]), littleEndian);
  }

  /** Unpacking reads nothing beyond the first `width` bytes: buffers that
      agree there unpack to the same value. */
  lemma UnpackReadsOnlyWidth(a: seq<byte>, b: seq<byte>, width: nat, littleEndian: bool)
    requires width <= |a| && width <= |b|
    requires a[..width] == b[..width]
    ensures Unpacked(a, width, littleEndian) == Unpacked(b, width, littleEndian)
  {
  }

  /** Round trip: packing a value and unpacking it with the same byte order
      gives the value back, whatever the buffer held before. */
  lemma RoundTrip(value: seq<byte>, buffer: seq<byte>, littleEndian: bool)
    requires |value| <= |buffer|
    ensures Unpacked(Packed(value, buffer, littleEndian), |value|, littleEndian) == value
  {
    var p := Packed(value, buffer, littleEndian);
    if !littleEndian {
      assert p[..|value|] == Reverse(value);
      ReverseReverse(value);
    }
  }

  /** Endianness symmetry: the big-endian packing of a value is the
      little-endian packing read backwards. */
  lemma PackSymmetry(value: seq<byte>, buffer: seq<byte>)
    requires |value| <= |buffer|
    ensures Packed(value, buffer, false)[..|value|] == Reverse(Packed(value, buffer, true)[..|value|])
  {
  }

  /** The numeric meaning of the big-endian branch of `unpack`: on a
      little-endian host, its result is the buffer read as a big-endian
      number. (The little-endian branch returns the bytes unchanged.) */
  lemma UnpackValue(packed: seq<byte>, width: nat)
    requires width <= |packed|
    ensures LeValue(Unpacked(packed, width, false)) == BeValue(packed[..width])
  {
    LeValueOfReverse(packed[..width]);
  }

  /** The numeric meaning of the big-endian branch of `pack`: the written
      bytes, read as a big-endian number, are the number the value holds on
      a little-endian host. (The little-endian branch copies the bytes
      unchanged.) */
  lemma PackValue(value: seq<byte>, buffer: seq<byte>)
    requires |value| <= |buffer|
    ensures BeValue(Packed(value, buffer, false)[..|value|]) == LeValue(value)
  {
    var big := Packed(value, buffer, false)[..|value|];
    assert big == Reverse(value);
    LeValueOfReverse(Reverse(value));
    ReverseReverse(value);
  }

  /** A 32-bit unsigned 0x01020304, held natively as 04 03 02 01, packs to
      04 03 02 01 little-endian and to 01 02 03 04 big-endian. */
  lemma PackUint32Example(buffer: seq<byte>)
    requires |buffer| == 4
    ensures LeValue([4, 3, 2, 1]) == 0x0102_0304
    ensures Packed([4, 3, 2, 1], buffer) == [4, 3, 2, 1]
    ensures Packed([4, 3, 2, 1], buffer, false) == [1, 2, 3, 4]
  {
    LeValueOfFour([4, 3, 2, 1]);
  }

  /** The 16-bit buffer FF 00 unpacks to 0x00FF little-endian and to 0xFF00
      big-endian. */
  lemma UnpackInt16Example()
    ensures LeValue(Unpacked([0xFF, 0x00], 2)) == 0x00FF
    ensures LeValue(Unpacked([0xFF, 0x00], 2, false)) == 0xFF00
  {
    var big := Unpacked([0xFF, 0x00], 2, false);
    assert big == [0x00, 0xFF];
    assert big[1..][1..] == [];
  }
}
