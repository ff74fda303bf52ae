// Bytes, byte strings and the fixed-width integers that the master writes to disk.

module Bytes {

  type byte = bv8

  /** A C++ std::string: an arbitrary sequence of bytes. */
  type str = seq<byte>

  datatype Option<+T> = None | Some(value: T)

  const U32: nat := 0x1_0000_0000
  const U64: nat := 0x1_0000_0000_0000_0000

  type u32 = n: nat | n < U32
  type u64 = n: nat | n < U64

  lemma Increment(b: byte)
    requires b != 255
    ensures (b + 1) as nat == b as nat + 1
  {}

  /** The byte with value n. */
  function ToByte(n: nat): (b: byte)
    requires n < 256
    ensures b as nat == n
  {
    if n == 0 then 0
    else
      Increment(ToByte(n - 1));
      ToByte(n - 1) + 1
  }

  /** 256 to the power `width`: the number of values of a `width`-byte integer. */
  function Values(width: nat): (n: nat)
    ensures n > 0
  {
    if width == 0 then 1 else 256 * Values(width - 1)
  }

  /** The `width` low-order bytes of n, least significant first. */
  function Encode(n: nat, width: nat): (s: str)
    ensures |s| == width
  {
    if width == 0 then [] else [ToByte(n % 256)] + Encode(n / 256, width - 1)
  }

  function Decode(s: str): (n: nat)
    ensures n < Values(|s|)
  {
    if s == [] then 0 else s[0] as nat + 256 * Decode(s[1..])
  }

  lemma WordSizes()
    ensures Values(4) == U32 && Values(8) == U64
  {
    assert Values(2) == 256 * Values(1) && Values(1) == 256 * Values(0);
    assert Values(4) == 256 * Values(3) && Values(3) == 256 * Values(2);
    assert Values(6) == 256 * Values(5) && Values(5) == 256 * Values(4);
    assert Values(8) == 256 * Values(7) && Values(7) == 256 * Values(6);
  }

  /** Reading back a written integer gives the integer, if it fits the width. */
  lemma {:induction false} DecodeEncode(n: nat, width: nat)
    requires n < Values(width)
    ensures Decode(Encode(n, width)) == n
  {
    if width > 0 {
      var s := Encode(n, width);
      assert s[1..] == Encode(n / 256, width - 1);
      DecodeEncode(n / 256, width - 1);
    }
  }

  lemma LowestByte(low: nat, high: nat)
    requires low < 256
    ensures (low + 256 * high) % 256 == low && (low + 256 * high) / 256 == high
  {}

  lemma SameByte(b: byte, c: byte)
    requires b as nat == c as nat
    ensures b == c
  {}

  /** Writing back a read integer gives the bytes that were read. */
  lemma {:induction false} EncodeDecode(s: str)
    ensures Encode(Decode(s), |s|) == s
  {
    if s != [] {
      hide ToByte;
      EncodeDecode(s[1..]);
      LowestByte(s[0] as nat, Decode(s[1..]));
      SameByte(ToByte(s[0] as nat), s[0]);
      assert s == [s[0]] + s[1..];
    }
  }

  /** A string that starts with the bytes of an integer yields that integer and the rest. */
  lemma DecodePrefix(n: nat, width: nat, rest: str)
    requires n < Values(width)
    ensures Decode((Encode(n, width) + rest)[..width]) == n
    ensures (Encode(n, width) + rest)[width..] == rest
  {
    DecodeEncode(n, width);
    assert (Encode(n, width) + rest)[..width] == Encode(n, width);
  }
}
