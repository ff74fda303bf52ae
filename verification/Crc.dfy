// CRC-32, as the chunkserver and the master compute it: a shift register fed bit by bit with the bytes.

module Crc {
  // Section 8 of RFC 1952.  The register update is linear over XOR and injective, which is all that the
  // error-detection results below rest on; CrcPolynomial.dfy says what it computes.

  import opened Bytes

  const POLYNOMIAL: bv32 := 0xEDB8_8320
  const ONES: bv32 := 0xFFFF_FFFF

  function Shift(c: bv32): bv32 {
    if c & 1 != 0 then (c >> 1) ^ POLYNOMIAL else c >> 1
  }

  function Shift8(c: bv32): bv32 {
    Shift(Shift(Shift(Shift(Shift(Shift(Shift(Shift(c))))))))
  }

  function Feed(c: bv32, b: byte): bv32 {
    Shift8(c ^ (b as bv32))
  }

  /** The register after feeding all of s, starting from c. */
  function Register(c: bv32, s: str): bv32 {
    if s == [] then c else Feed(Register(c, s[..|s| - 1]), s[|s| - 1])
  }

  function Checksum(s: str): bv32 {
    Register(ONES, s) ^ ONES
  }

  /** The register loop, bit by bit. */
  method ComputeCRC32(data: str) returns (crc: bv32)
    ensures crc == Checksum(data)
  {
    crc := ONES;
    for i := 0 to |data|
      invariant crc == Register(ONES, data[..i])
    {
      ghost var before := crc;
      crc := crc ^ (data[i] as bv32);
      for bit := 0 to 8
        invariant Shifts(before ^ (data[i] as bv32), bit) == crc
      {
        if crc & 1 != 0 {
          crc := (crc >> 1) ^ POLYNOMIAL;
        } else {
          crc := crc >> 1;
        }
      }
      Shifts8(before ^ (data[i] as bv32));
      assert data[..i + 1][..i] == data[..i];
    }
    assert data[..|data|] == data;
    return crc ^ ONES;
  }

  // ----- linearity and injectivity of the register -----

  function Xor(a: bv32, b: bv32): bv32 {
    a ^ b
  }

  lemma XorAssociative(a: bv32, b: bv32, c: bv32)
    ensures Xor(Xor(a, b), c) == Xor(a, Xor(b, c))
  {}

  lemma XorCommutative(a: bv32, b: bv32)
    ensures Xor(a, b) == Xor(b, a)
  {}

  lemma XorZero(a: bv32)
    ensures Xor(a, 0) == a
  {}

  lemma XorCancels(a: bv32, b: bv32)
    ensures Xor(a, b) == 0 <==> a == b
  {}

  /** The group laws of XOR at three values. */
  lemma XorGroup(a: bv32, b: bv32, c: bv32)
    ensures Xor(Xor(a, b), c) == Xor(a, Xor(b, c))
    ensures Xor(a, b) == Xor(b, a)
    ensures Xor(a, 0) == a
    ensures Xor(a, b) == 0 <==> a == b
  {
    hide Xor;
    XorAssociative(a, b, c);
    XorCommutative(a, b);
    XorZero(a);
    XorCancels(a, b);
  }

  lemma XorSwap(a: bv32, x: bv32, b: bv32, y: bv32)
    ensures Xor(Xor(a, x), Xor(b, y)) == Xor(Xor(a, b), Xor(x, y))
  {
    hide Xor;
    XorGroup(a, x, Xor(b, y));
    XorGroup(x, b, y);
    XorGroup(b, x, y);
    XorGroup(a, b, Xor(x, y));
  }

  function Shifts(c: bv32, n: nat): bv32 {
    if n == 0 then c else Shift(Shifts(c, n - 1))
  }

  lemma Shifts8(c: bv32)
    ensures Shifts(c, 8) == Shift8(c)
  {
    hide Shift;
    assert Shifts(c, 1) == Shift(Shifts(c, 0));
    assert Shifts(c, 2) == Shift(Shifts(c, 1));
    assert Shifts(c, 3) == Shift(Shifts(c, 2));
    assert Shifts(c, 4) == Shift(Shifts(c, 3));
    assert Shifts(c, 5) == Shift(Shifts(c, 4));
    assert Shifts(c, 6) == Shift(Shifts(c, 5));
    assert Shifts(c, 7) == Shift(Shifts(c, 6));
  }

  lemma ShiftEvenEven(a: bv32, b: bv32)
    requires a & 1 == 0 && b & 1 == 0
    ensures (a ^ b) & 1 == 0 && (a ^ b) >> 1 == (a >> 1) ^ (b >> 1)
  {}

  lemma ShiftEvenOdd(a: bv32, b: bv32)
    requires a & 1 == 0 && b & 1 != 0
    ensures (a ^ b) & 1 != 0 && ((a ^ b) >> 1) ^ POLYNOMIAL == (a >> 1) ^ ((b >> 1) ^ POLYNOMIAL)
  {}

  lemma ShiftOddOdd(a: bv32, b: bv32)
    requires a & 1 != 0 && b & 1 != 0
    ensures (a ^ b) & 1 == 0 && (a ^ b) >> 1 == ((a >> 1) ^ POLYNOMIAL) ^ ((b >> 1) ^ POLYNOMIAL)
  {}

  lemma ShiftDefinition(c: bv32)
    ensures c & 1 == 0 ==> Shift(c) == c >> 1
    ensures c & 1 != 0 ==> Shift(c) == (c >> 1) ^ POLYNOMIAL
  {}

  lemma ShiftLinearWhenEven(a: bv32, b: bv32)
    requires a & 1 == 0
    ensures Shift(Xor(a, b)) == Xor(Shift(a), Shift(b))
  {
    hide Shift;
    ShiftDefinition(a);
    ShiftDefinition(b);
    ShiftDefinition(a ^ b);
    if b & 1 == 0 {
      ShiftEvenEven(a, b);
    } else {
      ShiftEvenOdd(a, b);
    }
  }

  lemma ShiftLinearWhenOdd(a: bv32, b: bv32)
    requires a & 1 != 0 && b & 1 != 0
    ensures Shift(Xor(a, b)) == Xor(Shift(a), Shift(b))
  {
    hide Shift;
    ShiftDefinition(a);
    ShiftDefinition(b);
    ShiftDefinition(a ^ b);
    ShiftOddOdd(a, b);
  }

  lemma ShiftLinear(a: bv32, b: bv32)
    ensures Shift(Xor(a, b)) == Xor(Shift(a), Shift(b))
  {
    hide Shift, Xor;
    if a & 1 == 0 {
      ShiftLinearWhenEven(a, b);
    } else if b & 1 == 0 {
      ShiftLinearWhenEven(b, a);
      XorGroup(a, b, 0);
      XorGroup(Shift(a), Shift(b), 0);
    } else {
      ShiftLinearWhenOdd(a, b);
    }
  }

  lemma ShiftInjective(a: bv32)
    ensures Shift(a) == 0 ==> a == 0
  {}

  /** No non-zero register is a fixed point of one shift: the polynomial does not vanish at 1. */
  lemma ShiftHasNoFixedPoint(a: bv32)
    ensures Shift(a) == a ==> a == 0
  {}

  lemma {:induction false} ShiftsLinear(a: bv32, b: bv32, n: nat)
    ensures Shifts(Xor(a, b), n) == Xor(Shifts(a, n), Shifts(b, n))
  {
    hide Shift, Xor;
    if n > 0 {
      ShiftsLinear(a, b, n - 1);
      ShiftLinear(Shifts(a, n - 1), Shifts(b, n - 1));
    }
  }

  lemma {:induction false} ShiftsInjective(a: bv32, n: nat)
    ensures Shifts(a, n) == 0 ==> a == 0
  {
    hide Shift;
    if n > 0 {
      ShiftInjective(Shifts(a, n - 1));
      ShiftsInjective(a, n - 1);
    }
  }

  lemma {:induction false} ShiftsOfZero(n: nat)
    ensures Shifts(0, n) == 0
  {
    if n > 0 {
      ShiftsOfZero(n - 1);
    }
  }

  lemma {:induction false} ShiftsAdd(c: bv32, m: nat, n: nat)
    ensures Shifts(Shifts(c, m), n) == Shifts(c, m + n)
  {
    hide Shift;
    if n > 0 {
      ShiftsAdd(c, m, n - 1);
    }
  }

  lemma Shift8Linear(a: bv32, b: bv32)
    ensures Shift8(Xor(a, b)) == Xor(Shift8(a), Shift8(b))
  {
    hide Shift8, Shift, Xor;
    Shifts8(a);
    Shifts8(b);
    Shifts8(Xor(a, b));
    ShiftsLinear(a, b, 8);
  }

  lemma Shift8Zero(c: bv32)
    ensures Shift8(c) == 0 <==> c == 0
  {
    if c == 0 {
    } else {
      hide Shift8, Shift;
      Shifts8(c);
      ShiftsInjective(c, 8);
    }
  }

  function Delta(x: byte, y: byte): bv32 {
    Xor(x as bv32, y as bv32)
  }

  lemma DeltaByte(x: byte, y: byte)
    ensures Delta(x, y) < 256
    ensures Delta(x, y) == 0 <==> x == y
  {}

  lemma FeedIsXorThenShift(c: bv32, b: byte)
    ensures Feed(c, b) == Shift8(Xor(c, b as bv32))
  {}

  /** Feeding two bytes into two registers: how the difference of the registers evolves. */
  lemma FeedDifference(c: bv32, d: bv32, x: byte, y: byte)
    ensures Xor(Feed(c, x), Feed(d, y)) == Shift8(Xor(Xor(c, d), Delta(x, y)))
  {
    hide Xor, Shift8, Feed;
    FeedIsXorThenShift(c, x);
    FeedIsXorThenShift(d, y);
    Shift8Linear(Xor(c, x as bv32), Xor(d, y as bv32));
    XorSwap(c, x as bv32, d, y as bv32);
  }

  /** Feeding the same byte keeps two registers apart, and keeps two equal registers equal. */
  lemma SameByteKeepsDifference(c: bv32, d: bv32, x: byte)
    ensures Feed(c, x) == Feed(d, x) <==> c == d
  {
    hide Xor, Shift8, Feed, Delta;
    FeedDifference(c, d, x, x);
    DeltaByte(x, x);
    XorGroup(Xor(c, d), 0, 0);
    XorGroup(c, d, 0);
    XorGroup(Feed(c, x), Feed(d, x), 0);
    Shift8Zero(Xor(c, d));
  }

  lemma {:induction false} RegisterConcat(c: bv32, s: str, t: str)
    ensures Register(c, s + t) == Register(Register(c, s), t)
  {
    hide Feed;
    if t == [] {
      assert s + t == s;
    } else {
      var u := s + t;
      assert u[..|u| - 1] == s + t[..|t| - 1];
      RegisterConcat(c, s, t[..|t| - 1]);
    }
  }

  lemma {:induction false} SameSuffixKeepsDifference(c: bv32, d: bv32, t: str)
    ensures Register(c, t) == Register(d, t) <==> c == d
  {
    hide Feed;
    if t != [] {
      SameSuffixKeepsDifference(c, d, t[..|t| - 1]);
      SameByteKeepsDifference(Register(c, t[..|t| - 1]), Register(d, t[..|t| - 1]), t[|t| - 1]);
    }
  }

  // ----- detection of a burst of at most 32 bits -----

  function Up(v: bv32): bv32 {
    v << 8
  }

  lemma ShiftUp(v: bv32)
    requires v < 0x100_0000
    ensures Shift8(Up(v)) == v
  {}

  /** Moving one more byte of difference in: a difference of k bytes is a k-byte number pushed
      through the register in one go. */
  lemma PushByte(acc: bv32, x: bv32)
    requires x < 0x100_0000
    ensures Xor(Shift8(acc), x) == Shift8(Xor(acc, Up(x)))
  {
    hide Shift8, Xor, Up;
    Shift8Linear(acc, Up(x));
    ShiftUp(x);
  }

  lemma FourByteNumber(d0: bv32, d1: bv32, d2: bv32, d3: bv32)
    requires d0 < 256 && d1 < 256 && d2 < 256 && d3 < 256
    requires Xor(Xor(Xor(d0, Up(d1)), Up(Up(d2))), Up(Up(Up(d3)))) == 0
    ensures d0 == 0 && d1 == 0 && d2 == 0 && d3 == 0
  {}

  lemma UpTwice(x: bv32)
    requires x < 256
    ensures Up(x) < 0x100_0000 && Up(Up(x)) < 0x100_0000
  {}

  lemma OneMoreByte(c: bv32, s: str, t: str, i: nat)
    requires i < |s| == |t|
    ensures Xor(Register(c, s[..i + 1]), Register(c, t[..i + 1]))
         == Carry(Xor(Register(c, s[..i]), Register(c, t[..i])), Delta(s[i], t[i]))
  {
    hide Xor, Shift8, Feed;
    assert s[..i + 1][..i] == s[..i] && t[..i + 1][..i] == t[..i];
    FeedDifference(Register(c, s[..i]), Register(c, t[..i]), s[i], t[i]);
  }

  lemma RegisterOfNothing(c: bv32, s: str)
    ensures Register(c, s[..0]) == c
  {}

  /** The difference of two registers, one byte later. */
  function Carry(difference: bv32, delta: bv32): bv32 {
    Shift8(Xor(difference, delta))
  }

  lemma FourBytesDifference(c: bv32, s: str, t: str)
    requires |s| == |t| == 4
    ensures Xor(Register(c, s), Register(c, t))
         == Carry(Carry(Carry(Carry(0, Delta(s[0], t[0])), Delta(s[1], t[1])), Delta(s[2], t[2])), Delta(s[3], t[3]))
  {
    hide *;
    RegisterOfNothing(c, s);
    RegisterOfNothing(c, t);
    XorGroup(c, c, 0);
    OneMoreByte(c, s, t, 0);
    OneMoreByte(c, s, t, 1);
    OneMoreByte(c, s, t, 2);
    OneMoreByte(c, s, t, 3);
    assert s[..4] == s && t[..4] == t;
  }

  /** Four nested one-byte steps are one four-byte number pushed through the register. */
  lemma PushFourBytes(d0: bv32, d1: bv32, d2: bv32, d3: bv32)
    requires d0 < 256 && d1 < 256 && d2 < 256 && d3 < 256
    ensures Carry(Carry(Carry(Carry(0, d0), d1), d2), d3)
         == Shift8(Shift8(Shift8(Shift8(Xor(Xor(Xor(d0, Up(d1)), Up(Up(d2))), Up(Up(Up(d3))))))))
  {
    hide Xor, Shift8, Up;
    XorGroup(0, d0, 0);
    XorGroup(d0, 0, 0);
    UpTwice(d1);
    UpTwice(d2);
    UpTwice(d3);
    var n1 := Xor(d0, Up(d1));
    var n2 := Xor(n1, Up(Up(d2)));
    PushByte(d0, d1);
    PushByte(Shift8(n1), d2);
    PushByte(n1, Up(d2));
    PushByte(Shift8(Shift8(n2)), d3);
    PushByte(Shift8(n2), Up(d3));
    PushByte(n2, Up(Up(d3)));
  }

  /** Starting from one register, four bytes determine the register and are determined by it. */
  lemma FourBytesSeparate(c: bv32, s: str, t: str)
    requires |s| == |t| == 4
    requires Register(c, s) == Register(c, t)
    ensures s == t
  {
    hide Xor, Shift8, Feed, Delta, Up, Register, Carry;
    var d0, d1, d2, d3 := Delta(s[0], t[0]), Delta(s[1], t[1]), Delta(s[2], t[2]), Delta(s[3], t[3]);
    DeltaByte(s[0], t[0]);
    DeltaByte(s[1], t[1]);
    DeltaByte(s[2], t[2]);
    DeltaByte(s[3], t[3]);
    XorGroup(Register(c, s), Register(c, t), 0);
    FourBytesDifference(c, s, t);
    PushFourBytes(d0, d1, d2, d3);
    var n := Xor(Xor(Xor(d0, Up(d1)), Up(Up(d2))), Up(Up(Up(d3))));
    Shift8Zero(n);
    Shift8Zero(Shift8(n));
    Shift8Zero(Shift8(Shift8(n)));
    Shift8Zero(Shift8(Shift8(Shift8(n))));
    FourByteNumber(d0, d1, d2, d3);
  }

  /** The same for up to four bytes: shorter strings are padded with zeros. */
  lemma FewBytesSeparate(c: bv32, s: str, t: str)
    requires |s| == |t| <= 4
    requires Register(c, s) == Register(c, t)
    ensures s == t
  {
    hide Register, Zeros;
    var padding := Zeros(4 - |s|);
    RegisterConcat(c, s, padding);
    RegisterConcat(c, t, padding);
    FourBytesSeparate(c, s + padding, t + padding);
    assert s == (s + padding)[..|s|] && t == (t + padding)[..|s|];
  }

  /** Two strings of one length that differ only inside a window of at most four bytes. */
  ghost predicate DifferWithinFourBytes(s: str, t: str, at: nat, width: nat) {
    && |s| == |t|
    && s != t
    && width <= 4 && at + width <= |s|
    && s[..at] == t[..at]
    && s[at + width..] == t[at + width..]
  }

  lemma ChecksumInjective(c: bv32, d: bv32)
    ensures c ^ ONES == d ^ ONES ==> c == d
  {
    if c ^ ONES == d ^ ONES {
      assert c == (c ^ ONES) ^ ONES;
      assert d == (d ^ ONES) ^ ONES;
    }
  }

  /** CRC-32 separates any two strings, of any length, that differ only within four consecutive
      bytes. */
  lemma BurstDetected(s: str, t: str, at: nat, width: nat)
    requires DifferWithinFourBytes(s, t, at, width)
    ensures Checksum(s) != Checksum(t)
  {
    hide Feed;
    var pre, post := s[..at], s[at + width..];
    var m, n := s[at..at + width], t[at..at + width];
    assert s == pre + (m + post) && t == pre + (n + post);
    RegisterConcat(ONES, pre, m + post);
    RegisterConcat(ONES, pre, n + post);
    var c := Register(ONES, pre);
    RegisterConcat(c, m, post);
    RegisterConcat(c, n, post);
    SameSuffixKeepsDifference(Register(c, m), Register(c, n), post);
    if Register(c, m) == Register(c, n) {
      FewBytesSeparate(c, m, n);
      assert false;
    }
    ChecksumInjective(Register(ONES, s), Register(ONES, t));
  }

  /** In particular it separates any two different strings of at most four bytes. */
  lemma ShortStringsSeparate(s: str, t: str)
    requires |s| == |t| <= 4 && s != t
    ensures Checksum(s) != Checksum(t)
  {
    hide Checksum;
    BurstDetected(s, t, 0, |s|);
  }

  // ----- appending zero bytes -----

  function Zeros(n: nat): (s: str)
    ensures |s| == n
  {
    seq(n, _ => 0)
  }

  lemma {:induction false} FeedZeros(c: bv32, n: nat)
    ensures Register(c, Zeros(n)) == Shifts(c, 8 * n)
  {
    if n > 0 {
      assert Zeros(n)[..n - 1] == Zeros(n - 1);
      FeedZeros(c, n - 1);
      var r := Register(c, Zeros(n - 1));
      hide Shift, Shift8, Xor, Feed;
      FeedIsXorThenShift(r, 0);
      XorGroup(r, 0, 0);
      Shifts8(r);
      ShiftsAdd(c, 8 * (n - 1), 8);
    }
  }

  function Pow2(k: nat): (n: nat)
    ensures n > 0
  {
    if k == 0 then 1 else 2 * Pow2(k - 1)
  }

  /** Over XOR, shifting 2^k times and adding the original is the (2^k)-fold iteration of
      "shift once and add the original", which is injective; so no non-zero register survives
      2^k zero bits unchanged. */
  lemma {:induction false} NoFixedPoint(c: bv32, k: nat)
    ensures Shifts(c, Pow2(k)) == c ==> c == 0
    decreases k
  {
    hide Shift, Xor;
    if k == 0 {
      ShiftHasNoFixedPoint(c);
      assert Shifts(c, 1) == Shift(Shifts(c, 0));
    } else if Shifts(c, Pow2(k)) == c {
      var h := Pow2(k - 1);
      var once := Shifts(c, h);
      var d := Xor(once, c);
      ShiftsAdd(c, h, h);
      ShiftsLinear(once, c, h);
      XorGroup(c, once, 0);
      NoFixedPoint(d, k - 1);
      NoFixedPoint(c, k - 1);
    }
  }

  /** A block of 2^k zero bytes never has checksum 0. */
  lemma ZeroBlockChecksum(k: nat)
    ensures Checksum(Zeros(Pow2(k))) != 0
  {
    hide Shift, Feed;
    FeedZeros(ONES, Pow2(k));
    assert Pow2(k + 3) == 2 * Pow2(k + 2) && Pow2(k + 2) == 2 * Pow2(k + 1) && Pow2(k + 1) == 2 * Pow2(k);
    assert 8 * Pow2(k) == Pow2(k + 3);
    NoFixedPoint(ONES, k + 3);
    ChecksumInjective(Register(ONES, Zeros(Pow2(k))), ONES);
  }

  lemma OnesAreOwnInverse(c: bv32)
    ensures c ^ ONES == ONES <==> c == 0
  {}

  lemma ChecksumIsOnes(s: str)
    ensures Checksum(s) == ONES <==> Register(ONES, s) == 0
  {
    hide Register;
    OnesAreOwnInverse(Register(ONES, s));
  }

  lemma SameChecksum(s: str, t: str)
    ensures Checksum(s) == Checksum(t) <==> Register(ONES, s) == Register(ONES, t)
  {
    ChecksumIsInverted(s);
    ChecksumIsInverted(t);
    hide *;
    InvertedInjective(Register(ONES, s), Register(ONES, t));
  }

  function Inverted(c: bv32): bv32 {
    c ^ ONES
  }

  lemma ChecksumIsInverted(s: str)
    ensures Checksum(s) == Inverted(Register(ONES, s))
  {
    hide Register;
  }

  lemma InvertedInjective(c: bv32, d: bv32)
    ensures Inverted(c) == Inverted(d) ==> c == d
  {
    ChecksumInjective(c, d);
  }

  lemma PaddedChecksum(s: str, n: nat)
    ensures Checksum(s + Zeros(n)) == Checksum(s) <==> Shifts(Register(ONES, s), 8 * n) == Register(ONES, s)
  {
    hide *;
    SameChecksum(s + Zeros(n), s);
    RegisterConcat(ONES, s, Zeros(n));
    FeedZeros(Register(ONES, s), n);
  }

  lemma EightTimes(k: nat)
    ensures 8 * Pow2(k) == Pow2(k + 3)
  {
    assert Pow2(k + 3) == 2 * Pow2(k + 2) && Pow2(k + 2) == 2 * Pow2(k + 1) && Pow2(k + 1) == 2 * Pow2(k);
  }

  /** Zeros behind a string keep its checksum if the checksum is 0xFFFFFFFF, that is, if the register is
      0; and for 2^k zeros only then. */
  lemma PaddingUnnoticedIff(s: str, n: nat, k: nat)
    ensures Checksum(s) == ONES ==> Checksum(s + Zeros(n)) == Checksum(s)
    ensures Checksum(s + Zeros(Pow2(k))) == Checksum(s) <==> Checksum(s) == ONES
  {
    hide *;
    ChecksumIsOnes(s);
    PaddedChecksum(s, n);
    PaddedChecksum(s, Pow2(k));
    EightTimes(k);
    NoFixedPoint(Register(ONES, s), k + 3);
    ShiftsOfZero(8 * n);
    ShiftsOfZero(8 * Pow2(k));
  }
}
