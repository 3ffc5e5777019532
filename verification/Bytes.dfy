/** Bytes, machine words and their representation in memory.

    Lengths and sizes are mathematical integers in this project; bytes are bit
    vectors. This module holds the conversions between the two and network byte
    order, both as the positional number it denotes and as the shifts and masks
    of socket/ws/util.c.
 */
module Bytes {

  type byte = bv8

  const UINT16_MAX := 0xFFFF
  const UINT32_MAX := 0xFFFF_FFFF
  const UINT64_RANGE := 0x1_0000_0000_0000_0000
  const SSIZE_MAX := 0x7FFF_FFFF_FFFF_FFFF

  /** 256 to the power k: the number of values that k bytes can hold. */
  function Range(k: nat): (r: nat)
    ensures r > 0
  {
    if k == 0 then 1 else 256 * Range(k - 1)
  }

  /** The byte whose value is n. */
  function U8(n: nat): (b: byte)
    requires n < 256
    ensures b as int == n
  {
    assert LowBits(n, 8) as int == n;
    var b: byte :| b as int == n;
    b
  }

  /** The byte whose k low bits hold n. */
  function LowBits(n: nat, k: nat): (b: byte)
    requires k <= 8 && n < Power2(k)
    ensures b as int == n
  {
    if k == 0 then 0
    else
      var b := LowBits(n / 2, k - 1);
      Power2Bound(k - 1);
      ShiftInBit(b, if n % 2 == 1 then 1 else 0);
      (b << 1) | if n % 2 == 1 then 1 else 0
  }

  function Power2(k: nat): (r: nat)
    ensures r > 0
  {
    if k == 0 then 1 else 2 * Power2(k - 1)
  }

  lemma Power2Bound(k: nat)
    requires k < 8
    ensures Power2(k) <= 128
    decreases 8 - k
  {
    if k < 7 {
      Power2Bound(k + 1);
    } else {
      assert Power2(7) == 8 * Power2(4);
    }
  }

  lemma ShiftInBit(b: byte, bit: byte)
    requires b as int < 128 && bit <= 1
    ensures ((b << 1) | bit) as int == b as int * 2 + bit as int
  {
  }

  lemma ByteBound(b: byte)
    ensures 0 <= b as int < 256
  {
  }

  lemma ByteInjective(a: byte, b: byte)
    requires a as int == b as int
    ensures a == b
  {
  }

  // ----- network byte order as a number -----

  /** The number that a big-endian byte string denotes. */
  function FromBigEndian(s: seq<byte>): (n: nat)
    ensures n < Range(|s|)
  {
    if s == [] then 0
    else
      ByteBound(s[|s| - 1]);
      FromBigEndian(s[..|s| - 1]) * 256 + s[|s| - 1] as int
  }

  /** The k-byte big-endian representation of n, most significant byte first. */
  function BigEndian(n: nat, k: nat): (s: seq<byte>)
    requires n < Range(k)
    ensures |s| == k
  {
    if k == 0 then [] else BigEndian(n / 256, k - 1) + [U8(n % 256)]
  }

  lemma {:induction false} BigEndianRoundTrip(n: nat, k: nat)
    requires n < Range(k)
    ensures FromBigEndian(BigEndian(n, k)) == n
  {
    if k == 0 {
    } else {
      var s := BigEndian(n, k);
      assert s[..|s| - 1] == BigEndian(n / 256, k - 1);
      BigEndianRoundTrip(n / 256, k - 1);
    }
  }

  lemma LargestByte()
    ensures (0xFF as byte) as int == 255
  {
  }

  /** The largest number of k bytes. */
  lemma {:induction false} AllOnes(s: seq<byte>)
    requires forall b <- s :: b == 0xFF
    ensures FromBigEndian(s) == Range(|s|) - 1
  {
    if s == [] {
    } else {
      var front, last := s[..|s| - 1], s[|s| - 1];
      assert last in s && forall b <- front :: b in s;
      AllOnes(front);
      LargestByte();
    }
  }

  lemma {:induction false} FromBigEndianInjective(s: seq<byte>, t: seq<byte>)
    requires |s| == |t| && FromBigEndian(s) == FromBigEndian(t)
    ensures s == t
  {
    if s == [] {
    } else {
      var last := |s| - 1;
      ByteBound(s[last]);
      ByteBound(t[last]);
      ByteInjective(s[last], t[last]);
      FromBigEndianInjective(s[..last], t[..last]);
      assert s == s[..last] + [s[last]] && t == t[..last] + [t[last]];
    }
  }

  // ----- machine words -----

  lemma ShiftIn16(hi: byte, lo: byte)
    ensures (((hi as bv16) << 8) | lo as bv16) as int == hi as int * 256 + lo as int
  {
  }

  lemma ShiftIn64(x: bv64, b: byte)
    requires x as int < 0x100_0000_0000_0000
    ensures ((x << 8) | b as bv64) as int == x as int * 256 + b as int
  {
  }

  /** The 16-bit word whose value is n. */
  function U16(n: nat): (x: bv16)
    requires n <= UINT16_MAX
    ensures x as int == n
  {
    var hi, lo := U8(n / 256), U8(n % 256);
    ShiftIn16(hi, lo);
    (hi as bv16 << 8) | lo as bv16
  }

  /** The 64-bit word built from the k low bytes of n. */
  function Word64(n: nat, k: nat): (x: bv64)
    requires k <= 8 && n < Range(k)
    ensures x as int == n
  {
    if k == 0 then 0
    else
      var hi, lo := Word64(n / 256, k - 1), U8(n % 256);
      Range7(k - 1);
      ShiftIn64(hi, lo);
      (hi << 8) | lo as bv64
  }

  lemma Range7(k: nat)
    requires k < 8
    ensures Range(k) <= 0x100_0000_0000_0000
    decreases 8 - k
  {
    if k < 7 {
      Range7(k + 1);
    } else {
      assert Range(7) == 256 * 256 * Range(5);
      assert Range(5) == 256 * 256 * Range(3);
    }
  }
}
