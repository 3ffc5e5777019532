/** The Secure Hash Algorithm SHA-1 as FIPS 180-4 defines it: padding (section 5.1.1), parsing (5.2.1), constants
    (4.2.1, 5.3.1) and the hash computation with its 80-word message schedule (6.1.2). Nothing here is taken from the
    program.
 */
module Sha1Spec {
  import opened Bytes

  type word = bv32

  /** Section 3.2: ROTL. */
  function Rotl1(x: word): word { (x << 1) | (x >> 31) }

  function Rotl5(x: word): word { (x << 5) | (x >> 27) }

  function Rotl30(x: word): word { (x << 30) | (x >> 2) }

  /** Section 3.2: addition modulo 2^32. */
  function Plus(x: word, y: word): word { x + y }

  // ----- section 4.1.1, 4.2.1 -----

  function Ch(x: word, y: word, z: word): word { (x & y) ^ (!x & z) }

  function Parity(x: word, y: word, z: word): word { x ^ y ^ z }

  function Maj(x: word, y: word, z: word): word { (x & y) ^ (x & z) ^ (y & z) }

  function F(t: nat, x: word, y: word, z: word): word {
    if t < 20 then Ch(x, y, z)
    else if t < 40 then Parity(x, y, z)
    else if t < 60 then Maj(x, y, z)
    else Parity(x, y, z)
  }

  function K(t: nat): word {
    if t < 20 then 0x5a827999 else if t < 40 then 0x6ed9eba1 else if t < 60 then 0x8f1bbcdc else 0xca62c1d6
  }

  // ----- section 6.1.2 -----

  /** The five working variables, or the five words of a hash value. */
  datatype Regs = Regs(a: word, b: word, c: word, d: word, e: word)

  type Block = m: seq<word> | |m| == 16 witness seq(16, _ => 0)

  /** The message schedule. */
  function W(m: Block, t: nat): word {
    if t < 16 then m[t] else Rotl1(W(m, t - 3) ^ W(m, t - 8) ^ W(m, t - 14) ^ W(m, t - 16))
  }

  function Step(r: Regs, t: nat, w: word): Regs {
    Regs(Plus(Plus(Plus(Plus(Rotl5(r.a), F(t, r.b, r.c, r.d)), r.e), K(t)), w), r.a, Rotl30(r.b), r.c, r.d)
  }

  /** The working variables after t of the 80 steps. */
  function Rounds(h: Regs, m: Block, t: nat): Regs {
    if t == 0 then h else Step(Rounds(h, m, t - 1), t - 1, W(m, t - 1))
  }

  function Add(x: Regs, y: Regs): Regs {
    Regs(Plus(x.a, y.a), Plus(x.b, y.b), Plus(x.c, y.c), Plus(x.d, y.d), Plus(x.e, y.e))
  }

  function Compress(h: Regs, m: Block): Regs {
    Add(h, Rounds(h, m, 80))
  }

  // ----- sections 5.2.1, 5.3.1 -----

  function BigEndianWord(b0: byte, b1: byte, b2: byte, b3: byte): word {
    (b0 as word << 24) | (b1 as word << 16) | (b2 as word << 8) | b3 as word
  }

  function Parse(b: seq<byte>): Block
    requires |b| >= 64
  {
    seq(16, i requires 0 <= i < 16 => BigEndianWord(b[4 * i], b[4 * i + 1], b[4 * i + 2], b[4 * i + 3]))
  }

  const H0 := Regs(0x67452301, 0xefcdab89, 0x98badcfe, 0x10325476, 0xc3d2e1f0)

  /** The hash value after the blocks of b. */
  function Hash(h: Regs, b: seq<byte>): Regs
    decreases |b|
  {
    if |b| < 64 then h else Hash(Compress(h, Parse(b)), b[64..])
  }

  function WordBytes(x: word): (s: seq<byte>)
    ensures |s| == 4
  {
    [(x >> 24) as byte, ((x >> 16) & 0xff) as byte, ((x >> 8) & 0xff) as byte, (x & 0xff) as byte]
  }

  function Digest(h: Regs): (s: seq<byte>)
    ensures |s| == 20
  {
    WordBytes(h.a) + WordBytes(h.b) + WordBytes(h.c) + WordBytes(h.d) + WordBytes(h.e)
  }

  // ----- section 5.1.1 -----

  /** A byte whose bit number r, counted from the most significant, is set. */
  function Marker(r: nat): byte
    requires r < 8
  {
    if r == 0 then 0x80 else Marker(r - 1) >> 1
  }

  /** The r most significant bits. */
  function TopBits(r: nat): byte
    requires r < 8
  {
    if r == 0 then 0 else TopBits(r - 1) | Marker(r - 1)
  }

  /** The first r bits of b, then a one bit, then zero bits. */
  function MarkedByte(b: byte, r: nat): byte
    requires r < 8
  {
    (b & TopBits(r)) | Marker(r)
  }

  /** Zero bytes between the marker's byte and the length: the fewest that complete a block. */
  function ZeroBytes(q: nat): nat {
    (119 - q % 64) % 64
  }

  function Zeros(n: nat): (s: seq<byte>)
    ensures |s| == n
  {
    seq(n, _ => 0)
  }

  /** The message of the given number of bits, a one bit, zero bits, and the length as a 64-bit number. */
  function Pad(msg: seq<byte>, bits: nat): seq<byte>
    requires bits < UINT64_RANGE && (bits + 7) / 8 <= |msg|
  {
    var q, r := bits / 8, bits % 8;
    Complete(msg[..q], if r == 0 then 0x80 else MarkedByte(msg[q], r), bits)
  }

  /** Whole bytes, the byte with the marker, zero bytes and the length. */
  function Complete(whole: seq<byte>, last: byte, bits: nat): (s: seq<byte>)
    requires bits < UINT64_RANGE
    ensures |s| == |whole| + 1 + ZeroBytes(|whole|) + 8
  {
    Width64(bits);
    whole + [last] + Zeros(ZeroBytes(|whole|)) + BigEndian(bits, 8)
  }

  lemma Width64(n: nat)
    requires n < UINT64_RANGE
    ensures n < Range(8)
  {
    assert Range(8) == 0x1_0000_0000 * Range(4);
    assert Range(4) == 0x1_0000 * Range(2);
  }

  function Sha1(msg: seq<byte>, bits: nat): (d: seq<byte>)
    requires bits < UINT64_RANGE && (bits + 7) / 8 <= |msg|
    ensures |d| == 20
  {
    Digest(Hash(H0, Pad(msg, bits)))
  }

  /** Padding completes the last block. */
  lemma PadIsWholeBlocks(msg: seq<byte>, bits: nat)
    requires bits < UINT64_RANGE && (bits + 7) / 8 <= |msg|
    ensures |Pad(msg, bits)| % 64 == 0
  {
    hide Complete, MarkedByte;
    WholeBlocks(bits / 8);
  }

  lemma WholeBlocks(q: nat)
    ensures (q + 1 + ZeroBytes(q) + 8) % 64 == 0
  {
  }
}
