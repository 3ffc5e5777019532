/** The word operations of SHA-1 by their values: what the sums and rotations of 32-bit words are as numbers, what the
    logical functions are bit by bit, and which numbers the constants are (FIPS 180-4, sections 3.2, 4.1.1, 4.2.1,
    5.3.1).
 */
module WordArithmetic {
  import opened Bytes
  import opened Sha1Spec

  // ----- bit strings side by side, as numbers -----

  function Join5(h: bv1, l: bv4): bv5 { (h as bv5 << 4) | l as bv5 }

  function Join9(h: bv5, l: bv4): bv9 { (h as bv9 << 4) | l as bv9 }

  lemma Value5(h: bv1, l: bv4)
    ensures Join5(h, l) as int == h as int * 16 + l as int
  {
  }

  lemma Value8(h: bv4, l: bv4)
    ensures ((h as byte << 4) | l as byte) as int == h as int * 16 + l as int
  {
  }

  lemma Value9(h: bv5, l: bv4)
    ensures Join9(h, l) as int == h as int * 16 + l as int
  {
  }

  lemma Split5(s: bv5) returns (h: bv1, l: bv4)
    ensures s == Join5(h, l)
  {
    h, l := (s >> 4) as bv1, (s & 0xf) as bv4;
  }

  lemma Split8(s: byte) returns (h: bv4, l: bv4)
    ensures s == (h as byte << 4) | l as byte
  {
    h, l := (s >> 4) as bv4, (s & 0xf) as bv4;
  }

  lemma WordOfBytes(b3: byte, b2: byte, b1: byte, b0: byte)
    ensures BigEndianWord(b3, b2, b1, b0) == (b3 as word << 24) | (b2 as word << 16) | (b1 as word << 8) | b0 as word
  {
  }

  lemma WordValue(b3: byte, b2: byte, b1: byte, b0: byte)
    ensures ((b3 as word << 24) | (b2 as word << 16) | (b1 as word << 8) | b0 as word) as int
            == b3 as int * 0x100_0000 + b2 as int * 0x1_0000 + b1 as int * 0x100 + b0 as int
  {
  }

  /** Four bytes side by side are the number they spell in base 256. */
  lemma BigEndianWordValue(b3: byte, b2: byte, b1: byte, b0: byte)
    ensures BigEndianWord(b3, b2, b1, b0) as int
            == b3 as int * 0x100_0000 + b2 as int * 0x1_0000 + b1 as int * 0x100 + b0 as int
  {
    hide *;
    WordOfBytes(b3, b2, b1, b0);
    WordValue(b3, b2, b1, b0);
  }

  // ----- sums of digits that keep their carry -----

  function Sum4(a: bv4, b: bv4, c: bv1): bv5 { a as bv5 + b as bv5 + c as bv5 }

  function Sum8(a: byte, b: byte, c: bv1): bv9 { a as bv9 + b as bv9 + c as bv9 }

  function Carry(s: bv9): bv1 { (s >> 8) as bv1 }

  function Digit(s: bv9): byte { (s & 0xff) as byte }

  lemma SumOfNibbles(a: bv4, b: bv4, c: bv1)
    ensures Sum4(a, b, c) as int == a as int + b as int + c as int
  {
  }

  lemma Ripple(a1: bv4, a0: bv4, b1: bv4, b0: bv4, c: bv1, c1: bv1, l: bv4)
    requires Sum4(a0, b0, c) == Join5(c1, l)
    ensures Sum8((a1 as byte << 4) | a0 as byte, (b1 as byte << 4) | b0 as byte, c) == Join9(Sum4(a1, b1, c1), l)
  {
  }

  lemma SumOfBytes(a: byte, b: byte, c: bv1)
    ensures Sum8(a, b, c) as int == a as int + b as int + c as int
  {
    hide *;
    var a1, a0 := Split8(a);
    var b1, b0 := Split8(b);
    var c1, l := Split5(Sum4(a0, b0, c));
    Ripple(a1, a0, b1, b0, c, c1, l);
    SumOfNibbles(a0, b0, c);
    SumOfNibbles(a1, b1, c1);
    Value5(c1, l);
    Value8(a1, a0);
    Value8(b1, b0);
    Value9(Sum4(a1, b1, c1), l);
  }

  lemma CarryValue(h: bv1, l: byte)
    ensures ((h as bv9 << 8) | l as bv9) as int == h as int * 256 + l as int
  {
  }

  lemma CarryAndDigit(s: bv9)
    ensures s as int == Carry(s) as int * 256 + Digit(s) as int
  {
    var h, l := (s >> 8) as bv1, (s & 0xff) as byte;
    assert s == (h as bv9 << 8) | l as bv9;
    CarryValue(h, l);
  }

  /** One column of the sum of two words: digit and carry of two bytes and the carry before. */
  lemma Column(a: byte, b: byte, c: bv1)
    ensures var s := Sum8(a, b, c); Carry(s) as int * 256 + Digit(s) as int == a as int + b as int + c as int
  {
    hide *;
    SumOfBytes(a, b, c);
    CarryAndDigit(Sum8(a, b, c));
  }

  // ----- the sum of two words, byte by byte -----

  function Byte0(x: word): byte { (x & 0xff) as byte }

  function Byte1(x: word): byte { ((x >> 8) & 0xff) as byte }

  function Byte2(x: word): byte { ((x >> 16) & 0xff) as byte }

  function Byte3(x: word): byte { (x >> 24) as byte }

  lemma BytesOfWord(x: word)
    ensures x == BigEndianWord(Byte3(x), Byte2(x), Byte1(x), Byte0(x))
  {
  }

  lemma Byte0Is(x: word)
    ensures Byte0(x) == (x & 0xff) as byte
  {
  }

  lemma Byte1Is(x: word)
    ensures Byte1(x) == ((x >> 8) & 0xff) as byte
  {
  }

  lemma Byte2Is(x: word)
    ensures Byte2(x) == ((x >> 16) & 0xff) as byte
  {
  }

  lemma Byte3Is(x: word)
    ensures Byte3(x) == (x >> 24) as byte
  {
  }

  lemma CarryIs(s: bv9)
    ensures Carry(s) == (s >> 8) as bv1
  {
  }

  lemma SumIs0(x: word, y: word)
    ensures Sum8((x & 0xff) as byte, (y & 0xff) as byte, 0)
            == ((x & 0xff) as byte) as bv9 + ((y & 0xff) as byte) as bv9 + (0 as bv1) as bv9
  {
  }

  lemma SumIs1(x: word, y: word, s: bv9)
    ensures Sum8(((x >> 8) & 0xff) as byte, ((y >> 8) & 0xff) as byte, (s >> 8) as bv1)
            == (((x >> 8) & 0xff) as byte) as bv9 + (((y >> 8) & 0xff) as byte) as bv9 + ((s >> 8) as bv1) as bv9
  {
  }

  lemma SumIs2(x: word, y: word, s: bv9)
    ensures Sum8(((x >> 16) & 0xff) as byte, ((y >> 16) & 0xff) as byte, (s >> 8) as bv1)
            == (((x >> 16) & 0xff) as byte) as bv9 + (((y >> 16) & 0xff) as byte) as bv9 + ((s >> 8) as bv1) as bv9
  {
  }

  lemma SumIs3(x: word, y: word, s: bv9)
    ensures Sum8((x >> 24) as byte, (y >> 24) as byte, (s >> 8) as bv1)
            == ((x >> 24) as byte) as bv9 + ((y >> 24) as byte) as bv9 + ((s >> 8) as bv1) as bv9
  {
  }

  lemma Column0(x: word, y: word)
    ensures Sum8(Byte0(x), Byte0(y), 0)
            == ((x & 0xff) as byte) as bv9 + ((y & 0xff) as byte) as bv9 + (0 as bv1) as bv9
  {
    hide *;
    SumIs0(x, y);
    Byte0Is(x);
    Byte0Is(y);
  }

  lemma Column1(x: word, y: word, s: bv9)
    ensures Sum8(Byte1(x), Byte1(y), Carry(s))
            == (((x >> 8) & 0xff) as byte) as bv9 + (((y >> 8) & 0xff) as byte) as bv9 + ((s >> 8) as bv1) as bv9
  {
    hide *;
    SumIs1(x, y, s);
    Byte1Is(x);
    Byte1Is(y);
    CarryIs(s);
  }

  lemma Column2(x: word, y: word, s: bv9)
    ensures Sum8(Byte2(x), Byte2(y), Carry(s))
            == (((x >> 16) & 0xff) as byte) as bv9 + (((y >> 16) & 0xff) as byte) as bv9 + ((s >> 8) as bv1) as bv9
  {
    hide *;
    SumIs2(x, y, s);
    Byte2Is(x);
    Byte2Is(y);
    CarryIs(s);
  }

  lemma Column3(x: word, y: word, s: bv9)
    ensures Sum8(Byte3(x), Byte3(y), Carry(s))
            == ((x >> 24) as byte) as bv9 + ((y >> 24) as byte) as bv9 + ((s >> 8) as bv1) as bv9
  {
    hide *;
    SumIs3(x, y, s);
    Byte3Is(x);
    Byte3Is(y);
    CarryIs(s);
  }

  lemma SumInColumns(x: word, y: word, s0: bv9, s1: bv9, s2: bv9, s3: bv9)
    requires s0 == ((x & 0xff) as byte) as bv9 + ((y & 0xff) as byte) as bv9 + (0 as bv1) as bv9
    requires s1 == (((x >> 8) & 0xff) as byte) as bv9 + (((y >> 8) & 0xff) as byte) as bv9 + ((s0 >> 8) as bv1) as bv9
    requires s2 == (((x >> 16) & 0xff) as byte) as bv9 + (((y >> 16) & 0xff) as byte) as bv9
                   + ((s1 >> 8) as bv1) as bv9
    requires s3 == ((x >> 24) as byte) as bv9 + ((y >> 24) as byte) as bv9 + ((s2 >> 8) as bv1) as bv9
    ensures x + y == (((s3 & 0xff) as byte) as word << 24) | (((s2 & 0xff) as byte) as word << 16)
                     | (((s1 & 0xff) as byte) as word << 8) | ((s0 & 0xff) as byte) as word
  {
  }

  lemma PlusIs(x: word, y: word)
    ensures Plus(x, y) == x + y
  {
  }

  lemma WordOfDigits(s3: bv9, s2: bv9, s1: bv9, s0: bv9)
    ensures BigEndianWord(Digit(s3), Digit(s2), Digit(s1), Digit(s0))
            == (((s3 & 0xff) as byte) as word << 24) | (((s2 & 0xff) as byte) as word << 16)
               | (((s1 & 0xff) as byte) as word << 8) | ((s0 & 0xff) as byte) as word
  {
  }

  lemma SumOfColumns(x: word, y: word, s0: bv9, s1: bv9, s2: bv9, s3: bv9)
    requires s0 == Sum8(Byte0(x), Byte0(y), 0)
    requires s1 == Sum8(Byte1(x), Byte1(y), Carry(s0))
    requires s2 == Sum8(Byte2(x), Byte2(y), Carry(s1))
    requires s3 == Sum8(Byte3(x), Byte3(y), Carry(s2))
    ensures x + y == (((s3 & 0xff) as byte) as word << 24) | (((s2 & 0xff) as byte) as word << 16)
                     | (((s1 & 0xff) as byte) as word << 8) | ((s0 & 0xff) as byte) as word
  {
    hide *;
    Column0(x, y);
    Column1(x, y, s0);
    Column2(x, y, s1);
    Column3(x, y, s2);
    SumInColumns(x, y, s0, s1, s2, s3);
  }

  lemma DigitsOfPlus(x: word, y: word, s0: bv9, s1: bv9, s2: bv9, s3: bv9)
    requires s0 == Sum8(Byte0(x), Byte0(y), 0)
    requires s1 == Sum8(Byte1(x), Byte1(y), Carry(s0))
    requires s2 == Sum8(Byte2(x), Byte2(y), Carry(s1))
    requires s3 == Sum8(Byte3(x), Byte3(y), Carry(s2))
    ensures Plus(x, y) == BigEndianWord(Digit(s3), Digit(s2), Digit(s1), Digit(s0))
  {
    hide *;
    PlusIs(x, y);
    SumOfColumns(x, y, s0, s1, s2, s3);
    WordOfDigits(s3, s2, s1, s0);
  }

  lemma NoCarry()
    ensures (0 as bv1) as int == 0
  {
  }

  lemma WordBound(x: word)
    ensures 0 <= x as int < 0x1_0000_0000
  {
  }

  lemma Remainder(n: int, carry: int, rest: int)
    requires n == carry * 0x1_0000_0000 + rest && 0 <= rest < 0x1_0000_0000
    ensures n % 0x1_0000_0000 == rest
  {
  }

  lemma Carried(x3: int, x2: int, x1: int, x0: int, y3: int, y2: int, y1: int, y0: int,
                d3: int, d2: int, d1: int, d0: int, c3: int, c2: int, c1: int, c0: int)
    requires c0 * 256 + d0 == x0 + y0
    requires c1 * 256 + d1 == x1 + y1 + c0
    requires c2 * 256 + d2 == x2 + y2 + c1
    requires c3 * 256 + d3 == x3 + y3 + c2
    ensures x3 * 0x100_0000 + x2 * 0x1_0000 + x1 * 0x100 + x0 + (y3 * 0x100_0000 + y2 * 0x1_0000 + y1 * 0x100 + y0)
            == c3 * 0x1_0000_0000 + (d3 * 0x100_0000 + d2 * 0x1_0000 + d1 * 0x100 + d0)
  {
  }

  /** Section 3.2: addition is modulo 2^32. */
  lemma PlusIsModular(x: word, y: word)
    ensures Plus(x, y) as int == (x as int + y as int) % 0x1_0000_0000
  {
    hide *;
    var s0 := Sum8(Byte0(x), Byte0(y), 0);
    var s1 := Sum8(Byte1(x), Byte1(y), Carry(s0));
    var s2 := Sum8(Byte2(x), Byte2(y), Carry(s1));
    var s3 := Sum8(Byte3(x), Byte3(y), Carry(s2));
    Column(Byte0(x), Byte0(y), 0);
    Column(Byte1(x), Byte1(y), Carry(s0));
    Column(Byte2(x), Byte2(y), Carry(s1));
    Column(Byte3(x), Byte3(y), Carry(s2));
    NoCarry();
    BytesOfWord(x);
    BytesOfWord(y);
    DigitsOfPlus(x, y, s0, s1, s2, s3);
    BigEndianWordValue(Byte3(x), Byte2(x), Byte1(x), Byte0(x));
    BigEndianWordValue(Byte3(y), Byte2(y), Byte1(y), Byte0(y));
    BigEndianWordValue(Digit(s3), Digit(s2), Digit(s1), Digit(s0));
    Carried(Byte3(x) as int, Byte2(x) as int, Byte1(x) as int, Byte0(x) as int,
            Byte3(y) as int, Byte2(y) as int, Byte1(y) as int, Byte0(y) as int,
            Digit(s3) as int, Digit(s2) as int, Digit(s1) as int, Digit(s0) as int,
            Carry(s3) as int, Carry(s2) as int, Carry(s1) as int, Carry(s0) as int);
    WordBound(Plus(x, y));
    Remainder(x as int + y as int, Carry(s3) as int, Plus(x, y) as int);
  }

  // ----- rotations -----

  lemma Joined1(h: bv1, l: bv31)
    ensures ((h as word << 31) | l as word) as int == h as int * 0x8000_0000 + l as int
    ensures ((l as word << 1) | h as word) as int == l as int * 2 + h as int
  {
  }

  lemma Joined5(h: bv5, l: bv27)
    ensures ((h as word << 27) | l as word) as int == h as int * 0x800_0000 + l as int
    ensures ((l as word << 5) | h as word) as int == l as int * 32 + h as int
  {
  }

  lemma Joined30(h: bv30, l: bv2)
    ensures ((h as word << 2) | l as word) as int == h as int * 4 + l as int
    ensures ((l as word << 30) | h as word) as int == l as int * 0x4000_0000 + h as int
  {
  }

  lemma Halves1(x: word, h: bv1, l: bv31)
    requires h == (x >> 31) as bv1 && l == (x & 0x7fff_ffff) as bv31
    ensures x == (h as word << 31) | l as word
    ensures Rotl1(x) == (l as word << 1) | h as word
  {
  }

  lemma Halves5(x: word, h: bv5, l: bv27)
    requires h == (x >> 27) as bv5 && l == (x & 0x7ff_ffff) as bv27
    ensures x == (h as word << 27) | l as word
    ensures Rotl5(x) == (l as word << 5) | h as word
  {
  }

  lemma Halves30(x: word, h: bv30, l: bv2)
    requires h == (x >> 2) as bv30 && l == (x & 3) as bv2
    ensures x == (h as word << 2) | l as word
    ensures Rotl30(x) == (l as word << 30) | h as word
  {
  }

  lemma Bounds(a: bv31, b: bv27, c: bv2)
    ensures 0 <= a as int < 0x8000_0000 && 0 <= b as int < 0x800_0000 && 0 <= c as int < 4
  {
  }

  lemma Turn1(n: int, high: int, low: int)
    requires n == high * 0x8000_0000 + low && 0 <= low < 0x8000_0000
    ensures n * 2 % 0x1_0000_0000 == low * 2 && n / 0x8000_0000 == high
  {
    Remainder(n * 2, high, low * 2);
  }

  lemma Turn5(n: int, high: int, low: int)
    requires n == high * 0x800_0000 + low && 0 <= low < 0x800_0000
    ensures n * 32 % 0x1_0000_0000 == low * 32 && n / 0x800_0000 == high
  {
    Remainder(n * 32, high, low * 32);
  }

  lemma Turn30(n: int, high: int, low: int)
    requires n == high * 4 + low && 0 <= low < 4
    ensures n * 0x4000_0000 % 0x1_0000_0000 == low * 0x4000_0000 && n / 4 == high
  {
    Remainder(n * 0x4000_0000, high, low * 0x4000_0000);
  }

  /** Section 3.2: the bits that a rotation shifts out on the left come in on the right. */
  lemma Rotl1Value(x: word)
    ensures Rotl1(x) as int == x as int * 2 % 0x1_0000_0000 + x as int / 0x8000_0000
  {
    hide *;
    var h, l := (x >> 31) as bv1, (x & 0x7fff_ffff) as bv31;
    Halves1(x, h, l);
    Joined1(h, l);
    Bounds(l, 0, 0);
    Turn1(x as int, h as int, l as int);
  }

  lemma Rotl5Value(x: word)
    ensures Rotl5(x) as int == x as int * 32 % 0x1_0000_0000 + x as int / 0x800_0000
  {
    hide *;
    var h, l := (x >> 27) as bv5, (x & 0x7ff_ffff) as bv27;
    Halves5(x, h, l);
    Joined5(h, l);
    Bounds(0, l, 0);
    Turn5(x as int, h as int, l as int);
  }

  lemma Rotl30Value(x: word)
    ensures Rotl30(x) as int == x as int * 0x4000_0000 % 0x1_0000_0000 + x as int / 4
  {
    hide *;
    var h, l := (x >> 2) as bv30, (x & 3) as bv2;
    Halves30(x, h, l);
    Joined30(h, l);
    Bounds(0, 0, l);
    Turn30(x as int, h as int, l as int);
  }

  // ----- the logical functions, bit by bit -----

  /** How many of the three are set. */
  function Count(p: bool, q: bool, r: bool): nat {
    (if p then 1 else 0) + (if q then 1 else 0) + if r then 1 else 0
  }

  /** A mask of one bit. */
  predicate OneBit(m: word) {
    m != 0 && m & (m - 1) == 0
  }

  /** The bit of x that the mask selects. */
  predicate Bit(x: word, m: word) {
    x & m != 0
  }

  lemma ChooseBit(x: word, y: word, z: word, m: word)
    requires OneBit(m)
    ensures Bit((x & y) ^ (!x & z), m) <==> if Bit(x, m) then Bit(y, m) else Bit(z, m)
  {
  }

  lemma OddBit(x: word, y: word, z: word, m: word)
    requires OneBit(m)
    ensures Bit(x ^ y ^ z, m) <==> (Bit(x, m) != Bit(y, m)) != Bit(z, m)
  {
  }

  lemma MajorityBit(x: word, y: word, z: word, m: word)
    requires OneBit(m)
    ensures Bit((x & y) ^ (x & z) ^ (y & z), m)
            <==> (Bit(x, m) && Bit(y, m)) || (Bit(x, m) && Bit(z, m)) || (Bit(y, m) && Bit(z, m))
  {
  }

  lemma Counts(p: bool, q: bool, r: bool)
    ensures Count(p, q, r) % 2 == 1 <==> (p != q) != r
    ensures Count(p, q, r) >= 2 <==> (p && q) || (p && r) || (q && r)
  {
  }

  lemma ChIs(x: word, y: word, z: word)
    ensures Ch(x, y, z) == (x & y) ^ (!x & z)
  {
  }

  lemma ParityIs(x: word, y: word, z: word)
    ensures Parity(x, y, z) == x ^ y ^ z
  {
  }

  lemma MajIs(x: word, y: word, z: word)
    ensures Maj(x, y, z) == (x & y) ^ (x & z) ^ (y & z)
  {
  }

  /** Section 4.1.1: in every bit, Ch chooses between y and z by x. */
  lemma ChChooses(x: word, y: word, z: word, m: word)
    requires OneBit(m)
    ensures Bit(Ch(x, y, z), m) <==> if Bit(x, m) then Bit(y, m) else Bit(z, m)
  {
    hide *;
    ChIs(x, y, z);
    ChooseBit(x, y, z, m);
  }

  /** In every bit, Parity says whether the number of set bits is odd. */
  lemma ParityIsOdd(x: word, y: word, z: word, m: word)
    requires OneBit(m)
    ensures Bit(Parity(x, y, z), m) <==> Count(Bit(x, m), Bit(y, m), Bit(z, m)) % 2 == 1
  {
    hide *;
    ParityIs(x, y, z);
    OddBit(x, y, z, m);
    Counts(Bit(x, m), Bit(y, m), Bit(z, m));
  }

  /** In every bit, Maj is what at least two of the three have. */
  lemma MajIsMajority(x: word, y: word, z: word, m: word)
    requires OneBit(m)
    ensures Bit(Maj(x, y, z), m) <==> Count(Bit(x, m), Bit(y, m), Bit(z, m)) >= 2
  {
    hide *;
    MajIs(x, y, z);
    MajorityBit(x, y, z, m);
    Counts(Bit(x, m), Bit(y, m), Bit(z, m));
  }

  // ----- the constants -----

  /** Section 4.2.1: the constants are the square roots of 2, 3, 5 and 10, times 2^30, rounded down. */
  lemma ConstantsAreRoots(t: nat)
    ensures var n, k := Radicand(t), K(t) as int;
            k * k <= n * 0x1000_0000_0000_0000 < (k + 1) * (k + 1)
  {
  }

  function Radicand(t: nat): nat {
    if t < 20 then 2 else if t < 40 then 3 else if t < 60 then 5 else 10
  }

  function LowByteFirst(x: word): seq<byte> {
    [Byte0(x), Byte1(x), Byte2(x), Byte3(x)]
  }

  /** Section 5.3.1: with the low byte first, the words are 01 23 .. ef, fe dc .. 10 and f0 e1 d2 c3. */
  lemma InitialValue()
    ensures LowByteFirst(H0.a) == [0x01, 0x23, 0x45, 0x67] && LowByteFirst(H0.b) == [0x89, 0xab, 0xcd, 0xef]
    ensures LowByteFirst(H0.c) == [0xfe, 0xdc, 0xba, 0x98] && LowByteFirst(H0.d) == [0x76, 0x54, 0x32, 0x10]
    ensures LowByteFirst(H0.e) == [0xf0, 0xe1, 0xd2, 0xc3]
  {
  }

  // ----- the marker behind the message's last bits -----

  /** Section 5.1.1: the masks of a byte whose first r bits belong to the message, and of the one bit behind them. */
  lemma MarkerValues()
    ensures Marker(0) == 0x80 && Marker(1) == 0x40 && Marker(2) == 0x20 && Marker(3) == 0x10
    ensures Marker(4) == 0x08 && Marker(5) == 0x04 && Marker(6) == 0x02 && Marker(7) == 0x01
    ensures TopBits(0) == 0x00 && TopBits(1) == 0x80 && TopBits(2) == 0xc0 && TopBits(3) == 0xe0
    ensures TopBits(4) == 0xf0 && TopBits(5) == 0xf8 && TopBits(6) == 0xfc && TopBits(7) == 0xfe
  {
  }
}
