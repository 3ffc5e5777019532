/** Base64 as section 3 of RFC 3548 defines it, with a decoder. Nothing here is taken from the program. */
module Base64Spec {
  import opened Bytes
  import opened Options

  /** n characters from c on. */
  function CharRange(c: char, n: nat): (s: string)
    requires c as int + n < 128
    ensures |s| == n
  {
    seq(n, i requires 0 <= i < n => (c as int + i) as char)
  }

  /** Table 1: A to Z, a to z, 0 to 9, plus and slash. */
  function Alphabet(): (s: string)
    ensures |s| == 64
  {
    CharRange('A', 26) + CharRange('a', 26) + CharRange('0', 10) + ['+', '/']
  }

  // ----- encoding -----

  /** Three bytes joined to a 24-bit number. */
  function Join(b0: byte, b1: byte, b2: byte): (n: nat)
    ensures n < 0x100_0000
  {
    ByteBound(b0);
    ByteBound(b1);
    ByteBound(b2);
    (b0 as int * 256 + b1 as int) * 256 + b2 as int
  }

  /** The four 6-bit numbers that a 24-bit number consists of. */
  function Sextets(n: nat): (s: seq<nat>)
    requires n < 0x100_0000
    ensures |s| == 4 && forall i :: 0 <= i < 4 ==> s[i] < 64
  {
    [n / 64 / 64 / 64, n / 64 / 64 % 64, n / 64 % 64, n % 64]
  }

  /** The first k letters for three bytes. */
  function Letters(b0: byte, b1: byte, b2: byte, k: nat): (s: string)
    requires k <= 4
    ensures |s| == k
  {
    var v := Sextets(Join(b0, b1, b2));
    seq(k, i requires 0 <= i < k => Alphabet()[v[i]])
  }

  function Encode(data: seq<byte>): string {
    if data == [] then []
    else if |data| == 1 then Letters(data[0], 0, 0, 2) + "=="
    else if |data| == 2 then Letters(data[0], data[1], 0, 3) + "="
    else Letters(data[0], data[1], data[2], 4) + Encode(data[3..])
  }

  // ----- decoding -----

  /** The value of a letter of the alphabet. */
  function Value(c: char): (v: Option<nat>)
    ensures v.Some? ==> v.value < 64
  {
    if 'A' <= c <= 'Z' then Some(c as int - 65)
    else if 'a' <= c <= 'z' then Some(c as int - 97 + 26)
    else if '0' <= c <= '9' then Some(c as int - 48 + 52)
    else if c == '+' then Some(62)
    else if c == '/' then Some(63)
    else None
  }

  function Number(v0: nat, v1: nat, v2: nat, v3: nat): (n: nat)
    requires v0 < 64 && v1 < 64 && v2 < 64 && v3 < 64
    ensures n < 0x100_0000
  {
    ((v0 * 64 + v1) * 64 + v2) * 64 + v3
  }

  function ThreeBytes(n: nat): (s: seq<byte>)
    requires n < 0x100_0000
    ensures |s| == 3
  {
    [U8(n / 256 / 256), U8(n / 256 % 256), U8(n % 256)]
  }

  /** One group of four characters; padding is allowed in the last one only, and padding bits must be zero. */
  function DecodeQuad(q: string, last: bool): Option<seq<byte>>
    requires |q| == 4
  {
    var v0, v1, v2, v3 := Value(q[0]), Value(q[1]), Value(q[2]), Value(q[3]);
    if v0.None? || v1.None? then None
    else if v2.Some? && v3.Some? then Some(ThreeBytes(Number(v0.value, v1.value, v2.value, v3.value)))
    else if !last || q[3] != '=' then None
    else if v2.Some? then
      if v2.value % 4 == 0 then Some(ThreeBytes(Number(v0.value, v1.value, v2.value, 0))[..2]) else None
    else if q[2] == '=' && v1.value % 16 == 0 then Some(ThreeBytes(Number(v0.value, v1.value, 0, 0))[..1])
    else None
  }

  function Decode(s: string): Option<seq<byte>> {
    if s == [] then Some([])
    else if |s| < 4 then None
    else
      var first, rest := DecodeQuad(s[..4], |s| == 4), Decode(s[4..]);
      if first.Some? && rest.Some? then Some(first.value + rest.value) else None
  }

  // ----- decoding undoes encoding -----

  lemma ValueOfLetter(v: nat)
    requires v < 64
    ensures Value(Alphabet()[v]) == Some(v) && Alphabet()[v] != '='
  {
  }

  lemma NumberOfSextets(n: nat)
    requires n < 0x100_0000
    ensures var v := Sextets(n);
            Number(v[0], v[1], v[2], v[3]) == n
  {
    Rejoined(n);
    Rejoined(n / 64);
    Rejoined(n / 64 / 64);
  }

  lemma Rejoined(n: nat)
    ensures n / 64 * 64 + n % 64 == n
  {
  }

  lemma U8OfByte(b: byte)
    ensures b as int < 256 && U8(b as int) == b
  {
    ByteBound(b);
    ByteInjective(U8(b as int), b);
  }

  lemma By256(q: nat, r: nat)
    requires r < 256
    ensures (q * 256 + r) / 256 == q && (q * 256 + r) % 256 == r
  {
  }

  lemma By64(n: nat, q: nat, r: nat)
    requires r < 64 && n == q * 64 + r
    ensures n / 64 == q && n % 64 == r
  {
  }

  lemma By16(n: nat) returns (q: nat, r: nat)
    ensures n == q * 16 + r && r < 16 && q == n / 16 && r == n % 16
  {
    q, r := n / 16, n % 16;
  }

  lemma By4(n: nat) returns (q: nat, r: nat)
    ensures n == q * 4 + r && r < 4 && q == n / 4 && r == n % 4
  {
    q, r := n / 4, n % 4;
  }

  lemma Split64(n: nat) returns (q: nat, r: nat)
    ensures n == q * 64 + r && r < 64 && q == n / 64 && r == n % 64
  {
    q, r := n / 64, n % 64;
  }

  lemma BytesOfJoin(b0: byte, b1: byte, b2: byte)
    ensures ThreeBytes(Join(b0, b1, b2)) == [b0, b1, b2]
  {
    hide U8, Join;
    U8OfByte(b0);
    U8OfByte(b1);
    U8OfByte(b2);
    JoinParts(b0, b1, b2);
  }

  /** The three digits of a number to the base 256. */
  predicate Digits(n: nat, x: nat, y: nat, z: nat) {
    n / 256 / 256 == x && n / 256 % 256 == y && n % 256 == z
  }

  lemma DigitsOf(x: nat, y: nat, z: nat)
    requires y < 256 && z < 256
    ensures Digits((x * 256 + y) * 256 + z, x, y, z)
  {
    By256(x * 256 + y, z);
    By256(x, y);
  }

  lemma JoinParts(b0: byte, b1: byte, b2: byte)
    ensures Digits(Join(b0, b1, b2), b0 as int, b1 as int, b2 as int)
  {
    hide Digits;
    ByteBound(b0);
    ByteBound(b1);
    ByteBound(b2);
    DigitsOf(b0 as int, b1 as int, b2 as int);
  }

  /** The four 6-bit numbers of three bytes, each by the bits it takes from them. */
  predicate SextetParts(v: seq<nat>, x: nat, y: nat, z: nat) {
    && |v| == 4
    && v[0] == x / 4
    && v[1] == x % 4 * 16 + y / 16
    && v[2] == y % 16 * 4 + z / 64
    && v[3] == z % 64
  }

  lemma SextetsOfJoin(b0: byte, b1: byte, b2: byte)
    ensures SextetParts(Sextets(Join(b0, b1, b2)), b0 as int, b1 as int, b2 as int)
  {
    hide SextetParts, Sextets;
    ByteBound(b0);
    ByteBound(b1);
    ByteBound(b2);
    SextetsOfNumbers(b0 as int, b1 as int, b2 as int);
  }

  lemma SextetsOfNumbers(x: nat, y: nat, z: nat)
    requires x < 256 && y < 256 && z < 256
    ensures var n := (x * 256 + y) * 256 + z;
            n < 0x100_0000 && SextetParts(Sextets(n), x, y, z)
  {
    var x1, x0 := By4(x);
    var y1, y0 := By16(y);
    var z1, z0 := Split64(z);
    var k2 := x * 16 + y1;
    var k1 := k2 * 64 + (y0 * 4 + z1);
    var n := (x * 256 + y) * 256 + z;
    assert n == k1 * 64 + z0;
    SextetsBy(n, k1, k2, x1, x0 * 16 + y1, y0 * 4 + z1, z0);
  }

  lemma SextetsBy(n: nat, k1: nat, k2: nat, v0: nat, v1: nat, v2: nat, v3: nat)
    requires n < 0x100_0000 && v1 < 64 && v2 < 64 && v3 < 64
    requires n == k1 * 64 + v3 && k1 == k2 * 64 + v2 && k2 == v0 * 64 + v1
    ensures Sextets(n) == [v0, v1, v2, v3]
  {
    By64(n, k1, v3);
    By64(k1, k2, v2);
    By64(k2, v0, v1);
  }

  lemma QuadRoundTrip(b0: byte, b1: byte, b2: byte, last: bool)
    ensures DecodeQuad(Letters(b0, b1, b2, 4), last) == Some([b0, b1, b2])
  {
    hide Alphabet, Value, Sextets, Number, ThreeBytes, Join;
    var n := Join(b0, b1, b2);
    var v := Sextets(n);
    ValueOfLetter(v[0]);
    ValueOfLetter(v[1]);
    ValueOfLetter(v[2]);
    ValueOfLetter(v[3]);
    NumberOfSextets(n);
    BytesOfJoin(b0, b1, b2);
  }

  /** The bits that no byte fills are zero. */
  lemma SpareSextets(b0: byte, b1: byte)
    ensures var v := Sextets(Join(b0, b1, 0));
            v[2] % 4 == 0 && v[3] == 0 && (b1 == 0 ==> v[1] % 16 == 0 && v[2] == 0)
  {
    hide Sextets, Join;
    SextetsOfJoin(b0, b1, 0);
    ZeroByte(b1);
    ByteBound(b1);
    FourTimes(b1 as int);
  }

  lemma ZeroByte(b: byte)
    ensures (0 as byte) as int == 0 && (b == 0 ==> b as int == 0)
  {
  }

  lemma FourTimes(y: nat)
    ensures (y % 16 * 4 + 0 / 64) % 4 == 0
  {
  }

  lemma PaddedOnce(b0: byte, b1: byte)
    ensures DecodeQuad(Letters(b0, b1, 0, 3) + "=", true) == Some([b0, b1])
  {
    hide Alphabet, Sextets, Number, ThreeBytes, Join;
    var v := Sextets(Join(b0, b1, 0));
    var q := Letters(b0, b1, 0, 3) + "=";
    ValueOfLetter(v[0]);
    ValueOfLetter(v[1]);
    ValueOfLetter(v[2]);
    assert q[0] == Alphabet()[v[0]] && q[1] == Alphabet()[v[1]] && q[2] == Alphabet()[v[2]] && q[3] == '=';
    SpareSextets(b0, b1);
    NumberOfSextets(Join(b0, b1, 0));
    BytesOfJoin(b0, b1, 0);
    assert [b0, b1, 0][..2] == [b0, b1];
  }

  lemma PaddedTwice(b0: byte)
    ensures DecodeQuad(Letters(b0, 0, 0, 2) + "==", true) == Some([b0])
  {
    hide Alphabet, Sextets, Number, ThreeBytes, Join;
    var v := Sextets(Join(b0, 0, 0));
    var q := Letters(b0, 0, 0, 2) + "==";
    ValueOfLetter(v[0]);
    ValueOfLetter(v[1]);
    assert q[0] == Alphabet()[v[0]] && q[1] == Alphabet()[v[1]] && q[2] == '=' && q[3] == '=';
    SpareSextets(b0, 0);
    NumberOfSextets(Join(b0, 0, 0));
    BytesOfJoin(b0, 0, 0);
    assert [b0, 0, 0][..1] == [b0];
  }

  lemma LastQuad(q: string, data: seq<byte>)
    requires |q| == 4 && DecodeQuad(q, true) == Some(data)
    ensures Decode(q) == Some(data)
  {
    hide DecodeQuad;
    assert q[..4] == q && q[4..] == [] && data + [] == data;
    assert Decode(q[4..]) == Some([]);
  }

  /** A group and what follows it are decoded apart. */
  lemma FirstQuad(q: string, rest: string, three: seq<byte>, data: seq<byte>)
    requires |q| == 4 && DecodeQuad(q, rest == []) == Some(three) && Decode(rest) == Some(data)
    ensures Decode(q + rest) == Some(three + data)
  {
    hide DecodeQuad;
    assert (q + rest)[..4] == q && (q + rest)[4..] == rest;
  }

  /** The text has four characters for every three bytes begun. */
  lemma {:induction false} TextLength(data: seq<byte>)
    ensures |Encode(data)| == (|data| + 2) / 3 * 4
  {
    hide Letters;
    if |data| > 2 {
      TextLength(data[3..]);
    }
  }

  /** Decoding returns the data, for every length. */
  lemma {:induction false} DecodeUndoesEncode(data: seq<byte>)
    ensures Decode(Encode(data)) == Some(data)
  {
    hide DecodeQuad, Letters, Decode;
    if data == [] {
      NothingDecoded();
    } else if |data| == 1 {
      PaddedTwice(data[0]);
      assert data == [data[0]];
      LastQuad(Encode(data), data);
    } else if |data| == 2 {
      PaddedOnce(data[0], data[1]);
      assert data == [data[0], data[1]];
      LastQuad(Encode(data), data);
    } else {
      var q, rest := Letters(data[0], data[1], data[2], 4), Encode(data[3..]);
      QuadRoundTrip(data[0], data[1], data[2], rest == []);
      DecodeUndoesEncode(data[3..]);
      FirstQuad(q, rest, [data[0], data[1], data[2]], data[3..]);
      assert data == [data[0], data[1], data[2]] + data[3..];
    }
  }

  lemma NothingDecoded()
    ensures Decode(Encode([])) == Some([])
  {
  }
}
