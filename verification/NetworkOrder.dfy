/** socket/ws/util.c: host and network byte order on a little-endian host. */
module NetworkOrder {
  import opened Bytes

  /** htons and ntohs on a little-endian host: swap the two bytes. */
  function Swap16(x: bv16): bv16 {
    (x << 8) | (x >> 8)
  }

  function Hton64(x: bv64): bv64 {
    (x >> 56) |
    ((x << 40) & 0x00ff000000000000) |
    ((x << 24) & 0x0000ff0000000000) |
    ((x << 8) & 0x000000ff00000000) |
    ((x >> 8) & 0x00000000ff000000) |
    ((x >> 24) & 0x0000000000ff0000) |
    ((x >> 40) & 0x000000000000ff00) |
    (x << 56)
  }

  function Ntoh64(x: bv64): bv64 {
    (x >> 56) |
    ((x << 40) & 0x00ff000000000000) |
    ((x << 24) & 0x0000ff0000000000) |
    ((x << 8) & 0x000000ff00000000) |
    ((x >> 8) & 0x00000000ff000000) |
    ((x >> 24) & 0x0000000000ff0000) |
    ((x >> 40) & 0x000000000000ff00) |
    (x << 56)
  }

  lemma Ntoh64UndoesHton64(x: bv64)
    ensures Ntoh64(Hton64(x)) == x && Hton64(Ntoh64(x)) == x
  {
  }

  // ----- words in memory, least significant byte first -----

  /** What a cast of &x to char* reads. */
  function MemoryBytes(x: bv64): (s: seq<byte>)
    ensures |s| == 8
  {
    [(x & 0xff) as bv8, ((x >> 8) & 0xff) as bv8, ((x >> 16) & 0xff) as bv8, ((x >> 24) & 0xff) as bv8,
     ((x >> 32) & 0xff) as bv8, ((x >> 40) & 0xff) as bv8, ((x >> 48) & 0xff) as bv8, (x >> 56) as bv8]
  }

  /** What dereferencing a cast to uint16_t* reads. */
  function Load16(s: seq<byte>): bv16
    requires |s| == 2
  {
    s[0] as bv16 | (s[1] as bv16 << 8)
  }

  /** What dereferencing a cast to uint64_t* reads. */
  function Load64(s: seq<byte>): bv64
    requires |s| == 8
  {
    s[0] as bv64 | (s[1] as bv64 << 8) | (s[2] as bv64 << 16) | (s[3] as bv64 << 24) |
    (s[4] as bv64 << 32) | (s[5] as bv64 << 40) | (s[6] as bv64 << 48) | (s[7] as bv64 << 56)
  }

  // ----- the shifts and masks compute network byte order -----

  function Fold(s: seq<byte>): bv64 {
    if s == [] then 0 else ShiftIn(Fold(s[..|s| - 1]), s[|s| - 1])
  }

  function ShiftIn(x: bv64, b: byte): bv64 {
    (x << 8) | b as bv64
  }

  lemma {:induction false} FoldIsBigEndian(s: seq<byte>)
    requires |s| <= 8
    ensures Fold(s) as int == FromBigEndian(s)
  {
    if s == [] {
    } else {
      var front := s[..|s| - 1];
      FoldIsBigEndian(front);
      Range7(|front|);
      ShiftIn64(Fold(front), s[|s| - 1]);
    }
  }

  lemma FoldPrefix(s: seq<byte>, k: nat)
    requires k < |s|
    ensures Fold(s[..k + 1]) == ShiftIn(Fold(s[..k]), s[k])
  {
    hide ShiftIn;
    assert s[..k + 1][..k] == s[..k];
  }

  function Combine(s: seq<byte>): bv64
    requires |s| == 8
  {
    (s[0] as bv64 << 56) | (s[1] as bv64 << 48) | (s[2] as bv64 << 40) | (s[3] as bv64 << 32) |
    (s[4] as bv64 << 24) | (s[5] as bv64 << 16) | (s[6] as bv64 << 8) | s[7] as bv64
  }

  lemma FoldOfEight(s: seq<byte>)
    requires |s| == 8
    ensures Fold(s) == Combine(s)
  {
    hide ShiftIn;
    ShiftChain(s);
    FoldOfFour(s);
    FoldPrefix(s, 4);
    FoldPrefix(s, 5);
    FoldPrefix(s, 6);
    FoldPrefix(s, 7);
    assert s[..8] == s;
  }

  lemma FoldOfFour(s: seq<byte>)
    requires |s| >= 4
    ensures Fold(s[..4]) == ShiftIn(ShiftIn(ShiftIn(ShiftIn(0, s[0]), s[1]), s[2]), s[3])
  {
    hide ShiftIn;
    FoldPrefix(s, 0);
    FoldPrefix(s, 1);
    FoldPrefix(s, 2);
    FoldPrefix(s, 3);
  }

  lemma ShiftChain(s: seq<byte>)
    requires |s| == 8
    ensures ShiftIn(ShiftIn(ShiftIn(ShiftIn(ShiftIn(ShiftIn(ShiftIn(ShiftIn(
              0, s[0]), s[1]), s[2]), s[3]), s[4]), s[5]), s[6]), s[7]) == Combine(s)
  {
  }

  lemma SwapLoaded(s0: bv64, s1: bv64, s2: bv64, s3: bv64, s4: bv64, s5: bv64, s6: bv64, s7: bv64)
    requires s0 < 256 && s1 < 256 && s2 < 256 && s3 < 256 && s4 < 256 && s5 < 256 && s6 < 256 && s7 < 256
    ensures Ntoh64(s0 | (s1 << 8) | (s2 << 16) | (s3 << 24) | (s4 << 32) | (s5 << 40) | (s6 << 48) | (s7 << 56))
            == (s0 << 56) | (s1 << 48) | (s2 << 40) | (s3 << 32) | (s4 << 24) | (s5 << 16) | (s6 << 8) | s7
  {
  }

  lemma Widen(b: byte)
    ensures (b as bv64) < 256
  {
  }

  /** Reading a uint64_t and swapping it gives the number its bytes spell in network order. */
  lemma ReadNetwork64(s: seq<byte>)
    requires |s| == 8
    ensures Ntoh64(Load64(s)) as int == FromBigEndian(s)
  {
    Widen(s[0]); Widen(s[1]); Widen(s[2]); Widen(s[3]); Widen(s[4]); Widen(s[5]); Widen(s[6]); Widen(s[7]);
    SwapLoaded(s[0] as bv64, s[1] as bv64, s[2] as bv64, s[3] as bv64,
               s[4] as bv64, s[5] as bv64, s[6] as bv64, s[7] as bv64);
    FoldOfEight(s);
    FoldIsBigEndian(s);
  }

  lemma LoadStored64(x: bv64)
    ensures Load64(MemoryBytes(x)) == x
  {
  }

  lemma SwapThenRead64(x: bv64)
    ensures FromBigEndian(MemoryBytes(Hton64(x))) == x as int
  {
    LoadStored64(Hton64(x));
    Ntoh64UndoesHton64(x);
    ReadNetwork64(MemoryBytes(Hton64(x)));
  }

  /** The bytes of hton64(n) are n in network order. */
  lemma WriteNetwork64(x: bv64, n: nat)
    requires x as int == n && n < Range(8)
    ensures MemoryBytes(Hton64(x)) == BigEndian(n, 8)
  {
    SwapThenRead64(x);
    SpellsNumber(MemoryBytes(Hton64(x)), n, 8);
  }

  // ----- the same for 16 bits -----

  lemma FromTwo(s: seq<byte>)
    requires |s| == 2
    ensures FromBigEndian(s) == s[0] as int * 256 + s[1] as int
  {
    assert s[..1][..0] == [];
    assert FromBigEndian(s[..1]) == s[0] as int;
  }

  lemma SwapHalves(lo: byte, hi: byte)
    ensures Swap16(lo as bv16 | (hi as bv16 << 8)) == (lo as bv16 << 8) | hi as bv16
  {
  }

  lemma SwapHalvesValue(lo: byte, hi: byte)
    ensures Swap16(lo as bv16 | (hi as bv16 << 8)) as int == lo as int * 256 + hi as int
  {
    SwapHalves(lo, hi);
    ShiftIn16(lo, hi);
  }

  lemma ReadNetwork16(s: seq<byte>)
    requires |s| == 2
    ensures Swap16(Load16(s)) as int == FromBigEndian(s)
  {
    var lo, hi := s[0], s[1];
    SwapHalvesValue(lo, hi);
    assert Load16(s) == lo as bv16 | (hi as bv16 << 8);
    FromTwo(s);
  }

  lemma Swap16Twice(x: bv16)
    ensures Swap16(Swap16(x)) == x
  {
  }

  lemma FirstTwo(w: bv64)
    ensures MemoryBytes(w)[..2] == [(w & 0xff) as bv8, ((w >> 8) & 0xff) as bv8]
  {
  }

  lemma LoadTwo(lo: byte, hi: byte)
    ensures Load16([lo, hi]) == lo as bv16 | (hi as bv16 << 8)
  {
  }

  lemma LoadStored16(x: bv16)
    ensures Load16(MemoryBytes(x as bv64)[..2]) == x
  {
    var w := x as bv64;
    var lo, hi := (w & 0xff) as bv8, ((w >> 8) & 0xff) as bv8;
    FirstTwo(w);
    LoadTwo(lo, hi);
    HalvesOf(x, w, lo, hi);
  }

  lemma HalvesOf(x: bv16, w: bv64, lo: byte, hi: byte)
    requires w == x as bv64
    requires lo == (w & 0xff) as bv8 && hi == ((w >> 8) & 0xff) as bv8
    ensures lo as bv16 | (hi as bv16 << 8) == x
  {
  }

  lemma SwapThenRead16(x: bv16)
    ensures FromBigEndian(MemoryBytes(Swap16(x) as bv64)[..2]) == x as int
  {
    LoadStored16(Swap16(x));
    Swap16Twice(x);
    ReadNetwork16(MemoryBytes(Swap16(x) as bv64)[..2]);
  }

  lemma SpellsNumber(s: seq<byte>, n: nat, k: nat)
    requires |s| == k && n < Range(k) && FromBigEndian(s) == n
    ensures s == BigEndian(n, k)
  {
    BigEndianRoundTrip(n, k);
    FromBigEndianInjective(s, BigEndian(n, k));
  }

  /** The two low bytes of the promoted htons(n) are n in network order. */
  lemma WriteNetwork16(x: bv16, n: nat)
    requires x as int == n && n < Range(2)
    ensures MemoryBytes(Swap16(x) as bv64)[..2] == BigEndian(n, 2)
  {
    SwapThenRead16(x);
    SpellsNumber(MemoryBytes(Swap16(x) as bv64)[..2], n, 2);
  }
}
