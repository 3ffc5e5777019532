/** socket/ws/sha1.c: SHA-1 with a 16-word rolling schedule and a shifted register array. */
module Sha1 {
  import opened Bytes
  import opened Sha1Spec
  import NetworkOrder

  const SHA1_BLOCK_BITS := 512
  const SHA1_BLOCK_BYTES := 64

  // ----- bit helpers -----

  /** rotl32, for the three counts it is called with. */
  function Rotl32(n: word, bits: int): word
    requires bits in {1, 5, 30}
  {
    if bits == 1 then (n << 1) | (n >> 31)
    else if bits == 5 then (n << 5) | (n >> 27)
    else (n << 30) | (n >> 2)
  }

  /** The sum of two uint32_t. */
  function Sum(x: word, y: word): word {
    x + y
  }

  lemma SumIsPlus(x: word, y: word)
    ensures Sum(x, y) == Plus(x, y)
  {
  }

  function ChangeEndian32(x: word): word {
    (x << 24) | (x >> 24) | ((x & 0x0000ff00) << 8) | ((x & 0x00ff0000) >> 8)
  }

  /** What dereferencing a cast to uint32_t* reads on a little-endian host. */
  function LoadWord(b: seq<byte>, t: nat): word
    requires |b| >= 4 * t + 4
  {
    b[4 * t] as word | (b[4 * t + 1] as word << 8) | (b[4 * t + 2] as word << 16) | (b[4 * t + 3] as word << 24)
  }

  lemma SwapLoaded(b0: byte, b1: byte, b2: byte, b3: byte)
    ensures ChangeEndian32(b0 as word | (b1 as word << 8) | (b2 as word << 16) | (b3 as word << 24))
            == BigEndianWord(b0, b1, b2, b3)
  {
  }

  lemma LoadedWord(b: seq<byte>, t: nat)
    requires |b| >= SHA1_BLOCK_BYTES && t < 16
    ensures ChangeEndian32(LoadWord(b, t)) == Parse(b)[t]
  {
    hide ChangeEndian32, BigEndianWord;
    SwapLoaded(b[4 * t], b[4 * t + 1], b[4 * t + 2], b[4 * t + 3]);
  }

  function Inner(fi: nat, x: word, y: word, z: word): word
    requires fi < 4
  {
    match fi
    case 0 => (x & y) ^ (!x & z)
    case 1 => (x ^ y) ^ z
    case 2 => (x & y) ^ (x & z) ^ (y & z)
    case 3 => (x ^ y) ^ z
  }

  const KS: seq<word> := [0x5a827999, 0x6ed9eba1, 0x8f1bbcdc, 0xca62c1d6]

  /** The rotating function index selects the function and the constant of the step. */
  lemma Selected(t: nat, x: word, y: word, z: word)
    requires t < 80
    ensures Inner(t / 20, x, y, z) == F(t, x, y, z) && KS[t / 20] == K(t)
  {
    hide Inner, F, K;
    Quarters(t);
    SelectedBy(t / 20, t, x, y, z);
  }

  lemma Quarters(t: nat)
    requires t < 80
    ensures t / 20 == if t < 20 then 0 else if t < 40 then 1 else if t < 60 then 2 else 3
  {
  }

  lemma SelectedBy(fi: nat, t: nat, x: word, y: word, z: word)
    requires t < 80 && fi == if t < 20 then 0 else if t < 40 then 1 else if t < 60 then 2 else 3
    ensures Inner(fi, x, y, z) == F(t, x, y, z) && KS[fi] == K(t)
  {
    hide Ch, Maj, Parity;
    InnerFunctions(x, y, z);
  }

  lemma InnerFunctions(x: word, y: word, z: word)
    ensures Inner(0, x, y, z) == Ch(x, y, z) && Inner(2, x, y, z) == Maj(x, y, z)
    ensures Inner(1, x, y, z) == Inner(3, x, y, z) == Parity(x, y, z)
  {
  }

  // ----- the rolling schedule -----

  /** One past the last word of the schedule that is known before step t. */
  function Known(t: nat): nat {
    if t < 16 then 16 else t
  }

  /** Before step t the 16 words hold the 16 latest known words of the schedule, each at its index modulo 16. */
  ghost predicate Window(w: seq<word>, m: Block, t: nat) {
    |w| == 16 && forall u: nat :: Known(t) - 16 <= u < Known(t) ==> w[u % 16] == W(m, u)
  }

  lemma WindowAtStart(m: Block)
    ensures Window(m, m, 0)
  {
  }

  lemma BackBy(t: nat, d: nat, u: nat)
    requires d < 16 <= t && u == t - 16 + d
    ensures u % 16 == (t % 16 + d) % 16
  {
    assert u == 16 * (t / 16 - 1) + (t % 16 + d);
  }

  function Mix(x: word, y: word, z: word, u: word): word {
    Rotl32(x ^ y ^ z ^ u, 1)
  }

  lemma ScheduleRule(m: Block, t: nat)
    requires t >= 16
    ensures W(m, t) == Mix(W(m, t - 3), W(m, t - 8), W(m, t - 14), W(m, t - 16))
  {
  }

  lemma InWindow(w: seq<word>, m: Block, t: nat, u: nat)
    requires Window(w, m, t) && Known(t) - 16 <= u < Known(t)
    ensures |w| == 16 && w[u % 16] == W(m, u)
  {
    hide W;
  }

  /** Where the array holds the word u of the schedule, one of the 16 before t. */
  lemma Slot(w: seq<word>, m: Block, t: nat, d: nat, u: nat, i: nat)
    requires d < 16 <= t && u == t - 16 + d && i == (t % 16 + d) % 16 && Window(w, m, t)
    ensures |w| == 16 && w[i] == W(m, u)
  {
    hide W, Window;
    BackBy(t, d, u);
    InWindow(w, m, t, u);
  }

  /** The word that is computed in place is the next one of the schedule. */
  lemma NextWord(w: seq<word>, m: Block, t: nat)
    requires t >= 16 && Window(w, m, t)
    ensures var s := t % 16;
            W(m, t) == Mix(w[(s + 13) % 16], w[(s + 8) % 16], w[(s + 2) % 16], w[s])
  {
    hide W, Mix, Window;
    var s := t % 16;
    Slot(w, m, t, 13, t - 3, (s + 13) % 16);
    Slot(w, m, t, 8, t - 8, (s + 8) % 16);
    Slot(w, m, t, 2, t - 14, (s + 2) % 16);
    Slot(w, m, t, 0, t - 16, s);
    ScheduleRule(m, t);
  }

  lemma WindowMoves(w: seq<word>, m: Block, t: nat)
    requires t >= 16 && Window(w, m, t)
    ensures Window(w[t % 16 := W(m, t)], m, t + 1)
  {
    hide W;
  }

  lemma WindowWaits(w: seq<word>, m: Block, t: nat)
    requires t < 16 && Window(w, m, t)
    ensures w[t % 16] == W(m, t) && Window(w, m, t + 1)
  {
    hide W;
  }

  // ----- the context -----

  class Context {
    const h: array<word>
    var length: nat

    ghost predicate Valid()
      reads this, h
    {
      h.Length == 5 && length < UINT64_RANGE
    }

    ghost function State(): Regs
      reads this, h
      requires Valid()
    {
      Regs(h[0], h[1], h[2], h[3], h[4])
    }

    /** sha1_init. */
    constructor ()
      ensures Valid() && fresh(h) && State() == H0 && length == 0
    {
      h := new word[5][0x67452301, 0xefcdab89, 0x98badcfe, 0x10325476, 0xc3d2e1f0];
      length := 0;
    }

    /** sha1_nextBlock. */
    method NextBlock(block: seq<byte>)
      requires Valid() && |block| >= SHA1_BLOCK_BYTES
      modifies this`length, h
      ensures Valid() && State() == Compress(old(State()), Parse(block))
      ensures length == (old(length) + SHA1_BLOCK_BITS) % UINT64_RANGE
    {
      hide W, Rounds, Parse;
      var w := LoadBlock(block);
      var a := new word[5][h[0], h[1], h[2], h[3], h[4]];
      ghost var m, start := Parse(block), State();
      RunSteps(a, w, m, start);
      AddTo(a, Rounds(start, m, 80));
      length := (length + SHA1_BLOCK_BITS) % UINT64_RANGE;
    }

    /** sha1_lastBlock: whole blocks first, then the rest with marker, zeros and length in one or two blocks. */
    method LastBlock(block: seq<byte>, bits: nat)
      requires Valid() && bits <= UINT16_MAX && (bits + 7) / 8 <= |block|
      modifies this`length, h
      ensures Valid()
      ensures State() == Hash(old(State()), CodedTail(block, bits, (old(length) + bits) % UINT64_RANGE))
    {
      hide Compress, CodedTail, Hash, Parse;
      ghost var total := (length + bits) % UINT64_RANGE;
      ghost var goal := Hash(State(), CodedTail(block, bits, total));
      var rest, left: nat := block, bits;
      while left >= SHA1_BLOCK_BITS
        invariant Valid() && left <= UINT16_MAX && (left + 7) / 8 <= |rest| && (length + left) % UINT64_RANGE == total
        invariant Hash(State(), CodedTail(rest, left, total)) == goal
      {
        BlockOfTail(State(), rest, left, total);
        CounterSteps(length, left);
        NextBlock(rest);
        left := left - SHA1_BLOCK_BITS;
        rest := rest[SHA1_BLOCK_BYTES..];
      }
      length := (length + left) % UINT64_RANGE;
      LastBits(rest, left, total);
    }

    /** The end of sha1_lastBlock: fewer bits than a block holds. */
    method LastBits(rest: seq<byte>, left: nat, ghost total: nat)
      requires Valid() && left < SHA1_BLOCK_BITS && (left + 7) / 8 <= |rest| && length == total
      modifies this`length, h
      ensures Valid() && State() == Hash(old(State()), CodedTail(rest, left, total))
    {
      hide Compress, CodedTail, Hash, Parse, Zeros, BigEndian, MarkedBytes;
      var lb := MarkedBlock(rest, left);
      Width64(total);
      if left > 512 - 64 - 1 {
        TwoBlocks(State(), rest, left, total);
        CounterCorrected(length);
        NextBlock(lb[..]);
        length := (length + UINT64_RANGE - SHA1_BLOCK_BITS) % UINT64_RANGE;
        lb := new byte[SHA1_BLOCK_BYTES](_ => 0);
        ZeroBlock(lb[..]);
      } else {
        OneBlock(State(), rest, left, total);
        assert lb[..56] == MarkedBytes(rest, left)[..56];
      }
      StoreLength(lb);
      NextBlock(lb[..]);
    }

    /** The big-endian length counter at the end of the block. */
    method StoreLength(lb: array<byte>)
      requires Valid() && lb.Length == SHA1_BLOCK_BYTES
      modifies lb
      ensures length < Range(8) && lb[..] == old(lb[..56]) + BigEndian(length, 8)
    {
      hide BigEndian, Word64, NetworkOrder.MemoryBytes, Range;
      Width64(length);
      var bytes := NetworkOrder.MemoryBytes(Word64(length, 8));
      ReversedBytes(length);
      ghost var front, number := lb[..56], BigEndian(length, 8);
      var i := 0;
      while i < 8
        invariant i <= 8
        invariant lb[..56] == front && lb[56..56 + i] == number[..i]
      {
        lb[56 + i] := bytes[7 - i];
        assert lb[56..56 + i + 1] == lb[56..56 + i] + [number[i]];
        i := i + 1;
      }
      assert number[..8] == number && lb[..] == lb[..56] + lb[56..56 + 8];
    }

    /** The registers are added to the hash value. */
    method AddTo(a: array<word>, ghost r: Regs)
      requires Valid() && a != h && a[..] == WordsOf(r)
      modifies h
      ensures Valid() && State() == Add(old(State()), r)
    {
      hide Plus, Sum, Add, PlusUpTo;
      AddOnWords(State(), r);
      ghost var before := State();
      var t := 0;
      while t < 5
        invariant t <= 5
        invariant h[..] == PlusUpTo(before, r, t)
      {
        PlusNext(before, r, t, h[..]);
        assert a[t] == a[..][t];
        SumIsPlus(h[t], a[t]);
        h[t] := Sum(h[t], a[t]);
        t := t + 1;
      }
      assert h[0] == h[..][0] && h[1] == h[..][1] && h[2] == h[..][2] && h[3] == h[..][3] && h[4] == h[..][4];
    }
  }

  // ----- the last block and the whole message -----

  lemma SwappedLow(x: bv64)
    ensures NetworkOrder.Hton64(x) & 0xff == x >> 56
    ensures (NetworkOrder.Hton64(x) >> 8) & 0xff == (x >> 48) & 0xff
    ensures (NetworkOrder.Hton64(x) >> 16) & 0xff == (x >> 40) & 0xff
    ensures (NetworkOrder.Hton64(x) >> 24) & 0xff == (x >> 32) & 0xff
  {
  }

  lemma SwappedHigh(x: bv64)
    ensures (NetworkOrder.Hton64(x) >> 32) & 0xff == (x >> 24) & 0xff
    ensures (NetworkOrder.Hton64(x) >> 40) & 0xff == (x >> 16) & 0xff
    ensures (NetworkOrder.Hton64(x) >> 48) & 0xff == (x >> 8) & 0xff
    ensures NetworkOrder.Hton64(x) >> 56 == x & 0xff
  {
  }

  lemma SwappedMemory(x: bv64)
    ensures var m := NetworkOrder.MemoryBytes(x);
            NetworkOrder.MemoryBytes(NetworkOrder.Hton64(x)) == [m[7], m[6], m[5], m[4], m[3], m[2], m[1], m[0]]
  {
    hide NetworkOrder.Hton64;
    SwappedLow(x);
    SwappedHigh(x);
  }

  lemma ReversedBytes(n: nat)
    requires n < Range(8)
    ensures forall i :: 0 <= i < 8 ==> NetworkOrder.MemoryBytes(Word64(n, 8))[7 - i] == BigEndian(n, 8)[i]
  {
    hide NetworkOrder.MemoryBytes, NetworkOrder.Hton64, BigEndian, Word64;
    NetworkOrder.WriteNetwork64(Word64(n, 8), n);
    SwappedMemory(Word64(n, 8));
  }

  /** What the code makes of the last bits of the message: the marker is set in the byte that holds them. */
  function CodedTail(msg: seq<byte>, bits: nat, total: nat): seq<byte>
    requires total < UINT64_RANGE && (bits + 7) / 8 <= |msg|
  {
    var q, r := bits / 8, bits % 8;
    Complete(msg[..q], if r == 0 then 0x80 else CodedByte(msg[q], r), total)
  }

  lemma LastByte(whole: seq<byte>, last: byte, bits: nat)
    requires bits < UINT64_RANGE
    ensures Complete(whole, last, bits)[|whole|] == last
  {
    hide BigEndian, Zeros;
  }

  /** A block with the last bits of the message, the marker and zeros. */
  function MarkedBytes(rest: seq<byte>, left: nat): (s: seq<byte>)
    requires left < SHA1_BLOCK_BITS && (left + 7) / 8 <= |rest|
    ensures |s| == SHA1_BLOCK_BYTES
  {
    var q, r := left / 8, left % 8;
    rest[..q] + [if r == 0 then 0x80 else CodedByte(rest[q], r)] + Zeros(63 - q)
  }

  method MarkedBlock(rest: seq<byte>, left: nat) returns (lb: array<byte>)
    requires left < SHA1_BLOCK_BITS && (left + 7) / 8 <= |rest|
    ensures fresh(lb) && lb.Length == SHA1_BLOCK_BYTES && lb[..] == MarkedBytes(rest, left)
  {
    hide Marker;
    lb := new byte[SHA1_BLOCK_BYTES](_ => 0);
    forall i | 0 <= i < (left + 7) / 8 {
      lb[i] := rest[i];
    }
    var q := left / 8;
    MarkerInZero(left % 8);
    lb[q] := lb[q] | Marker(left % 8);
    assert lb[..q] == rest[..q];
    assert lb[q + 1..] == Zeros(63 - q);
    assert lb[..] == lb[..q] + [lb[q]] + lb[q + 1..];
  }

  lemma ZeroBlock(s: seq<byte>)
    requires |s| >= 56 && forall i :: 0 <= i < |s| ==> s[i] == 0
    ensures s[..56] == Zeros(56)
  {
  }

  lemma MarkerInZero(r: nat)
    requires r < 8
    ensures 0 | Marker(r) == Marker(r) && Marker(0) == 0x80
  {
  }

  lemma ParseIsLocal(b: seq<byte>, t: seq<byte>)
    requires |b| >= 64
    ensures Parse(b + t) == Parse(b)
  {
    hide BigEndianWord;
  }

  lemma HashBlock(h: Regs, b: seq<byte>, t: seq<byte>)
    requires |b| == 64
    ensures Hash(h, b + t) == Hash(Compress(h, Parse(b)), t)
    ensures Hash(h, b) == Compress(h, Parse(b))
  {
    hide Parse, Compress;
    ParseIsLocal(b, t);
    assert (b + t)[64..] == t;
    assert b[64..] == [];
    assert Hash(h, b) == Hash(Compress(h, Parse(b)), []);
  }

  lemma CompleteSplits(a: seq<byte>, whole: seq<byte>, last: byte, total: nat)
    requires |a| == 64 && total < UINT64_RANGE
    ensures Complete(a + whole, last, total) == a + Complete(whole, last, total)
  {
    hide Zeros, BigEndian, ZeroBytes;
    SameZeroBytes(|whole|);
    Width64(total);
    assert Complete(a + whole, last, total) == (a + whole) + [last] + Zeros(ZeroBytes(|whole|)) + BigEndian(total, 8);
  }

  lemma SameZeroBytes(q: nat)
    ensures ZeroBytes(q + 64) == ZeroBytes(q)
  {
  }

  /** The length counter in uint64_t arithmetic. */
  lemma CounterSteps(length: nat, left: nat)
    requires left >= SHA1_BLOCK_BITS
    ensures ((length + SHA1_BLOCK_BITS) % UINT64_RANGE + (left - SHA1_BLOCK_BITS)) % UINT64_RANGE
            == (length + left) % UINT64_RANGE
  {
  }

  lemma CounterCorrected(length: nat)
    requires length < UINT64_RANGE
    ensures ((length + SHA1_BLOCK_BITS) % UINT64_RANGE + UINT64_RANGE - SHA1_BLOCK_BITS) % UINT64_RANGE == length
  {
  }

  lemma TailSplits(rest: seq<byte>, left: nat, total: nat)
    requires total < UINT64_RANGE && left >= SHA1_BLOCK_BITS && (left + 7) / 8 <= |rest|
    ensures CodedTail(rest, left, total) == rest[..64] + CodedTail(rest[64..], left - SHA1_BLOCK_BITS, total)
  {
    hide Complete, CodedByte;
    var q, r := left / 8, left % 8;
    assert (left - SHA1_BLOCK_BITS) / 8 == q - 64 && (left - SHA1_BLOCK_BITS) % 8 == r;
    var a, whole := rest[..64], rest[64..][..q - 64];
    assert rest[..q] == a + whole;
    CompleteSplits(a, whole, if r == 0 then 0x80 else CodedByte(rest[q], r), total);
  }

  /** A whole block of message bits is hashed before the tail of the rest. */
  lemma BlockOfTail(h: Regs, rest: seq<byte>, left: nat, total: nat)
    requires total < UINT64_RANGE && left >= SHA1_BLOCK_BITS && (left + 7) / 8 <= |rest|
    ensures Hash(h, CodedTail(rest, left, total))
            == Hash(Compress(h, Parse(rest)), CodedTail(rest[64..], left - SHA1_BLOCK_BITS, total))
  {
    hide Hash, Compress, Parse, CodedTail;
    TailSplits(rest, left, total);
    HashBlock(h, rest[..64], CodedTail(rest[64..], left - SHA1_BLOCK_BITS, total));
    ParseIsLocal(rest[..64], rest[64..]);
    assert rest == rest[..64] + rest[64..];
  }

  lemma OneBlock(h: Regs, rest: seq<byte>, left: nat, total: nat)
    requires total < Range(8) && total < UINT64_RANGE && left <= 447 && (left + 7) / 8 <= |rest|
    ensures var b := MarkedBytes(rest, left)[..56] + BigEndian(total, 8);
            Hash(h, CodedTail(rest, left, total)) == Compress(h, Parse(b))
  {
    hide Hash, Compress, Parse, CodedByte, BigEndian;
    var q := left / 8;
    assert ZeroBytes(q) == 55 - q;
    var b := MarkedBytes(rest, left)[..56] + BigEndian(total, 8);
    assert b == CodedTail(rest, left, total);
    HashBlock(h, b, []);
  }

  lemma TwoBlocks(h: Regs, rest: seq<byte>, left: nat, total: nat)
    requires total < Range(8) && total < UINT64_RANGE && 447 < left < SHA1_BLOCK_BITS && (left + 7) / 8 <= |rest|
    ensures var b, c := MarkedBytes(rest, left), Zeros(56) + BigEndian(total, 8);
            Hash(h, CodedTail(rest, left, total)) == Compress(Compress(h, Parse(b)), Parse(c))
  {
    hide Hash, Compress, Parse, CodedByte, BigEndian;
    var q := left / 8;
    assert ZeroBytes(q) == 119 - q;
    var b, c := MarkedBytes(rest, left), Zeros(56) + BigEndian(total, 8);
    assert Zeros(119 - q) == Zeros(63 - q) + Zeros(56);
    assert b + c == CodedTail(rest, left, total);
    HashBlock(h, b, c);
    HashBlock(Compress(h, Parse(b)), c, []);
  }

  function CodedByte(b: byte, r: nat): byte
    requires r < 8
  {
    b | Marker(r)
  }

  /** The bits behind the first r, but for the next one, are zero. */
  predicate SpareBitsClear(b: byte, r: nat)
    requires r < 8
  {
    b & !(TopBits(r) | Marker(r)) == 0
  }

  lemma KeptBits(b: byte, r: nat)
    requires r < 8
    ensures CodedByte(b, r) == MarkedByte(b, r) <==> SpareBitsClear(b, r)
  {
    hide TopBits, Marker;
    MaskedBits(b, TopBits(r), Marker(r));
  }

  lemma MaskedBits(b: byte, top: byte, marker: byte)
    ensures b | marker == (b & top) | marker <==> b & !(top | marker) == 0
  {
  }

  /** The code's tail is the standard's padding if and only if the bits of the last byte that are not part of the
      message are clear, up to the one that the marker takes. */
  lemma CodedTailIsPadding(msg: seq<byte>, bits: nat)
    requires bits < UINT64_RANGE && (bits + 7) / 8 <= |msg|
    ensures CodedTail(msg, bits, bits) == Pad(msg, bits)
            <==> (bits % 8 != 0 ==> SpareBitsClear(msg[bits / 8], bits % 8))
  {
    hide CodedByte, MarkedByte, SpareBitsClear, Complete;
    var q, r := bits / 8, bits % 8;
    if r != 0 {
      KeptBits(msg[q], r);
      LastByte(msg[..q], CodedByte(msg[q], r), bits);
      LastByte(msg[..q], MarkedByte(msg[q], r), bits);
    }
  }

  /** The first t words are summed. */
  ghost function PlusUpTo(x: Regs, y: Regs, t: nat): (s: seq<word>)
    ensures |s| == 5
  {
    seq(5, i requires 0 <= i < 5 => if i < t then Plus(WordsOf(x)[i], WordsOf(y)[i]) else WordsOf(x)[i])
  }

  lemma PlusNext(x: Regs, y: Regs, t: nat, h: seq<word>)
    requires t < 5 && h == PlusUpTo(x, y, t)
    ensures h[t := Plus(h[t], WordsOf(y)[t])] == PlusUpTo(x, y, t + 1)
  {
    hide Plus;
  }

  lemma AddOnWords(x: Regs, y: Regs)
    ensures PlusUpTo(x, y, 0) == WordsOf(x) && PlusUpTo(x, y, 5) == WordsOf(Add(x, y))
  {
    hide Plus;
  }

  ghost function WordsOf(r: Regs): (s: seq<word>)
    ensures |s| == 5
  {
    [r.a, r.b, r.c, r.d, r.e]
  }

  /** Loads the block, changing the byte order of each word. */
  method LoadBlock(block: seq<byte>) returns (w: array<word>)
    requires |block| >= SHA1_BLOCK_BYTES
    ensures fresh(w) && w[..] == Parse(block)
  {
    hide BigEndianWord;
    w := new word[16](_ => 0);
    var t := 0;
    while t < 16
      invariant t <= 16 && forall i :: 0 <= i < t ==> w[i] == Parse(block)[i]
    {
      LoadedWord(block, t);
      w[t] := ChangeEndian32(LoadWord(block, t));
      t := t + 1;
    }
  }

  /** From step 16 on, the schedule word is made in place. */
  method Advance(w: array<word>, t: nat, ghost m: Block) returns (wt: word)
    requires w.Length == 16 && Window(w[..], m, t)
    modifies w
    ensures wt == W(m, t) && Window(w[..], m, t + 1)
  {
    hide W, Window, Mix;
    var s := t % 16;
    if t >= 16 {
      NextWord(w[..], m, t);
      WindowMoves(w[..], m, t);
      w[s] := Mix(w[(s + 13) % 16], w[(s + 8) % 16], w[(s + 2) % 16], w[s]);
    } else {
      WindowWaits(w[..], m, t);
    }
    wt := w[s];
  }

  function Temp(a0: word, f: word, a4: word, k: word, wt: word): word {
    Sum(Sum(Sum(Sum(Rotl32(a0, 5), f), a4), k), wt)
  }

  function Rotated30(x: word): word {
    Rotl32(x, 30)
  }

  lemma SumsArePluses(x: word, f: word, e: word, k: word, w: word)
    ensures Sum(Sum(Sum(Sum(x, f), e), k), w) == Plus(Plus(Plus(Plus(x, f), e), k), w)
  {
    hide Sum, Plus;
    SumIsPlus(x, f);
    SumIsPlus(Plus(x, f), e);
    SumIsPlus(Plus(Plus(x, f), e), k);
    SumIsPlus(Plus(Plus(Plus(x, f), e), k), w);
  }

  lemma StepOnWords(r: Regs, t: nat, wt: word)
    requires t < 80
    ensures WordsOf(Step(r, t, wt))
            == [Temp(r.a, Inner(t / 20, r.b, r.c, r.d), r.e, KS[t / 20], wt), r.a, Rotated30(r.b), r.c, r.d]
  {
    hide Inner, F, K, Rotl32, Rotl5, Rotl30, Plus, Sum;
    Selected(t, r.b, r.c, r.d);
    SumsArePluses(Rotl5(r.a), F(t, r.b, r.c, r.d), r.e, K(t), wt);
    Rotations(r.a);
    Rotations(r.b);
  }

  lemma Rotations(x: word)
    ensures Rotl32(x, 5) == Rotl5(x) && Rotl32(x, 30) == Rotl30(x)
  {
  }

  /** One step on the registers: they are shifted and two of them are set. */
  method OneStep(a: array<word>, wt: word, t: nat, fi: nat, ghost r: Regs)
    requires t < 80 && fi == t / 20 && a.Length == 5 && a[..] == WordsOf(r)
    modifies a
    ensures a[..] == WordsOf(Step(r, t, wt))
  {
    hide Inner, Step, Temp, Rotated30;
    StepOnWords(r, t, wt);
    assert a[0] == a[..][0] && a[1] == a[..][1] && a[2] == a[..][2] && a[3] == a[..][3] && a[4] == a[..][4];
    var temp := Temp(a[0], Inner(fi, a[1], a[2], a[3]), a[4], KS[fi], wt);
    a[1], a[2], a[3], a[4] := a[0], a[1], a[2], a[3];
    a[0] := temp;
    a[2] := Rotated30(a[2]);
  }

  lemma Indices(t: nat)
    ensures t % 20 + 1 == 20 ==> (t + 1) % 20 == 0 && (t + 1) / 20 == t / 20 + 1
    ensures t % 20 + 1 < 20 ==> (t + 1) % 20 == t % 20 + 1 && (t + 1) / 20 == t / 20
  {
  }

  /** The 80 steps, with the function index advanced every 20 of them. */
  method RunSteps(a: array<word>, w: array<word>, ghost m: Block, ghost h: Regs)
    requires a.Length == 5 && w.Length == 16 && a != w && a[..] == WordsOf(h) && w[..] == m
    modifies a, w
    ensures a[..] == WordsOf(Rounds(h, m, 80))
  {
    hide Step, W, Window;
    var fi, fib, t := 0, 0, 0;
    WindowAtStart(m);
    while t <= 79
      invariant t <= 80 && fi == t / 20 % 4 && fib == t % 20 < 20
      invariant a[..] == WordsOf(Rounds(h, m, t)) && Window(w[..], m, t)
    {
      var wt := Advance(w, t, m);
      OneStep(a, wt, t, fi, Rounds(h, m, t));
      Indices(t);
      fib := fib + 1;
      if fib == 20 {
        fib := 0;
        fi := (fi + 1) % 4;
      }
      t := t + 1;
    }
  }

  /** sha1: length is the number of bits. */
  method Sha1(msg: seq<byte>, length: nat) returns (dest: seq<byte>)
    requires length <= UINT32_MAX && (length + 7) / 8 <= |msg|
    ensures dest == Digest(Hash(H0, CodedTail(msg, length, length)))
    ensures length % 8 == 0 || SpareBitsClear(msg[length / 8], length % 8) ==> dest == Sha1Spec.Sha1(msg, length)
  {
    hide Compress, CodedTail, Hash, Parse, Digest, SpareBitsClear;
    var s := new Context();
    ghost var goal := Hash(H0, CodedTail(msg, length, length));
    var rest, left: nat := msg, length;
    // length & ~0x1ff: the bits above the low nine
    while left / SHA1_BLOCK_BITS != 0
      invariant fresh(s) && fresh(s.h) && s.Valid() && left <= length && (left + 7) / 8 <= |rest|
      invariant s.length == length - left
      invariant Hash(s.State(), CodedTail(rest, left, length)) == goal
    {
      BlockOfTail(s.State(), rest, left, length);
      s.NextBlock(rest);
      rest := rest[SHA1_BLOCK_BYTES..];
      left := left - SHA1_BLOCK_BITS;
    }
    s.LastBlock(rest, left);
    assert s.State() == goal;
    dest := ContextToHash(s);
    CodedTailIsPadding(msg, length);
  }

  /** sha1_ctx2hash: five stores of byte-swapped words. */
  method ContextToHash(s: Context) returns (dest: seq<byte>)
    requires s.Valid()
    ensures dest == Digest(s.State())
  {
    hide WordBytes;
    StoredWord(s.h[0]);
    StoredWord(s.h[1]);
    StoredWord(s.h[2]);
    StoredWord(s.h[3]);
    StoredWord(s.h[4]);
    StoredAll(s.State());
    dest := [];
    var i := 0;
    while i < 5
      invariant i <= 5
      invariant dest == StoredUpTo(s.State(), i)
    {
      dest := dest + WordMemory(ChangeEndian32(s.h[i]));
      i := i + 1;
    }
  }

  ghost function StoredUpTo(h: Regs, i: nat): seq<byte>
    requires i <= 5
  {
    if i == 0 then [] else StoredUpTo(h, i - 1) + WordBytes(WordsOf(h)[i - 1])
  }

  lemma StoredAll(h: Regs)
    ensures StoredUpTo(h, 5) == Digest(h)
  {
    hide WordBytes;
    assert StoredUpTo(h, 1) == StoredUpTo(h, 0) + WordBytes(h.a) == WordBytes(h.a);
    assert StoredUpTo(h, 2) == StoredUpTo(h, 1) + WordBytes(h.b);
    assert StoredUpTo(h, 3) == StoredUpTo(h, 2) + WordBytes(h.c);
    assert StoredUpTo(h, 4) == StoredUpTo(h, 3) + WordBytes(h.d);
  }

  /** What a cast of &x to char* reads on a little-endian host. */
  function WordMemory(x: word): seq<byte> {
    [(x & 0xff) as byte, ((x >> 8) & 0xff) as byte, ((x >> 16) & 0xff) as byte, (x >> 24) as byte]
  }

  lemma StoredWord(x: word)
    ensures WordMemory(ChangeEndian32(x)) == WordBytes(x)
  {
  }
}
