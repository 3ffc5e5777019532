/** socket/ws/base64_enc.c. */
module Base64Enc {
  import opened Bytes
  import opened Base64Spec

  function Bit6ToAscii(b: byte): char {
    var a := (b & 0x3f) as int;
    if a <= 25 then (a + 65) as char
    else if a <= 51 then (a - 26 + 97) as char
    else if a <= 61 then (a - 52 + 48) as char
    else if a == 62 then '+'
    else '/'
  }

  lemma SixBits(b: byte)
    ensures (b & 0x3f) as int < 64
    ensures b < 64 ==> (b & 0x3f) as int == b as int
  {
  }

  lemma AlphabetLetter(b: byte)
    ensures (b & 0x3f) as int < 64 && Bit6ToAscii(b) == Alphabet()[(b & 0x3f) as int]
  {
    SixBits(b);
    LetterAt((b & 0x3f) as int);
  }

  lemma LetterAt(v: nat)
    requires v < 64
    ensures Alphabet()[v]
            == if v <= 25 then (v + 65) as char
               else if v <= 51 then (v - 26 + 97) as char
               else if v <= 61 then (v - 52 + 48) as char
               else if v == 62 then '+'
               else '/'
  {
  }

  // ----- the shifts, with C's promotion of uint8_t to a wider type -----

  function First(b0: byte): byte { b0 >> 2 }

  function Second(b0: byte, b1: byte): byte {
    (((b0 as bv16 << 4) | (b1 as bv16 >> 4)) & 0x3f) as byte
  }

  function Third(b1: byte, b2: byte): byte {
    (((b1 as bv16 << 2) | (b2 as bv16 >> 6)) & 0x3f) as byte
  }

  function Fourth(b2: byte): byte { b2 & 0x3f }

  lemma FirstValue(b0: byte)
    ensures First(b0) < 64 && First(b0) as int == b0 as int / 4
  {
  }

  lemma SecondParts(b0: byte, b1: byte)
    ensures b1 >> 4 < 16 && b0 & 0x3 < 4
    ensures Second(b0, b1) == ((b0 & 0x3) << 4) | (b1 >> 4)
  {
  }

  lemma LowTwoBits(b: byte)
    ensures (b & 0x3) as int == b as int % 4
  {
  }

  lemma HighFourBits(b: byte)
    ensures (b >> 4) as int == b as int / 16
  {
  }

  lemma LowFourBits(b: byte)
    ensures (b & 0xf) as int == b as int % 16
  {
  }

  lemma HighTwoBits(b: byte)
    ensures (b >> 6) as int == b as int / 64
  {
  }

  lemma TwoThenFour(hi: byte, lo: byte)
    requires hi < 4 && lo < 16
    ensures (hi << 4) | lo < 64 && ((hi << 4) | lo) as int == hi as int * 16 + lo as int
  {
  }

  lemma FourThenTwo(hi: byte, lo: byte)
    requires hi < 16 && lo < 4
    ensures (hi << 2) | lo < 64 && ((hi << 2) | lo) as int == hi as int * 4 + lo as int
  {
  }

  lemma SecondValue(b0: byte, b1: byte)
    ensures Second(b0, b1) < 64 && Second(b0, b1) as int == b0 as int % 4 * 16 + b1 as int / 16
  {
    hide Second;
    SecondParts(b0, b1);
    LowTwoBits(b0);
    HighFourBits(b1);
    TwoThenFour(b0 & 0x3, b1 >> 4);
  }

  lemma ThirdParts(b1: byte, b2: byte)
    ensures b2 >> 6 < 4 && b1 & 0xf < 16
    ensures Third(b1, b2) == ((b1 & 0xf) << 2) | (b2 >> 6)
  {
  }

  lemma ThirdValue(b1: byte, b2: byte)
    ensures Third(b1, b2) < 64 && Third(b1, b2) as int == b1 as int % 16 * 4 + b2 as int / 64
  {
    hide Third;
    ThirdParts(b1, b2);
    LowFourBits(b1);
    HighTwoBits(b2);
    FourThenTwo(b1 & 0xf, b2 >> 6);
  }

  lemma FourthValue(b2: byte)
    ensures Fourth(b2) < 64 && Fourth(b2) as int == b2 as int % 64
  {
  }

  /** The four letters that the code writes for a group. */
  function GroupText(b0: byte, b1: byte, b2: byte): (s: string)
    ensures |s| == 4
  {
    [Bit6ToAscii(First(b0)), Bit6ToAscii(Second(b0, b1)), Bit6ToAscii(Third(b1, b2)), Bit6ToAscii(Fourth(b2))]
  }

  lemma LetterOf(a: byte, v: nat)
    requires a < 64 && a as int == v
    ensures v < 64 && Bit6ToAscii(a) == Alphabet()[v]
  {
    SixBits(a);
    AlphabetLetter(a);
  }

  lemma SextetValues(b0: byte, b1: byte, b2: byte)
    ensures var v := Sextets(Join(b0, b1, b2));
            && First(b0) < 64 && First(b0) as int == v[0]
            && Second(b0, b1) < 64 && Second(b0, b1) as int == v[1]
            && Third(b1, b2) < 64 && Third(b1, b2) as int == v[2]
            && Fourth(b2) < 64 && Fourth(b2) as int == v[3]
  {
    hide First, Second, Third, Fourth, Sextets, Join;
    SextetsOfJoin(b0, b1, b2);
    FirstValue(b0);
    SecondValue(b0, b1);
    ThirdValue(b1, b2);
    FourthValue(b2);
  }

  lemma GroupLetters(b0: byte, b1: byte, b2: byte)
    ensures GroupText(b0, b1, b2) == Letters(b0, b1, b2, 4)
    ensures GroupText(b0, b1, b2)[..3] == Letters(b0, b1, b2, 3) && GroupText(b0, b1, b2)[..2] == Letters(b0, b1, b2, 2)
  {
    hide First, Second, Third, Fourth, Bit6ToAscii, Alphabet, Sextets, Join;
    var v := Sextets(Join(b0, b1, b2));
    SextetValues(b0, b1, b2);
    LetterOf(First(b0), v[0]);
    LetterOf(Second(b0, b1), v[1]);
    LetterOf(Third(b1, b2), v[2]);
    LetterOf(Fourth(b2), v[3]);
  }

  /** Whole groups are encoded apart from what follows them. */
  lemma {:induction false} EncodeSplits(a: seq<byte>, b: seq<byte>)
    requires |a| % 3 == 0
    ensures Base64Spec.Encode(a + b) == Base64Spec.Encode(a) + Base64Spec.Encode(b)
    decreases |a|
  {
    hide Letters;
    if a == [] {
      assert a + b == b;
    } else {
      assert (a + b)[3..] == a[3..] + b;
      EncodeSplits(a[3..], b);
    }
  }

  lemma GroupAppended(src: seq<byte>, i: nat)
    requires 3 * i + 3 <= |src|
    ensures Base64Spec.Encode(src[..3 * i + 3])
            == Base64Spec.Encode(src[..3 * i]) + Letters(src[3 * i], src[3 * i + 1], src[3 * i + 2], 4)
  {
    hide Letters;
    var g := src[3 * i..3 * i + 3];
    assert src[..3 * i + 3] == src[..3 * i] + g;
    EncodeSplits(src[..3 * i], g);
    assert g[3..] == [];
  }

  /** base64enc: writes the text and a terminator through a moving destination pointer. */
  method Encode(dest: array<char>, src: seq<byte>, length: nat)
    requires length <= UINT16_MAX && length == |src| && dest.Length > (length + 2) / 3 * 4
    modifies dest
    ensures var text := Base64Spec.Encode(src);
            && |text| + 1 <= dest.Length
            && dest[..] == text + ['\0'] + old(dest[..])[|text| + 1..]
  {
    hide GroupText, Letters, Base64Spec.Encode;
    ghost var before := dest[..];
    TextLength(src);
    TextLength([]);
    var i, at := 0, 0;
    while i < length / 3
      invariant i <= length / 3 && at == 4 * i
      invariant at == |Base64Spec.Encode(src[..3 * i])|
      invariant dest[..] == Base64Spec.Encode(src[..3 * i]) + before[at..]
    {
      GroupAppended(src, i);
      GroupLetters(src[3 * i], src[3 * i + 1], src[3 * i + 2]);
      Overwrite(Base64Spec.Encode(src[..3 * i]), before, Letters(src[3 * i], src[3 * i + 1], src[3 * i + 2], 4));
      WriteText(dest, at, GroupText(src[3 * i], src[3 * i + 1], src[3 * i + 2]));
      at := at + 4;
      i := i + 1;
    }
    EncodeRest(dest, src, i, at, before);
  }

  /** The rest of the data, padded, and the terminator. */
  method EncodeRest(dest: array<char>, src: seq<byte>, i: nat, at: nat, ghost before: string)
    requires i == |src| / 3 && |before| == dest.Length > (|src| + 2) / 3 * 4
    requires at == |Base64Spec.Encode(src[..3 * i])| == 4 * i
    requires dest[..] == Base64Spec.Encode(src[..3 * i]) + before[at..]
    modifies dest
    ensures var text := Base64Spec.Encode(src);
            && |text| + 1 <= dest.Length
            && dest[..] == text + ['\0'] + before[|text| + 1..]
  {
    hide Base64Spec.Encode;
    var rest := src[3 * i..];
    ghost var done := Base64Spec.Encode(src[..3 * i]);
    TextLength(src);
    EncodeSplits(src[..3 * i], rest);
    assert src == src[..3 * i] + rest;
    var tail := RestOf(rest);
    ghost var text := done + tail;
    assert text == Base64Spec.Encode(src) && |text| == at + |tail| < |before|;
    Overwrite(done, before, tail);
    WriteText(dest, at, tail);
    assert dest[..] == text + before[|text|..];
    Overwrite(text, before, ['\0']);
    WriteText(dest, at + |tail|, ['\0']);
  }

  /** The switch over the bytes left. */
  method RestOf(rest: seq<byte>) returns (tail: string)
    requires |rest| < 3
    ensures tail == Base64Spec.Encode(rest)
  {
    hide GroupText, Base64Spec.Encode;
    RestText(rest);
    match |rest| {
      case 1 =>
        tail := GroupText(rest[0], 0, 0)[..2] + "==";
      case 2 =>
        tail := GroupText(rest[0], rest[1], 0)[..3] + "=";
      case _ =>
        tail := [];
    }
  }

  lemma Overwrite(done: string, before: string, text: string)
    requires |done| + |text| <= |before|
    ensures var s := done + before[|done|..];
            s[..|done|] + text + s[|done| + |text|..] == (done + text) + before[|done + text|..]
  {
  }

  lemma RestText(rest: seq<byte>)
    ensures rest == [] ==> Base64Spec.Encode(rest) == []
    ensures |rest| == 1 ==> Base64Spec.Encode(rest) == GroupText(rest[0], 0, 0)[..2] + "=="
    ensures |rest| == 2 ==> Base64Spec.Encode(rest) == GroupText(rest[0], rest[1], 0)[..3] + "="
  {
    hide GroupText, Letters;
    if |rest| == 1 {
      GroupLetters(rest[0], 0, 0);
    } else if |rest| == 2 {
      GroupLetters(rest[0], rest[1], 0);
    }
  }

  /** *dest++ = ... for each character of the text. */
  method WriteText(dest: array<char>, at: nat, text: string)
    requires at + |text| <= dest.Length
    modifies dest
    ensures dest[..] == old(dest[..])[..at] + text + old(dest[..])[at + |text|..]
  {
    ghost var before := dest[..];
    var j := 0;
    while j < |text|
      invariant j <= |text|
      invariant dest[..] == before[..at] + text[..j] + before[at + j..]
    {
      WroteOne(before, at, text, j);
      dest[at + j] := text[j];
      j := j + 1;
    }
    assert text[..j] == text;
  }

  lemma WroteOne(before: string, at: nat, text: string, j: nat)
    requires j < |text| && at + |text| <= |before|
    ensures (before[..at] + text[..j] + before[at + j..])[at + j := text[j]]
            == before[..at] + text[..j + 1] + before[at + j + 1..]
  {
  }
}
