/** The example of section 1.3 of RFC 6455: the digest of its sample key and the GUID, whose 60 bytes fill two blocks.
    The message schedule is given in rows of eight words, the working variables after every eight steps.
 */
module SampleDigest {
  import opened Bytes
  import opened Sha1Spec
  import Sha1Code = Sha1

  // ----- eight steps at a time -----

  type EightWords = s: seq<word> | |s| == 8 witness seq(8, _ => 0)

  /** Eight steps from t on with the given words of the schedule. */
  function Eight(r: Regs, t: nat, ws: EightWords): Regs {
    var r1 := Step(r, t, ws[0]);
    var r2 := Step(r1, t + 1, ws[1]);
    var r3 := Step(r2, t + 2, ws[2]);
    var r4 := Step(r3, t + 3, ws[3]);
    var r5 := Step(r4, t + 4, ws[4]);
    var r6 := Step(r5, t + 5, ws[5]);
    var r7 := Step(r6, t + 6, ws[6]);
    Step(r7, t + 7, ws[7])
  }

  function Mixed(x: word, y: word, z: word, u: word): word { Rotl1(x ^ y ^ z ^ u) }

  /** The row of the schedule behind two others. */
  function NextRow(a: EightWords, b: EightWords): EightWords {
    var c0 := Mixed(b[5], b[0], a[2], a[0]);
    var c1 := Mixed(b[6], b[1], a[3], a[1]);
    var c2 := Mixed(b[7], b[2], a[4], a[2]);
    var c3 := Mixed(c0, b[3], a[5], a[3]);
    var c4 := Mixed(c1, b[4], a[6], a[4]);
    var c5 := Mixed(c2, b[5], a[7], a[5]);
    var c6 := Mixed(c3, b[6], b[0], a[6]);
    var c7 := Mixed(c4, b[7], b[1], a[7]);
    [c0, c1, c2, c3, c4, c5, c6, c7]
  }

  function Row(m: Block, t: nat): EightWords {
    [W(m, t), W(m, t + 1), W(m, t + 2), W(m, t + 3), W(m, t + 4), W(m, t + 5), W(m, t + 6), W(m, t + 7)]
  }

  lemma Rule(m: Block, t: nat)
    requires t >= 16
    ensures W(m, t) == Mixed(W(m, t - 3), W(m, t - 8), W(m, t - 14), W(m, t - 16))
  {
    hide Rotl1;
  }

  lemma IsRow(m: Block, t: nat, c: EightWords)
    ensures c == Row(m, t)
            <==> c[0] == W(m, t) && c[1] == W(m, t + 1) && c[2] == W(m, t + 2) && c[3] == W(m, t + 3)
                 && c[4] == W(m, t + 4) && c[5] == W(m, t + 5) && c[6] == W(m, t + 6) && c[7] == W(m, t + 7)
  {
    hide W;
  }

  lemma NextWords(a: EightWords, b: EightWords)
    ensures var c := NextRow(a, b);
            && c[0] == Mixed(b[5], b[0], a[2], a[0])
            && c[1] == Mixed(b[6], b[1], a[3], a[1])
            && c[2] == Mixed(b[7], b[2], a[4], a[2])
            && c[3] == Mixed(c[0], b[3], a[5], a[3])
            && c[4] == Mixed(c[1], b[4], a[6], a[4])
            && c[5] == Mixed(c[2], b[5], a[7], a[5])
            && c[6] == Mixed(c[3], b[6], b[0], a[6])
            && c[7] == Mixed(c[4], b[7], b[1], a[7])
  {
    hide Mixed;
  }

  lemma RowsFollow(m: Block, t: nat)
    ensures NextRow(Row(m, t), Row(m, t + 8)) == Row(m, t + 16)
  {
    hide *;
    var a, b := Row(m, t), Row(m, t + 8);
    IsRow(m, t, a);
    IsRow(m, t + 8, b);
    NextWords(a, b);
    Rule(m, t + 16);
    Rule(m, t + 17);
    Rule(m, t + 18);
    Rule(m, t + 19);
    Rule(m, t + 20);
    Rule(m, t + 21);
    Rule(m, t + 22);
    Rule(m, t + 23);
    IsRow(m, t + 16, NextRow(a, b));
  }

  lemma RoundsInEights(h: Regs, m: Block, t: nat)
    ensures Eight(Rounds(h, m, t), t, Row(m, t)) == Rounds(h, m, t + 8)
  {
    hide Step, W, Rounds;
    OneRound(h, m, t);
    OneRound(h, m, t + 1);
    OneRound(h, m, t + 2);
    OneRound(h, m, t + 3);
    OneRound(h, m, t + 4);
    OneRound(h, m, t + 5);
    OneRound(h, m, t + 6);
    OneRound(h, m, t + 7);
  }

  lemma OneRound(h: Regs, m: Block, t: nat)
    ensures Rounds(h, m, t + 1) == Step(Rounds(h, m, t), t, W(m, t))
  {
    hide Step, W;
  }

  // ----- the first block -----

  const First0: EightWords := [
    0x6447686c, 0x49484e68, 0x62584273, 0x5a534275, 0x6232356a, 0x5a513d3d, 0x32353845, 0x41464135]

  const First1: EightWords := [
    0x2d453931, 0x342d3437, 0x44412d39, 0x3543412d, 0x43354142, 0x30444338, 0x35423131, 0x80000000]

  const First2: EightWords := [
    0x363ca02c, 0x24e81236, 0x8856b441, 0x06fb3c92, 0x6fb4bcb6, 0x460b16e3, 0x599219ae, 0x35bf9369]

  const First3: EightWords := [
    0x3267458e, 0xf828fd04, 0x753a96a7, 0x6336f612, 0xc3d66383, 0x06eb86f9, 0x73b4fd42, 0xa503c5b8]

  const First4: EightWords := [
    0x15cdae35, 0x531e5dc5, 0x6fb6b7d0, 0x6c16e4ac, 0x4ddd36bd, 0x35d36946, 0xe8ae8b9c, 0x4a933ad0]

  const First5: EightWords := [
    0xce8628b4, 0x415dba9e, 0x2792f049, 0x8e9b79e7, 0x79c425c5, 0x6353b49d, 0x00994218, 0x8a950ed1]

  const First6: EightWords := [
    0xaf5d0b99, 0xfd9883de, 0x1ed8ffeb, 0xf007ff28, 0x425e3674, 0x059631c0, 0xad6c3c31, 0x860b71d7]

  const First7: EightWords := [
    0x87bfc548, 0x3e64f92d, 0x8d0ab761, 0x34e1ee35, 0x0acf5108, 0xc2b479da, 0x6c93370a, 0xf7935ba1]

  const First8: EightWords := [
    0xe91c91c1, 0xbed165a2, 0x4c3e4abe, 0x50d96238, 0xb6587dde, 0x1a2ee6e6, 0x2d335896, 0xf3495d0b]

  const First9: EightWords := [
    0xf30e0a1d, 0x32ce5459, 0x7165e3b8, 0xab05ff94, 0xc5949f0b, 0xbcd84e4a, 0x07720392, 0xff3ff806]

  const FirstRegs0 := Regs(0x67452301, 0xefcdab89, 0x98badcfe, 0x10325476, 0xc3d2e1f0)
  const FirstRegs1 := Regs(0x2e0ce601, 0x73553e84, 0x5cc82e5a, 0xb7631f04, 0x14f80e6b)
  const FirstRegs2 := Regs(0xa004c468, 0xe922cc9d, 0xab86825b, 0xd86f6caf, 0x8d33ae61)
  const FirstRegs3 := Regs(0x250e26ef, 0xbeafd554, 0xb44bc2d5, 0xd4611c28, 0x0246ae5f)
  const FirstRegs4 := Regs(0xa6680a1f, 0xb7dabc8b, 0x4206d8f9, 0xc6aec70d, 0x95c7df60)
  const FirstRegs5 := Regs(0x2ba2c83e, 0xd0869081, 0x1a1d8209, 0xd3334889, 0x2779e4f2)
  const FirstRegs6 := Regs(0xabe1748a, 0xdee4b7a8, 0x5cbfccd3, 0x97d7cd14, 0xdb71a8f5)
  const FirstRegs7 := Regs(0x7e1242f2, 0x50c9104c, 0x131822b1, 0x49b1a4e5, 0x4439fd9c)
  const FirstRegs8 := Regs(0x685e2ff6, 0x840054d3, 0xe43c0363, 0x3350802e, 0x921cb616)
  const FirstRegs9 := Regs(0x7e65e044, 0x80d59773, 0x81ce06df, 0xa59b8126, 0x33e1963b)
  const FirstRegs10 := Regs(0xf48a5426, 0x835995e1, 0x25c11efb, 0x4a45c402, 0x9a73c2f2)

  lemma FirstRows()
    ensures NextRow(First0, First1) == First2
    ensures NextRow(First1, First2) == First3
    ensures NextRow(First2, First3) == First4
    ensures NextRow(First3, First4) == First5
    ensures NextRow(First4, First5) == First6
    ensures NextRow(First5, First6) == First7
    ensures NextRow(First6, First7) == First8
    ensures NextRow(First7, First8) == First9
  {
  }

  lemma FirstStepsAtFirst()
    ensures Eight(FirstRegs0, 0, First0) == FirstRegs1
    ensures Eight(FirstRegs1, 8, First1) == FirstRegs2
    ensures Eight(FirstRegs2, 16, First2) == FirstRegs3
    ensures Eight(FirstRegs3, 24, First3) == FirstRegs4
    ensures Eight(FirstRegs4, 32, First4) == FirstRegs5
  {
  }

  lemma FirstStepsThenOn()
    ensures Eight(FirstRegs5, 40, First5) == FirstRegs6
    ensures Eight(FirstRegs6, 48, First6) == FirstRegs7
    ensures Eight(FirstRegs7, 56, First7) == FirstRegs8
    ensures Eight(FirstRegs8, 64, First8) == FirstRegs9
    ensures Eight(FirstRegs9, 72, First9) == FirstRegs10
  {
  }

  lemma FirstSchedule(m: Block)
    requires Row(m, 0) == First0 && Row(m, 8) == First1
    ensures Row(m, 16) == First2
    ensures Row(m, 24) == First3
    ensures Row(m, 32) == First4
    ensures Row(m, 40) == First5
    ensures Row(m, 48) == First6
    ensures Row(m, 56) == First7
    ensures Row(m, 64) == First8
    ensures Row(m, 72) == First9
  {
    hide *;
    FirstRows();
    RowsFollow(m, 0);
    RowsFollow(m, 8);
    RowsFollow(m, 16);
    RowsFollow(m, 24);
    RowsFollow(m, 32);
    RowsFollow(m, 40);
    RowsFollow(m, 48);
    RowsFollow(m, 56);
  }

  lemma FirstRounds(m: Block)
    requires Row(m, 0) == First0 && Row(m, 8) == First1
    ensures Rounds(FirstRegs0, m, 80) == FirstRegs10
  {
    hide *;
    FirstSchedule(m);
    FirstStepsAtFirst();
    FirstStepsThenOn();
    NoRounds(FirstRegs0, m);
    RoundsInEights(FirstRegs0, m, 0);
    RoundsInEights(FirstRegs0, m, 8);
    RoundsInEights(FirstRegs0, m, 16);
    RoundsInEights(FirstRegs0, m, 24);
    RoundsInEights(FirstRegs0, m, 32);
    RoundsInEights(FirstRegs0, m, 40);
    RoundsInEights(FirstRegs0, m, 48);
    RoundsInEights(FirstRegs0, m, 56);
    RoundsInEights(FirstRegs0, m, 64);
    RoundsInEights(FirstRegs0, m, 72);
  }

  lemma FirstSum()
    ensures Add(FirstRegs0, FirstRegs10) == SecondRegs0
  {
  }

  lemma FirstCompressed(m: Block)
    requires m == First0 + First1
    ensures Compress(FirstRegs0, m) == SecondRegs0
  {
    hide *;
    RowsOfBlock(m, First0, First1);
    FirstRounds(m);
    FirstSum();
    CompressIs(FirstRegs0, m);
  }

  // ----- the second block -----

  const Second0: EightWords := [
    0x00000000, 0x00000000, 0x00000000, 0x00000000, 0x00000000, 0x00000000, 0x00000000, 0x00000000]

  const Second1: EightWords := [
    0x00000000, 0x00000000, 0x00000000, 0x00000000, 0x00000000, 0x00000000, 0x00000000, 0x000001e0]

  const Second2: EightWords := [
    0x00000000, 0x00000000, 0x000003c0, 0x00000000, 0x00000000, 0x00000780, 0x00000000, 0x000003c0]

  const Second3: EightWords := [
    0x00000f00, 0x00000000, 0x00000000, 0x00001e00, 0x00000000, 0x00000cc0, 0x00003c00, 0x00000440]

  const Second4: EightWords := [
    0x00000000, 0x00007800, 0x00000f00, 0x00003300, 0x0000f000, 0x00000f00, 0x00000000, 0x0001ef00]

  const Second5: EightWords := [
    0x00000000, 0x0000cc00, 0x0003c000, 0x00004380, 0x00000000, 0x00078f00, 0x0000ff00, 0x00032680]

  const Second6: EightWords := [
    0x000f0000, 0x0000f000, 0x00003300, 0x001eff00, 0x00000000, 0x000cb800, 0x003c0000, 0x00040b00]

  const Second7: EightWords := [
    0x0000f000, 0x0078ff00, 0x000ff000, 0x00338700, 0x00f00000, 0x000fc300, 0x0000f000, 0x01efbb00]

  const Second8: EightWords := [
    0x00000000, 0x00cc0000, 0x03c0f000, 0x00438000, 0x00000000, 0x078f0000, 0x00ff0000, 0x03269e00]

  const Second9: EightWords := [
    0x0f000000, 0x00f0f000, 0x00333c00, 0x1eff8800, 0x00000000, 0x0cb88800, 0x3c00f000, 0x040a4a00]

  const SecondRegs0 := Regs(0x5bcf7727, 0x7327416a, 0xbe7bfbf9, 0x5a781878, 0x5e46a4e2)
  const SecondRegs1 := Regs(0x25c018be, 0xb3bbcafe, 0xe4e97bee, 0xb90f74bc, 0xc5615548)
  const SecondRegs2 := Regs(0x986df268, 0x990b7be7, 0xab50fce7, 0x195db4b7, 0x4941806b)
  const SecondRegs3 := Regs(0x53c73650, 0x3e5179e7, 0x103ef3e6, 0xc48c56ca, 0x4a8022d4)
  const SecondRegs4 := Regs(0x3cf6eb58, 0xf4ddd7b7, 0xc90fb815, 0xbd5f2d4f, 0xe4c9f7db)
  const SecondRegs5 := Regs(0x6f698f1a, 0xc6ff0cd3, 0xde5ab7bc, 0x5f6f3cbb, 0x1da48a85)
  const SecondRegs6 := Regs(0xa3ef857e, 0xc8cda3da, 0xcef6480e, 0xff1ef4d7, 0xc7a4d2b3)
  const SecondRegs7 := Regs(0xa1b68141, 0x660dd0b1, 0x0b1cef5e, 0xe795018d, 0xd7f8a8f6)
  const SecondRegs8 := Regs(0xa5937450, 0xd5ef1ed7, 0xc444cbe3, 0xddd22788, 0x558467c6)
  const SecondRegs9 := Regs(0xc90888ca, 0xf6d1afee, 0x6fce9fe5, 0x538d8f6e, 0x025e9447)
  const SecondRegs10 := Regs(0x57aad805, 0x4d3b0dac, 0xd27a4a0d, 0x74c040cd, 0x54782008)

  lemma SecondRows()
    ensures NextRow(Second0, Second1) == Second2
    ensures NextRow(Second1, Second2) == Second3
    ensures NextRow(Second2, Second3) == Second4
    ensures NextRow(Second3, Second4) == Second5
    ensures NextRow(Second4, Second5) == Second6
    ensures NextRow(Second5, Second6) == Second7
    ensures NextRow(Second6, Second7) == Second8
    ensures NextRow(Second7, Second8) == Second9
  {
  }

  lemma SecondStepsAtFirst()
    ensures Eight(SecondRegs0, 0, Second0) == SecondRegs1
    ensures Eight(SecondRegs1, 8, Second1) == SecondRegs2
    ensures Eight(SecondRegs2, 16, Second2) == SecondRegs3
    ensures Eight(SecondRegs3, 24, Second3) == SecondRegs4
    ensures Eight(SecondRegs4, 32, Second4) == SecondRegs5
  {
  }

  lemma SecondStepsThenOn()
    ensures Eight(SecondRegs5, 40, Second5) == SecondRegs6
    ensures Eight(SecondRegs6, 48, Second6) == SecondRegs7
    ensures Eight(SecondRegs7, 56, Second7) == SecondRegs8
    ensures Eight(SecondRegs8, 64, Second8) == SecondRegs9
    ensures Eight(SecondRegs9, 72, Second9) == SecondRegs10
  {
  }

  lemma SecondSchedule(m: Block)
    requires Row(m, 0) == Second0 && Row(m, 8) == Second1
    ensures Row(m, 16) == Second2
    ensures Row(m, 24) == Second3
    ensures Row(m, 32) == Second4
    ensures Row(m, 40) == Second5
    ensures Row(m, 48) == Second6
    ensures Row(m, 56) == Second7
    ensures Row(m, 64) == Second8
    ensures Row(m, 72) == Second9
  {
    hide *;
    SecondRows();
    RowsFollow(m, 0);
    RowsFollow(m, 8);
    RowsFollow(m, 16);
    RowsFollow(m, 24);
    RowsFollow(m, 32);
    RowsFollow(m, 40);
    RowsFollow(m, 48);
    RowsFollow(m, 56);
  }

  lemma SecondRounds(m: Block)
    requires Row(m, 0) == Second0 && Row(m, 8) == Second1
    ensures Rounds(SecondRegs0, m, 80) == SecondRegs10
  {
    hide *;
    SecondSchedule(m);
    SecondStepsAtFirst();
    SecondStepsThenOn();
    NoRounds(SecondRegs0, m);
    RoundsInEights(SecondRegs0, m, 0);
    RoundsInEights(SecondRegs0, m, 8);
    RoundsInEights(SecondRegs0, m, 16);
    RoundsInEights(SecondRegs0, m, 24);
    RoundsInEights(SecondRegs0, m, 32);
    RoundsInEights(SecondRegs0, m, 40);
    RoundsInEights(SecondRegs0, m, 48);
    RoundsInEights(SecondRegs0, m, 56);
    RoundsInEights(SecondRegs0, m, 64);
    RoundsInEights(SecondRegs0, m, 72);
  }

  const SampleHash := Regs(0xb37a4f2c, 0xc0624f16, 0x90f64606, 0xcf385945, 0xb2bec4ea)

  lemma SecondSum()
    ensures Add(SecondRegs0, SecondRegs10) == SampleHash
  {
  }

  lemma SecondCompressed(m: Block)
    requires m == Second0 + Second1
    ensures Compress(SecondRegs0, m) == SampleHash
  {
    hide *;
    RowsOfBlock(m, Second0, Second1);
    SecondRounds(m);
    SecondSum();
    CompressIs(SecondRegs0, m);
  }

  lemma NoRounds(h: Regs, m: Block)
    ensures Rounds(h, m, 0) == h
  {
  }

  lemma CompressIs(h: Regs, m: Block)
    ensures Compress(h, m) == Add(h, Rounds(h, m, 80))
  {
    hide Add, Rounds;
  }

  lemma RowsOfBlock(m: Block, a: EightWords, b: EightWords)
    requires m == a + b
    ensures Row(m, 0) == a && Row(m, 8) == b
  {
  }

  // ----- the message -----

  type Bytes32 = s: seq<byte> | |s| == 32 witness seq(32, _ => 0)

  const Sample0: Bytes32 := [
    0x64, 0x47, 0x68, 0x6c, 0x49, 0x48, 0x4e, 0x68, 0x62, 0x58, 0x42, 0x73, 0x5a, 0x53, 0x42, 0x75,
    0x62, 0x32, 0x35, 0x6a, 0x5a, 0x51, 0x3d, 0x3d, 0x32, 0x35, 0x38, 0x45, 0x41, 0x46, 0x41, 0x35]

  const Padded1: Bytes32 := [
    0x2d, 0x45, 0x39, 0x31, 0x34, 0x2d, 0x34, 0x37, 0x44, 0x41, 0x2d, 0x39, 0x35, 0x43, 0x41, 0x2d,
    0x43, 0x35, 0x41, 0x42, 0x30, 0x44, 0x43, 0x38, 0x35, 0x42, 0x31, 0x31, 0x80, 0x00, 0x00, 0x00]

  const Padded3: Bytes32 := [
    0x00, 0x00, 0x00, 0x00, 0x00, 0x00, 0x00, 0x00, 0x00, 0x00, 0x00, 0x00, 0x00, 0x00, 0x00, 0x00,
    0x00, 0x00, 0x00, 0x00, 0x00, 0x00, 0x00, 0x00, 0x00, 0x00, 0x00, 0x00, 0x00, 0x00, 0x01, 0xe0]

  function EightOf(s: Bytes32): EightWords {
    [BigEndianWord(s[0], s[1], s[2], s[3]), BigEndianWord(s[4], s[5], s[6], s[7]),
     BigEndianWord(s[8], s[9], s[10], s[11]), BigEndianWord(s[12], s[13], s[14], s[15]),
     BigEndianWord(s[16], s[17], s[18], s[19]), BigEndianWord(s[20], s[21], s[22], s[23]),
     BigEndianWord(s[24], s[25], s[26], s[27]), BigEndianWord(s[28], s[29], s[30], s[31])]
  }

  lemma FirstWords()
    ensures EightOf(Sample0) == First0 && EightOf(Padded1) == First1
  {
  }

  lemma SecondWords()
    ensures EightOf(Zeros(32)) == Second0 && EightOf(Padded3) == Second1
  {
  }

  lemma EightAt(s: Bytes32, i: nat)
    requires i < 8
    ensures EightOf(s)[i] == BigEndianWord(s[4 * i], s[4 * i + 1], s[4 * i + 2], s[4 * i + 3])
  {
    hide BigEndianWord;
  }

  lemma ParseHalves(a: Bytes32, b: Bytes32)
    ensures Parse(a + b) == EightOf(a) + EightOf(b)
  {
    hide BigEndianWord, EightOf;
    var p, ws := a + b, EightOf(a) + EightOf(b);
    forall i | 0 <= i < 16 ensures Parse(p)[i] == ws[i] {
      if i < 8 {
        EightAt(a, i);
      } else {
        EightAt(b, i - 8);
      }
    }
  }

  lemma ByteOf(b: byte, n: nat)
    requires b as int == n
    ensures n < 256 && U8(n) == b
  {
    ByteBound(b);
    ByteInjective(U8(n), b);
  }

  lemma {:induction false} NoNumber(k: nat)
    ensures BigEndian(0, k) == Zeros(k)
  {
    hide U8;
    if k > 0 {
      NoNumber(k - 1);
      ByteOf(0, 0);
    }
  }

  lemma LengthBytes()
    ensures 480 < Range(8) && BigEndian(480, 8) == Zeros(6) + [0x01, 0xe0]
  {
    hide U8;
    Width64(480);
    NoNumber(6);
    ByteOf(0x01, 1);
    ByteOf(0xe0, 224);
    assert Range(7) > 1 by {
      Width64(480);
    }
    assert BigEndian(480, 8) == BigEndian(1, 7) + [U8(224)];
    assert BigEndian(1, 7) == BigEndian(0, 6) + [U8(1)];
  }

  lemma LastRow()
    ensures Padded3 == Zeros(30) + [0x01, 0xe0]
  {
  }

  lemma MarkedRow()
    ensures Padded1 == Padded1[..28] + [0x80] + Zeros(3)
  {
  }

  /** The sample key and the GUID in ASCII. */
  function Sample(): (s: seq<byte>)
    ensures |s| == 60
  {
    Sample0 + Padded1[..28]
  }

  lemma PaddedSample()
    ensures Pad(Sample(), 480) == Sample0 + Padded1 + (Zeros(32) + Padded3)
  {
    hide BigEndian;
    LengthBytes();
    LastRow();
    MarkedRow();
    var number := BigEndian(480, 8);
    PaddedParts(Sample0, Padded1[..28], number);
    assert Sample()[..60] == Sample0 + Padded1[..28];
  }

  lemma PaddedParts(a: Bytes32, b: seq<byte>, number: seq<byte>)
    requires |b| == 28 && number == Zeros(6) + [0x01, 0xe0]
    ensures a + b + [0x80] + Zeros(59) + number
            == a + (b + [0x80] + Zeros(3)) + (Zeros(32) + (Zeros(30) + [0x01, 0xe0]))
  {
  }

  lemma TwoBlocks(a: Bytes32, b: Bytes32, c: Bytes32, d: Bytes32)
    ensures Hash(H0, a + b + (c + d))
            == Compress(Compress(H0, EightOf(a) + EightOf(b)), EightOf(c) + EightOf(d))
  {
    hide Compress, Parse, EightOf, Hash;
    ParseHalves(a, b);
    ParseHalves(c, d);
    Sha1Code.HashBlock(H0, a + b, c + d);
    Sha1Code.HashBlock(Compress(H0, Parse(a + b)), c + d, []);
  }

  /** The digest that RFC 6455 prints. */
  const PRINTED: seq<byte> := [
    0xb3, 0x7a, 0x4f, 0x2c, 0xc0, 0x62, 0x4f, 0x16, 0x90, 0xf6,
    0x46, 0x06, 0xcf, 0x38, 0x59, 0x45, 0xb2, 0xbe, 0xc4, 0xea]

  lemma DigestBytes()
    ensures Digest(SampleHash) == PRINTED
  {
  }

  /** Section 1.3 of RFC 6455. */
  lemma SampleDigest()
    ensures Sha1(Sample(), 480) == PRINTED
  {
    hide Compress, EightOf, Digest, Hash;
    PaddedSample();
    TwoBlocks(Sample0, Padded1, Zeros(32), Padded3);
    FirstWords();
    SecondWords();
    FirstCompressed(First0 + First1);
    SecondCompressed(Second0 + Second1);
    DigestBytes();
  }
}
