/** The example of section 1.3 of RFC 6455: the server's reply to the sample key. */
module SampleReply {
  import opened Bytes
  import opened Handshake
  import Base64Spec
  import SampleDigest
  import Sha1Spec

  // ----- the characters of key and GUID -----

  lemma One(b: byte, c: char)
    requires b as int == c as int
    ensures Spells([b], [c])
  {
    ByteBound(b);
  }

  lemma Four(b0: byte, b1: byte, b2: byte, b3: byte, c0: char, c1: char, c2: char, c3: char)
    requires b0 as int == c0 as int && b1 as int == c1 as int && b2 as int == c2 as int && b3 as int == c3 as int
    ensures Spells([b0, b1, b2, b3], [c0, c1, c2, c3])
  {
    hide Spells;
    One(b0, c0);
    One(b1, c1);
    One(b2, c2);
    One(b3, c3);
    SpellsBoth([b0], [c0], [b1], [c1]);
    SpellsBoth([b2], [c2], [b3], [c3]);
    SpellsBoth([b0] + [b1], [c0] + [c1], [b2] + [b3], [c2] + [c3]);
    assert [b0] + [b1] + ([b2] + [b3]) == [b0, b1, b2, b3];
    assert [c0] + [c1] + ([c2] + [c3]) == [c0, c1, c2, c3];
  }

  lemma SpellsBoth(a: seq<byte>, s: string, b: seq<byte>, t: string)
    requires Spells(a, s) && Spells(b, t)
    ensures Spells(a + b, s + t)
  {
  }

  lemma Twelve(a: seq<byte>, b: seq<byte>, c: seq<byte>, s: string, t: string, u: string)
    requires Spells(a, s) && Spells(b, t) && Spells(c, u)
    ensures Spells(a + b + c, s + t + u)
  {
    hide Spells;
    SpellsBoth(a, s, b, t);
    SpellsBoth(a + b, s + t, c, u);
  }

  function Key0(): seq<byte> {
    [0x64, 0x47, 0x68, 0x6c] + [0x49, 0x48, 0x4e, 0x68] + [0x62, 0x58, 0x42, 0x73]
  }

  lemma SpellsKey0()
    ensures Spells(Key0(), "dGhlIHNhbXBs")
  {
    hide Spells;
    Four(0x64, 0x47, 0x68, 0x6c, 'd', 'G', 'h', 'l');
    Four(0x49, 0x48, 0x4e, 0x68, 'I', 'H', 'N', 'h');
    Four(0x62, 0x58, 0x42, 0x73, 'b', 'X', 'B', 's');
    Twelve([0x64, 0x47, 0x68, 0x6c], [0x49, 0x48, 0x4e, 0x68], [0x62, 0x58, 0x42, 0x73], "dGhl", "IHNh", "bXBs");
    assert "dGhl" + "IHNh" + "bXBs" == "dGhlIHNhbXBs";
  }

  function Key1(): seq<byte> {
    [0x5a, 0x53, 0x42, 0x75] + [0x62, 0x32, 0x35, 0x6a] + [0x5a, 0x51, 0x3d, 0x3d]
  }

  lemma SpellsKey1()
    ensures Spells(Key1(), "ZSBub25jZQ==")
  {
    hide Spells;
    Four(0x5a, 0x53, 0x42, 0x75, 'Z', 'S', 'B', 'u');
    Four(0x62, 0x32, 0x35, 0x6a, 'b', '2', '5', 'j');
    Four(0x5a, 0x51, 0x3d, 0x3d, 'Z', 'Q', '=', '=');
    Twelve([0x5a, 0x53, 0x42, 0x75], [0x62, 0x32, 0x35, 0x6a], [0x5a, 0x51, 0x3d, 0x3d], "ZSBu", "b25j", "ZQ==");
    assert "ZSBu" + "b25j" + "ZQ==" == "ZSBub25jZQ==";
  }

  function Guid0(): seq<byte> {
    [0x32, 0x35, 0x38, 0x45] + [0x41, 0x46, 0x41, 0x35]
  }

  lemma SpellsGuid0()
    ensures Spells(Guid0(), "258EAFA5")
  {
    hide Spells;
    Four(0x32, 0x35, 0x38, 0x45, '2', '5', '8', 'E');
    Four(0x41, 0x46, 0x41, 0x35, 'A', 'F', 'A', '5');
    SpellsBoth([0x32, 0x35, 0x38, 0x45], "258E", [0x41, 0x46, 0x41, 0x35], "AFA5");
    assert "258E" + "AFA5" == "258EAFA5";
  }

  function Guid1(): seq<byte> {
    [0x2d, 0x45, 0x39, 0x31] + [0x34, 0x2d, 0x34, 0x37] + [0x44, 0x41, 0x2d, 0x39]
  }

  lemma SpellsGuid1()
    ensures Spells(Guid1(), "-E914-47DA-9")
  {
    hide Spells;
    Four(0x2d, 0x45, 0x39, 0x31, '-', 'E', '9', '1');
    Four(0x34, 0x2d, 0x34, 0x37, '4', '-', '4', '7');
    Four(0x44, 0x41, 0x2d, 0x39, 'D', 'A', '-', '9');
    Twelve([0x2d, 0x45, 0x39, 0x31], [0x34, 0x2d, 0x34, 0x37], [0x44, 0x41, 0x2d, 0x39], "-E91", "4-47", "DA-9");
    assert "-E91" + "4-47" + "DA-9" == "-E914-47DA-9";
  }

  function Guid2(): seq<byte> {
    [0x35, 0x43, 0x41, 0x2d] + [0x43, 0x35, 0x41, 0x42] + [0x30, 0x44, 0x43, 0x38]
  }

  lemma SpellsGuid2()
    ensures Spells(Guid2(), "5CA-C5AB0DC8")
  {
    hide Spells;
    Four(0x35, 0x43, 0x41, 0x2d, '5', 'C', 'A', '-');
    Four(0x43, 0x35, 0x41, 0x42, 'C', '5', 'A', 'B');
    Four(0x30, 0x44, 0x43, 0x38, '0', 'D', 'C', '8');
    Twelve([0x35, 0x43, 0x41, 0x2d], [0x43, 0x35, 0x41, 0x42], [0x30, 0x44, 0x43, 0x38], "5CA-", "C5AB", "0DC8");
    assert "5CA-" + "C5AB" + "0DC8" == "5CA-C5AB0DC8";
  }

  function Guid3(): seq<byte> {
    [0x35, 0x42, 0x31, 0x31]
  }

  lemma SpellsGuid3()
    ensures Spells(Guid3(), "5B11")
  {
    hide Spells;
    Four(0x35, 0x42, 0x31, 0x31, '5', 'B', '1', '1');
  }

  lemma FirstHalf()
    ensures Key0() + Key1() + Guid0() == SampleDigest.Sample0
  {
  }

  lemma SecondHalf()
    ensures Guid1() + Guid2() + Guid3() == SampleDigest.Padded1[..28]
  {
  }

  lemma SecretParts()
    ensures "258EAFA5" + ("-E914-47DA-9" + "5CA-C5AB0DC8" + "5B11") == Secret()
  {
  }

  lemma KeyParts()
    ensures "dGhlIHNhbXBs" + "ZSBub25jZQ==" == "dGhlIHNhbXBsZSBub25jZQ=="
  {
  }

  lemma SpellsHalves()
    ensures Spells(SampleDigest.Sample0, "dGhlIHNhbXBs" + "ZSBub25jZQ==" + "258EAFA5")
    ensures Spells(SampleDigest.Padded1[..28], "-E914-47DA-9" + "5CA-C5AB0DC8" + "5B11")
  {
    hide Spells, Key0, Key1, Guid0, Guid1, Guid2, Guid3;
    SpellsKey0();
    SpellsKey1();
    SpellsGuid0();
    SpellsGuid1();
    SpellsGuid2();
    SpellsGuid3();
    Twelve(Key0(), Key1(), Guid0(), "dGhlIHNhbXBs", "ZSBub25jZQ==", "258EAFA5");
    Twelve(Guid1(), Guid2(), Guid3(), "-E914-47DA-9", "5CA-C5AB0DC8", "5B11");
    FirstHalf();
    SecondHalf();
  }

  lemma Regrouped(k: string, a: string, b: string)
    ensures k + a + b == k + (a + b)
  {
  }

  /** The bytes of the sample message are the characters of the sample key and of the GUID. */
  lemma SpellsSample()
    ensures Spells(SampleDigest.Sample(), "dGhlIHNhbXBsZSBub25jZQ==" + Secret())
  {
    hide Spells, Secret;
    SpellsHalves();
    SpellsBoth(SampleDigest.Sample0, "dGhlIHNhbXBs" + "ZSBub25jZQ==" + "258EAFA5",
               SampleDigest.Padded1[..28], "-E914-47DA-9" + "5CA-C5AB0DC8" + "5B11");
    KeyParts();
    SecretParts();
    Regrouped("dGhlIHNhbXBs" + "ZSBub25jZQ==", "258EAFA5", "-E914-47DA-9" + "5CA-C5AB0DC8" + "5B11");
  }

  // ----- the letters of the digest -----

  function LetterOf(v: nat): char
    requires v < 64
  {
    if v < 26 then ('A' as int + v) as char
    else if v < 52 then ('a' as int + (v - 26)) as char
    else if v < 62 then ('0' as int + (v - 52)) as char
    else if v == 62 then '+' else '/'
  }

  lemma LetterAt(v: nat)
    requires v < 64
    ensures Base64Spec.Alphabet()[v] == LetterOf(v)
  {
  }

  function Quad(n: nat): string
    requires n < 0x100_0000
  {
    [LetterOf(n / 64 / 64 / 64), LetterOf(n / 64 / 64 % 64), LetterOf(n / 64 % 64), LetterOf(n % 64)]
  }

  lemma QuadIs(b0: byte, b1: byte, b2: byte)
    ensures Base64Spec.Letters(b0, b1, b2, 4) == Quad(Base64Spec.Join(b0, b1, b2))
  {
    hide Base64Spec.Alphabet, LetterOf, Base64Spec.Join;
    var n := Base64Spec.Join(b0, b1, b2);
    LetterAt(n / 64 / 64 / 64);
    LetterAt(n / 64 / 64 % 64);
    LetterAt(n / 64 % 64);
    LetterAt(n % 64);
  }

  lemma Joined()
    ensures Base64Spec.Join(0xb3, 0x7a, 0x4f) == 0xb37a4f
    ensures Base64Spec.Join(0x2c, 0xc0, 0x62) == 0x2cc062
    ensures Base64Spec.Join(0x4f, 0x16, 0x90) == 0x4f1690
    ensures Base64Spec.Join(0xf6, 0x46, 0x06) == 0xf64606
    ensures Base64Spec.Join(0xcf, 0x38, 0x59) == 0xcf3859
    ensures Base64Spec.Join(0x45, 0xb2, 0xbe) == 0x45b2be
    ensures Base64Spec.Join(0xc4, 0xea, 0x00) == 0xc4ea00
  {
  }

  lemma FirstQuads()
    ensures Quad(0xb37a4f) == "s3pP"
    ensures Quad(0x2cc062) == "LMBi"
    ensures Quad(0x4f1690) == "TxaQ"
    ensures Quad(0xf64606) == "9kYG"
  {
  }

  lemma LastQuads()
    ensures Quad(0xcf3859) == "zzhZ"
    ensures Quad(0x45b2be) == "RbK+"
    ensures Quad(0xc4ea00) == "xOoA"
  {
  }

  lemma NextGroup(b0: byte, b1: byte, b2: byte, rest: seq<byte>)
    ensures Base64Spec.Encode([b0, b1, b2] + rest)
            == Quad(Base64Spec.Join(b0, b1, b2)) + Base64Spec.Encode(rest)
  {
    hide Base64Spec.Letters, Base64Spec.Join, Quad;
    var data := [b0, b1, b2] + rest;
    assert data[3..] == rest;
    QuadIs(b0, b1, b2);
  }

  lemma LastGroup(b0: byte, b1: byte)
    ensures Base64Spec.Encode([b0, b1]) == Quad(Base64Spec.Join(b0, b1, 0))[..3] + "="
  {
    hide Base64Spec.Join;
    QuadIs(b0, b1, 0);
    assert Base64Spec.Letters(b0, b1, 0, 3) == Base64Spec.Letters(b0, b1, 0, 4)[..3];
  }

  lemma DigestParts()
    ensures SampleDigest.PRINTED
            == [0xb3, 0x7a, 0x4f] + ([0x2c, 0xc0, 0x62] + ([0x4f, 0x16, 0x90] + ([0xf6, 0x46, 0x06] +
               ([0xcf, 0x38, 0x59] + ([0x45, 0xb2, 0xbe] + [0xc4, 0xea])))))
  {
  }

  lemma AcceptParts()
    ensures "s3pP" + ("LMBi" + ("TxaQ" + ("9kYG" + ("zzhZ" + ("RbK+" + ("xOo="))))))
            == "s3pPLMBiTxaQ9kYGzzhZRbK+xOo="
  {
  }

  /** The value of Sec-WebSocket-Accept that RFC 6455 prints. */
  lemma SampleAccept()
    ensures Base64Spec.Encode(SampleDigest.PRINTED) == "s3pPLMBiTxaQ9kYGzzhZRbK+xOo="
  {
    hide *;
    DigestParts();
    var r6: seq<byte> := [0xc4, 0xea];
    var r5: seq<byte> := [0x45, 0xb2, 0xbe] + r6;
    var r4: seq<byte> := [0xcf, 0x38, 0x59] + r5;
    var r3: seq<byte> := [0xf6, 0x46, 0x06] + r4;
    var r2: seq<byte> := [0x4f, 0x16, 0x90] + r3;
    var r1: seq<byte> := [0x2c, 0xc0, 0x62] + r2;
    NextGroup(0xb3, 0x7a, 0x4f, r1);
    NextGroup(0x2c, 0xc0, 0x62, r2);
    NextGroup(0x4f, 0x16, 0x90, r3);
    NextGroup(0xf6, 0x46, 0x06, r4);
    NextGroup(0xcf, 0x38, 0x59, r5);
    NextGroup(0x45, 0xb2, 0xbe, r6);
    LastGroup(0xc4, 0xea);
    Joined();
    FirstQuads();
    LastQuads();
    assert "xOoA"[..3] + "=" == "xOo=";
    AcceptParts();
  }

  /** The reply of section 1.3 of RFC 6455, where the bytes hashed spell the sample key and the GUID. */
  lemma SampleReply(hashed: seq<byte>)
    requires Spells(hashed, "dGhlIHNhbXBsZSBub25jZQ==" + Secret())
    ensures |hashed| == 60
    ensures ReplyText(hashed)
            == "HTTP/1.1 101 Switching Protocols\r\n" +
               "Upgrade: websocket\r\n" +
               "Connection: Upgrade\r\n" +
               "Sec-WebSocket-Accept: " + "s3pPLMBiTxaQ9kYGzzhZRbK+xOo=" + "\r\n" +
               "\r\n"
  {
    hide Spells, Secret, Base64Spec.Encode, Sha1Spec.Sha1;
    SpellsSample();
    SpelledOnce(hashed, SampleDigest.Sample(), "dGhlIHNhbXBsZSBub25jZQ==" + Secret());
    SampleDigest.SampleDigest();
    SampleAccept();
  }
}
