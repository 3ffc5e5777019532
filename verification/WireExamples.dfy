/** The examples of section 5.7 of RFC 6455, byte by byte. */
module WireExamples {
  import opened Bytes
  import opened Options
  import opened Wire
  import opened FrameCodec
  import opened Session
  import opened Messages

  /** The text "Hello". */
  const HELLO: seq<byte> := [0x48, 0x65, 0x6c, 0x6c, 0x6f]

  const KEY: seq<byte> := [0x37, 0xfa, 0x21, 0x3d]

  const MASKED: seq<byte> := [0x7f, 0x9f, 0x4d, 0x51, 0x58]

  /** A single-frame unmasked text message. */
  lemma UnmaskedText()
    ensures Read([0x81, 0x05] + HELLO) == Complete(Frame(true, 1, HELLO), 7)
  {
    var s := [0x81, 0x05] + HELLO;
    assert ReadPrelude(s[0], s[1]) == Prelude(true, false, 1, false, 5);
    assert s[2..7] == HELLO;
  }

  lemma Unmasks()
    ensures XorWith(MASKED, KEY) == HELLO
  {
  }

  /** A single-frame masked text message. */
  lemma MaskedText()
    ensures Read([0x81, 0x85] + KEY + MASKED) == Complete(Frame(true, 1, HELLO), 11)
  {
    hide XorWith;
    var s := [0x81, 0x85] + KEY + MASKED;
    assert ReadPrelude(s[0], s[1]) == Prelude(true, false, 1, true, 5);
    assert s[2..6] == KEY && s[6..11] == MASKED;
    Unmasks();
  }

  /** A fragmented unmasked text message: "Hel" and "lo". */
  lemma FragmentedText()
    ensures Read([0x01, 0x03] + HELLO[..3]) == Complete(Frame(false, 1, HELLO[..3]), 5)
    ensures Read([0x80, 0x02] + HELLO[3..]) == Complete(Frame(true, 0, HELLO[3..]), 4)
  {
    var s, t := [0x01, 0x03] + HELLO[..3], [0x80, 0x02] + HELLO[3..];
    assert ReadPrelude(s[0], s[1]) == Prelude(false, false, 1, false, 3);
    assert ReadPrelude(t[0], t[1]) == Prelude(true, false, 0, false, 2);
    assert s[2..5] == HELLO[..3] && t[2..4] == HELLO[3..];
  }

  /** An unmasked PING and its masked response. */
  lemma PingAndPong()
    ensures Read([0x89, 0x05] + HELLO) == Complete(Frame(true, 9, HELLO), 7)
    ensures Read([0x8a, 0x85] + KEY + MASKED) == Complete(Frame(true, 10, HELLO), 11)
  {
    hide XorWith;
    var s, t := [0x89, 0x05] + HELLO, [0x8a, 0x85] + KEY + MASKED;
    assert ReadPrelude(s[0], s[1]) == Prelude(true, false, 9, false, 5);
    assert ReadPrelude(t[0], t[1]) == Prelude(true, false, 10, true, 5);
    assert s[2..7] == HELLO && t[2..6] == KEY && t[6..11] == MASKED;
    Unmasks();
  }

  /** 256 bytes and 64KiB of binary data in a single unmasked frame. */
  lemma BinaryMessages(data: seq<byte>, more: seq<byte>)
    requires |data| == 256 && |more| == 65536
    ensures Read([0x82, 0x7e, 0x01, 0x00] + data) == Complete(Frame(true, 2, data), 260)
    ensures Read([0x82, 0x7f, 0x00, 0x00, 0x00, 0x00, 0x00, 0x01, 0x00, 0x00] + more)
            == Complete(Frame(true, 2, more), 65546)
  {
    var s, t := [0x82, 0x7e, 0x01, 0x00] + data, [0x82, 0x7f, 0x00, 0x00, 0x00, 0x00, 0x00, 0x01, 0x00, 0x00] + more;
    assert ReadPrelude(s[0], s[1]) == Prelude(true, false, 2, false, 126);
    assert ReadPrelude(t[0], t[1]) == Prelude(true, false, 2, false, 127);
    assert s[2..4] == [0x01, 0x00] && t[2..10] == [0x00, 0x00, 0x00, 0x00, 0x00, 0x01, 0x00, 0x00];
    Numbers();
    assert s[4..260] == data && t[10..65546] == more;
  }

  // ----- the examples as a session -----

  lemma ByteIs(n: nat, b: byte)
    requires b as int == n
    ensures n < 256 && U8(n) == b
  {
    ByteBound(b);
    ByteInjective(U8(n), b);
  }

  function First(): Sent {
    WireFrame(Frame(false, 1, HELLO[..3]), Unmasked, Short)
  }

  function Ping(): Sent {
    WireFrame(Frame(true, 9, HELLO), Unmasked, Short)
  }

  function Last(): Sent {
    WireFrame(Frame(true, 0, HELLO[3..]), Unmasked, Short)
  }

  function Whole(): Sent {
    WireFrame(Frame(true, 1, HELLO), Key(KEY), Short)
  }

  lemma HeaderBytes()
    ensures U8(1) == 0x01 && U8(3) == 0x03 && U8(0x80) == 0x80 && U8(2) == 0x02
    ensures U8(0x81) == 0x81 && U8(5) == 0x05 && U8(0x85) == 0x85 && U8(0x89) == 0x89 && U8(0x8a) == 0x8a
  {
    hide U8;
    ByteIs(1, 0x01);
    ByteIs(3, 0x03);
    ByteIs(0x80, 0x80);
    ByteIs(2, 0x02);
    ByteIs(0x81, 0x81);
    ByteIs(5, 0x05);
    ByteIs(0x85, 0x85);
    ByteIs(0x89, 0x89);
    ByteIs(0x8a, 0x8a);
  }

  lemma ExampleBytes()
    ensures BytesOf(First()) == [0x01, 0x03] + HELLO[..3]
    ensures BytesOf(Ping()) == [0x89, 0x05] + HELLO
    ensures BytesOf(Last()) == [0x80, 0x02] + HELLO[3..]
  {
    hide U8;
    HeaderBytes();
  }

  lemma MasksHello()
    ensures XorWith(HELLO, KEY) == MASKED
  {
  }

  lemma WholeBytes()
    ensures BytesOf(Whole()) == [0x81, 0x85] + KEY + MASKED
  {
    hide U8, XorWith;
    HeaderBytes();
    MasksHello();
  }

  lemma Answers()
    ensures Reply(1, HELLO) == FrameBytes([0x81, 0x05] + HELLO)
    ensures Reply(10, HELLO) == FrameBytes([0x8a, 0x05] + HELLO)
  {
    hide U8;
    HeaderBytes();
  }

  lemma ExampleFrames()
    ensures var fs := [First().frame, Ping().frame, Last().frame];
            && FramesOf([First(), Ping(), Last()]) == fs && Fragmented(fs, 1)
            && Messages.Joined(fs) == HELLO && Pongs(fs) == [Reply(10, HELLO)]
  {
    hide Reply;
    var ws := [First(), Ping(), Last()];
    assert ws[1..] == [Ping(), Last()] && ws[1..][1..] == [Last()] && [Last()][1..] == [];
    assert FramesOf([Last()]) == [Last().frame];
    var fs := [First().frame, Ping().frame, Last().frame];
    assert fs[1..] == [Ping().frame, Last().frame] && fs[1..][1..] == [Last().frame] && [Last().frame][1..] == [];
    assert Messages.Joined([Last().frame]) == HELLO[3..];
    assert HELLO[..3] + HELLO[3..] == HELLO;
  }

  lemma ExampleStream()
    ensures Stream([First(), Ping(), Last()])
            == [0x01, 0x03] + HELLO[..3] + ([0x89, 0x05] + HELLO + ([0x80, 0x02] + HELLO[3..]))
  {
    hide BytesOf;
    ExampleBytes();
    var ws := [First(), Ping(), Last()];
    assert ws[1..] == [Ping(), Last()] && ws[1..][1..] == [Last()] && [Last()][1..] == [];
    assert Stream([Last()]) == BytesOf(Last()) + Stream([]);
  }

  lemma ExampleFits()
    ensures ControlsFit([First(), Ping(), Last()])
  {
    hide BytesOf;
    ExampleBytes();
  }

  /** The fragmented text with the PING between its fragments, in any reads: PONG and text go out, byte by byte, and the
      masked whole text is answered with the same text frame. */
  lemma FragmentsAnswered(s: Session, chunks: seq<seq<byte>>, wholeChunks: seq<seq<byte>>)
    requires s.state == Established && s.receiving && s.fragments.None?
    requires Concat(chunks)
             == [0x01, 0x03] + HELLO[..3] + ([0x89, 0x05] + HELLO + ([0x80, 0x02] + HELLO[3..]))
    requires Concat(wholeChunks) == [0x81, 0x85] + KEY + MASKED
    ensures Feed(s, [], chunks).0.sent
            == s.sent + [FrameBytes([0x8a, 0x05] + HELLO), FrameBytes([0x81, 0x05] + HELLO)]
    ensures Feed(s, [], wholeChunks).0.sent == s.sent + [FrameBytes([0x81, 0x05] + HELLO)]
  {
    hide Feed, Concat, Reply, Pongs, Messages.Joined, Fragmented, FramesOf, Stream, BytesOf, Sends, PongFrames;
    ExampleFrames();
    ExampleStream();
    ExampleFits();
    WholeBytes();
    Answers();
    FragmentationIsTransparent(s, 1, [First(), Ping(), Last()], chunks, Whole(), wholeChunks);
    assert s.sent + [Reply(10, HELLO)] + [Reply(1, HELLO)] == s.sent + [Reply(10, HELLO), Reply(1, HELLO)];
  }

  // ----- numbers -----

  lemma OneByteMore(s: seq<byte>, b: byte, t: seq<byte>)
    requires t == s + [b]
    ensures FromBigEndian(t) == FromBigEndian(s) * 256 + b as int
  {
    assert t[..|s|] == s;
  }

  lemma Nothing()
    ensures FromBigEndian([]) == 0
  {
  }

  lemma Values()
    ensures (0x00 as byte) as int == 0 && (0x01 as byte) as int == 1
  {
  }

  lemma Numbers()
    ensures FromBigEndian([0x01, 0x00]) == 256
    ensures FromBigEndian([0x00, 0x00, 0x00, 0x00, 0x00, 0x01, 0x00, 0x00]) == 65536
  {
    hide *;
    Nothing();
    Values();
    OneByteMore([], 0x01, [0x01]);
    OneByteMore([0x01], 0x00, [0x01, 0x00]);
    OneByteMore([], 0x00, [0x00]);
    OneByteMore([0x00], 0x00, [0x00, 0x00]);
    OneByteMore([0x00, 0x00], 0x00, [0x00, 0x00, 0x00]);
    OneByteMore([0x00, 0x00, 0x00], 0x00, [0x00, 0x00, 0x00, 0x00]);
    OneByteMore([0x00, 0x00, 0x00, 0x00], 0x00, [0x00, 0x00, 0x00, 0x00, 0x00]);
    OneByteMore([0x00, 0x00, 0x00, 0x00, 0x00], 0x01, [0x00, 0x00, 0x00, 0x00, 0x00, 0x01]);
    OneByteMore([0x00, 0x00, 0x00, 0x00, 0x00, 0x01], 0x00, [0x00, 0x00, 0x00, 0x00, 0x00, 0x01, 0x00]);
    OneByteMore([0x00, 0x00, 0x00, 0x00, 0x00, 0x01, 0x00], 0x00,
                [0x00, 0x00, 0x00, 0x00, 0x00, 0x01, 0x00, 0x00]);
  }
}
