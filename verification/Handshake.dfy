/** socket/ws/handshake.c: the reply to an opening handshake. */
module Handshake {
  import opened Bytes
  import opened StringBuffer
  import opened Websocket
  import Base64Enc
  import Base64Spec
  import Sha1Code = Sha1
  import Sha1Spec

  const WS_SECRET_LENGTH := 36

  /** The bytes are the characters' codes, one by one; a C char has eight bits. */
  predicate Spells(b: seq<byte>, s: string) {
    |b| == |s| && forall i :: 0 <= i < |s| ==> b[i] as int == s[i] as int % 256
  }

  function Codes(s: string): (b: seq<byte>)
    ensures |b| == |s| && Spells(b, s)
  {
    seq(|s|, i requires 0 <= i < |s| => U8(s[i] as int % 256))
  }

  function Secret(): (s: string)
    ensures |s| == WS_SECRET_LENGTH
  {
    "258EAFA5-E914-47DA-95CA-C5AB0DC85B11"
  }

  function StatusLines(): string {
    "HTTP/1.1 101 Switching Protocols\r\n" +
    "Upgrade: websocket\r\n" +
    "Connection: Upgrade\r\n" +
    "Sec-WebSocket-Accept: "
  }

  function BlankLine(): string {
    "\r\n" + "\r\n"
  }

  /** What a reply says if these are the bytes hashed. */
  function ReplyText(hashed: seq<byte>): string
    requires 8 * |hashed| < UINT64_RANGE
  {
    StatusLines() + Base64Spec.Encode(Sha1Spec.Sha1(hashed, 8 * |hashed|)) + BlankLine()
  }

  /** Section 4.2.2 of RFC 6455: the value of Sec-WebSocket-Accept, for a message that SHA-1 is defined on. */
  function Accept(key: string): string
    requires 8 * (|key| + WS_SECRET_LENGTH) < UINT64_RANGE
  {
    Base64Spec.Encode(Sha1Spec.Sha1(Codes(key + Secret()), 8 * |key + Secret()|))
  }

  lemma {:induction false} CStringStops(text: string, rest: string)
    requires '\0' !in text
    ensures CString(text + ['\0'] + rest, '\0') == text
  {
    var s := text + ['\0'] + rest;
    if text == [] {
    } else {
      assert s[1..] == text[1..] + ['\0'] + rest;
      CStringStops(text[1..], rest);
    }
  }

  predicate Printable(c: char) {
    '+' <= c <= 'z'
  }

  lemma LettersArePrintable(b0: byte, b1: byte, b2: byte, k: nat)
    requires k <= 4
    ensures forall c <- Base64Spec.Letters(b0, b1, b2, k) :: Printable(c)
  {
    hide Base64Spec.Sextets, Base64Spec.Join;
    forall v: nat | v < 64 ensures Printable(Base64Spec.Alphabet()[v]) {
    }
  }

  lemma {:induction false} EncodedIsPrintable(data: seq<byte>)
    ensures forall c <- Base64Spec.Encode(data) :: Printable(c)
  {
    hide Base64Spec.Letters;
    if data == [] {
    } else if |data| == 1 {
      LettersArePrintable(data[0], 0, 0, 2);
    } else if |data| == 2 {
      LettersArePrintable(data[0], data[1], 0, 3);
    } else {
      LettersArePrintable(data[0], data[1], data[2], 4);
      EncodedIsPrintable(data[3..]);
    }
  }

  /** The text of the accept value has 28 characters; with its terminator it fits the key buffer. */
  lemma AcceptFits(key: string)
    requires 8 * (|key| + WS_SECRET_LENGTH) < UINT64_RANGE
    ensures |Accept(key)| == 28 && |Accept(key)| + 1 <= |key| + WS_SECRET_LENGTH
    ensures forall c <- Accept(key) :: Printable(c)
  {
    hide Codes, Secret, Base64Spec.Encode;
    var digest := Sha1Spec.Sha1(Codes(key + Secret()), 8 * |key + Secret()|);
    Base64Spec.TextLength(digest);
    EncodedIsPrintable(digest);
  }

  /** What the reply carries: the length in bits is a uint32_t. */
  function Replied(key: string): string {
    var text := key + Secret();
    Base64Spec.Encode(Sha1Spec.Sha1(Codes(text), 8 * |text| % (UINT32_MAX + 1)))
  }

  /** For keys of less than half a gigabyte that is the accept value. */
  lemma RepliedIsAccept(key: string)
    requires 8 * (|key| + WS_SECRET_LENGTH) <= UINT32_MAX
    ensures Replied(key) == Accept(key)
  {
    hide Codes, Secret, Base64Spec.Encode, Sha1Spec.Sha1;
    assert 8 * |key + Secret()| % (UINT32_MAX + 1) == 8 * |key + Secret()|;
  }

  lemma WholeBytes(n: nat)
    ensures 8 * n % (UINT32_MAX + 1) <= UINT32_MAX
    ensures 8 * n % (UINT32_MAX + 1) % 8 == 0 && (8 * n % (UINT32_MAX + 1) + 7) / 8 <= n
  {
    var q := 8 * n / (UINT32_MAX + 1);
    assert 8 * n % (UINT32_MAX + 1) == 8 * (n - 0x2000_0000 * q);
  }

  /** The bytes that spell a text are its codes. */
  lemma SpelledOnce(b: seq<byte>, c: seq<byte>, s: string)
    requires Spells(b, s) && Spells(c, s)
    ensures b == c
  {
    forall i | 0 <= i < |s| ensures b[i] == c[i] {
      ByteInjective(b[i], c[i]);
    }
  }

  lemma SpelledReply(key: string, hashed: seq<byte>)
    requires Spells(hashed, key + Secret()) && 8 * (|key| + WS_SECRET_LENGTH) <= UINT32_MAX
    ensures |hashed| == |key| + WS_SECRET_LENGTH
    ensures Spells(Codes(StatusLines() + Accept(key) + BlankLine()), ReplyText(hashed))
  {
    hide Codes, Secret, StatusLines, BlankLine, Base64Spec.Encode, Sha1Spec.Sha1;
    SpelledOnce(hashed, Codes(key + Secret()), key + Secret());
  }

  /** WebsocketsHandshake_create_reply: the key buffer holds key and secret, then the encoded digest. */
  method CreateReply(key: string) returns (reply: Buffer)
    ensures fresh(reply) && reply.Valid()
    ensures reply.Contents() == Codes(StatusLines() + Replied(key) + BlankLine())
    ensures 8 * (|key| + WS_SECRET_LENGTH) <= UINT32_MAX ==>
              reply.Contents() == Codes(StatusLines() + Accept(key) + BlankLine())
    ensures forall hashed | Spells(hashed, key + Secret()) && 8 * |hashed| <= UINT32_MAX ::
              Spells(reply.Contents(), ReplyText(hashed))
  {
    hide Codes, Secret, StatusLines, BlankLine, Base64Spec.Encode, Sha1Spec.Sha1, Sha1Code.CodedTail;
    reply := new Buffer(WS_HANDSHAKE_BUFFER_SIZE);
    var length := |key| + WS_SECRET_LENGTH;
    var text := key + Secret();
    var responseKey := new char[length](i requires 0 <= i < length => text[i]);
    assert responseKey[..] == text;
    WholeBytes(length);
    var digest := Sha1Code.Sha1(Codes(responseKey[..]), 8 * length % (UINT32_MAX + 1));
    Base64Spec.TextLength(digest);
    Base64Enc.Encode(responseKey, digest, 20);
    ReplyFits(key, digest);
    CStringStops(Replied(key), responseKey[|Replied(key)| + 1..]);
    assert responseKey[..] == Replied(key) + ['\0'] + responseKey[|Replied(key)| + 1..];
    var accept := CString(responseKey[..], '\0');
    var printed := reply.Print(0, Codes(StatusLines() + accept + BlankLine()));
    if 8 * length <= UINT32_MAX {
      RepliedIsAccept(key);
      forall hashed | Spells(hashed, key + Secret()) ensures Spells(reply.Contents(), ReplyText(hashed)) {
        SpelledReply(key, hashed);
      }
    }
  }

  lemma ReplyFits(key: string, digest: seq<byte>)
    requires |digest| == 20 && Replied(key) == Base64Spec.Encode(digest)
    ensures |Replied(key)| == 28 && '\0' !in Replied(key)
  {
    hide Base64Spec.Encode, Replied;
    Base64Spec.TextLength(digest);
    EncodedIsPrintable(digest);
  }
}
