/** socket/ws/frame.c: parsing, unmasking and building frames. */
module FrameCodec {
  import opened Bytes
  import opened NetworkOrder
  import opened StringBuffer
  import opened Websocket
  import Wire

  const PAYLOAD_MAX := 125
  const PAYLOAD_EXTENDED := 126
  const PAYLOAD_EXTENDED_MAX := 0xFFFF
  const PAYLOAD_EXTENDED_CONTINUED := 127

  // ----- header fields -----

  datatype FieldType = FieldBool | FieldOctet | FieldInt16 | FieldInt64

  datatype HeaderField = HeaderField(kind: FieldType, offset: nat, bitmask: bv64)

  const WS_HDR_FIN := HeaderField(FieldBool, 0, 0x80)
  const WS_HDR_RSV1 := HeaderField(FieldBool, 0, 0x40)
  const WS_HDR_RSV2 := HeaderField(FieldBool, 0, 0x20)
  const WS_HDR_RSV3 := HeaderField(FieldBool, 0, 0x10)
  const WS_HDR_OPCODE := HeaderField(FieldOctet, 0, 0xf)
  const WS_HDR_MASKED := HeaderField(FieldBool, 1, 0x80)
  const WS_HDR_PAYLOAD_LENGTH := HeaderField(FieldOctet, 1, 0x7f)
  const WS_HDR_PAYLOAD_LENGTH_EXT := HeaderField(FieldInt16, 2, 0xffff_ffff_ffff_ffff)
  const WS_HDR_PAYLOAD_LENGTH_EXT_CONTINUED := HeaderField(FieldInt64, 2, 0xffff_ffff_ffff_ffff)

  function FieldWidth(kind: FieldType): nat {
    match kind
    case FieldBool => 1
    case FieldOctet => 1
    case FieldInt16 => 2
    case FieldInt64 => 8
  }

  /** HeaderField_value. */
  function FieldValue(field: HeaderField, raw: seq<byte>): bv64
    requires |raw| >= field.offset + FieldWidth(field.kind)
  {
    var start := raw[field.offset..];
    match field.kind
    case FieldBool => if start[0] as bv64 & field.bitmask != 0 then 1 else 0
    case FieldOctet => start[0] as bv64 & field.bitmask
    case FieldInt16 => Swap16(Load16(start[..2])) as bv64 & field.bitmask
    case FieldInt64 => Ntoh64(Load64(start[..8])) & field.bitmask
  }

  lemma TopBit(b: byte)
    ensures (b as bv64 & 0x80 != 0) <==> b as int >= 128
    ensures (b as bv64 & 0x7f) as int == b as int % 128
  {
  }

  lemma LowNibble(b: byte)
    ensures (b as bv64 & 0xf) as int == b as int % 16
  {
  }

  lemma MiddleBits(b: byte)
    ensures (b as bv64 & 0x40 != 0 || b as bv64 & 0x20 != 0 || b as bv64 & 0x10 != 0) <==> b as int / 16 % 8 != 0
  {
  }

  predicate FlagSet(field: HeaderField, raw: seq<byte>)
    requires field.kind == FieldBool && |raw| > field.offset
  {
    FieldValue(field, raw) != 0
  }

  function OctetValue(field: HeaderField, raw: seq<byte>): nat
    requires field.kind == FieldOctet && |raw| > field.offset
  {
    FieldValue(field, raw) as int
  }

  /** The fields of the first byte are the ones of the base framing protocol. */
  lemma FirstByteFields(raw: seq<byte>)
    requires |raw| >= 2
    ensures var p := Wire.ReadPrelude(raw[0], raw[1]);
            && FlagSet(WS_HDR_FIN, raw) == p.fin
            && OctetValue(WS_HDR_OPCODE, raw) == p.opcode
            && (FlagSet(WS_HDR_RSV1, raw) || FlagSet(WS_HDR_RSV2, raw) || FlagSet(WS_HDR_RSV3, raw)) == p.rsv
  {
    TopBit(raw[0]);
    LowNibble(raw[0]);
    MiddleBits(raw[0]);
  }

  lemma SecondByteFields(raw: seq<byte>)
    requires |raw| >= 2
    ensures var p := Wire.ReadPrelude(raw[0], raw[1]);
            && FlagSet(WS_HDR_MASKED, raw) == p.masked
            && OctetValue(WS_HDR_PAYLOAD_LENGTH, raw) == p.code
  {
    TopBit(raw[1]);
  }

  lemma WidthMask16(x: bv16)
    ensures (x as bv64 & 0xffff_ffff_ffff_ffff) as int == x as int
  {
  }

  lemma WidthMask64(x: bv64)
    ensures x & 0xffff_ffff_ffff_ffff == x
  {
  }

  /** The 16-bit field holds its bytes' number in network order. */
  lemma ExtendedField(raw: seq<byte>)
    requires |raw| >= 4
    ensures FieldValue(WS_HDR_PAYLOAD_LENGTH_EXT, raw) as int == FromBigEndian(raw[2..4])
  {
    assert raw[2..][..2] == raw[2..4];
    WidthMask16(Swap16(Load16(raw[2..4])));
    ReadNetwork16(raw[2..4]);
  }

  lemma ExtendedContinuedField(raw: seq<byte>)
    requires |raw| >= 10
    ensures FieldValue(WS_HDR_PAYLOAD_LENGTH_EXT_CONTINUED, raw) as int == FromBigEndian(raw[2..10])
  {
    assert raw[2..][..8] == raw[2..10];
    WidthMask64(Ntoh64(Load64(raw[2..10])));
    ReadNetwork64(raw[2..10]);
  }

  /** The fields of the first byte; the three reserved bits are read apart. */
  method FirstByte(raw: array<byte>) returns (opcode: nat, fin: bool, rsv1: bool, rsv2: bool, rsv3: bool)
    requires raw.Length >= 2
    ensures var p := Wire.ReadPrelude(raw[0], raw[1]);
            p.fin == fin && p.opcode == opcode && p.rsv == (rsv1 || rsv2 || rsv3)
  {
    var head := raw[..2];
    FirstByteFields(head);
    opcode := OctetValue(WS_HDR_OPCODE, head);
    fin := FlagSet(WS_HDR_FIN, head);
    rsv1 := FlagSet(WS_HDR_RSV1, head);
    rsv2 := FlagSet(WS_HDR_RSV2, head);
    rsv3 := FlagSet(WS_HDR_RSV3, head);
  }

  method SecondByte(raw: array<byte>) returns (payloadLength: nat, masked: bool)
    requires raw.Length >= 2
    ensures var p := Wire.ReadPrelude(raw[0], raw[1]);
            p.code == payloadLength && p.masked == masked
  {
    var head := raw[..2];
    SecondByteFields(head);
    payloadLength := OctetValue(WS_HDR_PAYLOAD_LENGTH, head);
    masked := FlagSet(WS_HDR_MASKED, head);
  }

  // ----- the incoming frame -----

  /** The frame being received. Pointers into the input buffer are offsets from its start. */
  class WebsocketsFrame {
    var payloadRaw: nat
    var payloadRawEnd: nat
    var maskingKey: nat
    var payloadLengthExtended: nat
    var length: nat
    var payloadOffset: nat
    var opcode: nat
    var payloadLength: nat
    var fin: bool
    var rsv1: bool
    var rsv2: bool
    var rsv3: bool
    var masked: bool

    constructor ()
    {
      new;
      masked := false;
    }

    /** The header fields, as the protocol names them. */
    ghost function Prelude(): Wire.Prelude
      reads this
    {
      Wire.Prelude(fin, rsv1 || rsv2 || rsv3, opcode, masked, payloadLength)
    }

    /** WebsocketsFrame_parse_offset. */
    static function ParseOffset(payloadLength: nat, masked: bool): nat {
      WS_HEADER_SIZE
      + (if payloadLength == PAYLOAD_EXTENDED then 2 else if payloadLength == PAYLOAD_EXTENDED_CONTINUED then 8 else 0)
      + (if masked then WS_MASKING_KEY_LENGTH else 0)
    }

    method ParseHeader(raw: array<byte>)
      requires raw.Length >= 2
      modifies this
      ensures Prelude() == Wire.ReadPrelude(raw[0], raw[1])
      ensures payloadOffset == Wire.PayloadStart(Prelude())
      ensures payloadLength <= PAYLOAD_MAX ==> length == payloadOffset + payloadLength
    {
      hide Wire.ReadPrelude;
      payloadLength, masked := SecondByte(raw);
      opcode, fin, rsv1, rsv2, rsv3 := FirstByte(raw);
      payloadOffset := ParseOffset(payloadLength, masked);
      if payloadLength <= PAYLOAD_MAX {
        length := payloadOffset + payloadLength;
      }
    }

    method ParsePayloadLengthExtended(raw: array<byte>)
      requires raw.Length >= Wire.LengthEnd(Prelude()) && payloadOffset == Wire.PayloadStart(Prelude())
      modifies this`payloadLengthExtended, this`length
      ensures payloadLengthExtended == Wire.Declared(Prelude(), raw[..])
      ensures length == (payloadOffset + payloadLengthExtended) % UINT64_RANGE
    {
      hide FieldValue, FromBigEndian;
      var extended: nat;
      match payloadLength {
        case 126 =>
          ExtendedField(raw[..]);
          extended := FieldValue(WS_HDR_PAYLOAD_LENGTH_EXT, raw[..]) as int;
        case 127 =>
          ExtendedContinuedField(raw[..]);
          extended := FieldValue(WS_HDR_PAYLOAD_LENGTH_EXT_CONTINUED, raw[..]) as int;
        case _ =>
          extended := payloadLength;
      }
      assert extended == Wire.Declared(Prelude(), raw[..]);
      payloadLengthExtended := extended;
      length := (payloadOffset + extended) % UINT64_RANGE;
    }

    /** WebsocketsFrame_parse: sets the pointers of a complete frame at the start of the buffer. */
    method Parse()
      requires payloadOffset == Wire.PayloadStart(Prelude())
      modifies this`maskingKey, this`payloadRaw, this`payloadRawEnd
      ensures payloadRaw == payloadOffset && payloadRawEnd == payloadOffset + payloadLengthExtended
      ensures masked ==> maskingKey == payloadOffset - WS_MASKING_KEY_LENGTH
    {
      if masked {
        maskingKey := payloadOffset - WS_MASKING_KEY_LENGTH;
      }
      payloadRaw := payloadOffset;
      payloadRawEnd := payloadRaw + payloadLengthExtended;
    }

    /** The masking that the frame declares, read from the buffer. */
    ghost function MaskIn(raw: seq<byte>): Wire.Mask
      reads this
      requires masked ==> maskingKey + 4 <= |raw|
    {
      if masked then Wire.Key(raw[maskingKey..maskingKey + 4]) else Wire.Unmasked
    }

    /** WebsocketsFrame_unmask_payload_data: in place, and nowhere but in this frame's payload. */
    method UnmaskPayloadData(raw: array<byte>)
      requires payloadRawEnd == payloadRaw + payloadLengthExtended <= raw.Length
      requires masked ==> maskingKey + WS_MASKING_KEY_LENGTH <= payloadRaw
      requires payloadLength == 0 ==> payloadLengthExtended == 0
      modifies raw
      ensures var before := old(raw[..]);
              raw[..] == before[..payloadRaw]
                         + Wire.ApplyMask(before[payloadRaw..payloadRawEnd], MaskIn(before))
                         + before[payloadRawEnd..]
    {
      hide Wire.XorWith;
      if masked && payloadLength > 0 {
        XorInPlace(raw, payloadRaw, payloadLengthExtended, maskingKey);
      } else {
        Rejoin(raw[..], payloadRaw, payloadRawEnd);
      }
    }
  }

  lemma Rejoin<T>(s: seq<T>, i: nat, j: nat)
    requires i <= j <= |s|
    ensures s == s[..i] + s[i..j] + s[j..]
  {
  }

  /** The loop of the unmasking: every payload byte is combined with the key byte of its position. */
  method XorInPlace(raw: array<byte>, start: nat, n: nat, keyAt: nat)
    requires start + n <= raw.Length && keyAt + WS_MASKING_KEY_LENGTH <= start
    modifies raw
    ensures var before := old(raw[..]);
            raw[..] == before[..start] + Wire.XorWith(before[start..start + n], before[keyAt..keyAt + 4])
                       + before[start + n..]
  {
    hide Wire.XorWith, PartlyClear;
    ghost var before := raw[..];
    PartlyAtEnds(before, start, n, keyAt);
    var i := 0;
    while i < n
      invariant i <= n
      invariant raw[..] == PartlyClear(before, start, n, keyAt, i)
    {
      var key := raw[keyAt + i % WS_MASKING_KEY_LENGTH];
      UnmaskStep(before, start, n, keyAt, i);
      raw[start + i] := raw[start + i] ^ key;
      i := i + 1;
    }
  }

  /** The array when i payload bytes are unmasked. */
  ghost function PartlyClear(before: seq<byte>, start: nat, n: nat, keyAt: nat, i: nat): (s: seq<byte>)
    requires i <= n && start + n <= |before| && keyAt + WS_MASKING_KEY_LENGTH <= start
    ensures |s| == |before|
  {
    before[..start] + Wire.XorWith(before[start..start + n], before[keyAt..keyAt + 4])[..i] + before[start + i..]
  }

  lemma PartlyAtEnds(before: seq<byte>, start: nat, n: nat, keyAt: nat)
    requires start + n <= |before| && keyAt + WS_MASKING_KEY_LENGTH <= start
    ensures PartlyClear(before, start, n, keyAt, 0) == before
    ensures PartlyClear(before, start, n, keyAt, n)
            == before[..start] + Wire.XorWith(before[start..start + n], before[keyAt..keyAt + 4]) + before[start + n..]
  {
    hide Wire.XorWith;
    var clear := Wire.XorWith(before[start..start + n], before[keyAt..keyAt + 4]);
    assert clear[..n] == clear && before == before[..start] + [] + before[start..];
  }

  /** The array after one step more. */
  lemma UnmaskStep(before: seq<byte>, start: nat, n: nat, keyAt: nat, i: nat)
    requires i < n && start + n <= |before| && keyAt + WS_MASKING_KEY_LENGTH <= start
    ensures var now := PartlyClear(before, start, n, keyAt, i);
            now[start + i := now[start + i] ^ now[keyAt + i % 4]] == PartlyClear(before, start, n, keyAt, i + 1)
  {
    hide Wire.XorWith;
    var clear := Wire.XorWith(before[start..start + n], before[keyAt..keyAt + 4]);
    UnmaskedOne(before, clear, start, i);
    KeyByte(before, clear, start, i, keyAt + i % 4);
    ClearByte(before, start, n, keyAt, i);
  }

  lemma ClearByte(before: seq<byte>, start: nat, n: nat, keyAt: nat, i: nat)
    requires i < n && start + n <= |before| && keyAt + 4 <= |before|
    ensures Wire.XorWith(before[start..start + n], before[keyAt..keyAt + 4])[i]
            == before[start + i] ^ before[keyAt + i % 4]
  {
  }

  lemma KeyByte(before: seq<byte>, clear: seq<byte>, start: nat, i: nat, k: nat)
    requires i < |clear| && start + |clear| <= |before| && k < start
    ensures (before[..start] + clear[..i] + before[start + i..])[k] == before[k]
    ensures (before[..start] + clear[..i] + before[start + i..])[start + i] == before[start + i]
  {
  }

  lemma UnmaskedOne(before: seq<byte>, clear: seq<byte>, start: nat, i: nat)
    requires i < |clear| && start + |clear| <= |before|
    ensures (before[..start] + clear[..i] + before[start + i..])[start + i := clear[i]]
            == before[..start] + clear[..i + 1] + before[start + i + 1..]
  {
  }

  // ----- building frames -----

  /** WebsocketsFrame_offset. */
  function Offset(nchars: nat, masked: bool): nat {
    WS_HEADER_SIZE
    + (if nchars > PAYLOAD_EXTENDED_MAX then 8 else if nchars > PAYLOAD_MAX then 2 else 0)
    + (if masked then WS_MASKING_KEY_LENGTH else 0)
  }

  /** What WebsocketsFrame_create lays down: the length field counts every character, but the payload's own
      length is cut to 32 bits. */
  function Created(opcode: nat, payload: seq<byte>): seq<byte>
    requires opcode < 16 && |payload| <= SSIZE_MAX
  {
    var form := Wire.ShortestForm(|payload|);
    Wire.Header(Wire.Frame(true, opcode, payload), Wire.Unmasked, form) + payload[..|payload| % (UINT32_MAX + 1)]
  }

  lemma CreatedIsEncoded(opcode: nat, payload: seq<byte>)
    requires opcode < 16 && |payload| <= UINT32_MAX
    ensures var f, form := Wire.Frame(true, opcode, payload), Wire.ShortestForm(|payload|);
            && Created(opcode, payload) == Wire.Encode(f, Wire.Unmasked, form)
            && |Created(opcode, payload)| == Offset(|payload|, false) + |payload|
  {
    hide Wire.Header;
    assert payload[..|payload| % (UINT32_MAX + 1)] == payload;
  }

  lemma CreatedIsCut(opcode: nat, payload: seq<byte>)
    requires opcode < 16 && UINT32_MAX < |payload| <= SSIZE_MAX
    ensures |Created(opcode, payload)| < |payload|
  {
    hide Wire.Header;
    assert |payload| % (UINT32_MAX + 1) <= |payload| - (UINT32_MAX + 1);
  }

  /** A created frame reads back as the frame it was created for if and only if its payload's length is a uint32_t. */
  lemma CreatedReadsBack(opcode: nat, payload: seq<byte>)
    requires opcode < 16 && |payload| <= SSIZE_MAX
    ensures Wire.Read(Created(opcode, payload))
            == Wire.Complete(Wire.Frame(true, opcode, payload), |Created(opcode, payload)|)
            <==> |payload| <= UINT32_MAX
    ensures |payload| <= UINT32_MAX ==> |Created(opcode, payload)| == Offset(|payload|, false) + |payload|
  {
    hide Wire.Read, Wire.Encode, Created, Offset;
    var s := Created(opcode, payload);
    if |payload| <= UINT32_MAX {
      CreatedIsEncoded(opcode, payload);
      assert s == s + [];
      Wire.ReadUndoesEncode(Wire.Frame(true, opcode, payload), Wire.Unmasked, Wire.ShortestForm(|payload|), []);
    } else {
      CreatedIsCut(opcode, payload);
      Wire.PayloadInFrame(s);
    }
  }

  lemma TopBitSet(b: byte)
    requires b as int < 128
    ensures (0x80 | b) as int == 128 + b as int
  {
  }

  /** The fin bit over an opcode, or the mask bit over a length code. */
  lemma HeaderBits(n: nat)
    requires n < 128
    ensures 0x80 | U8(n) == U8(128 + n)
  {
    TopBitSet(U8(n));
    ByteInjective(0x80 | U8(n), U8(128 + n));
  }

  method AppendNumber(buf: Buffer, offset: nat, num: bv64, size: nat)
    requires buf.Valid() && size <= 8 && offset == buf.used
    modifies buf, buf.value
    ensures buf.Valid() && (buf.value == old(buf.value) || fresh(buf.value))
    ensures buf.Contents() == old(buf.Contents()) + MemoryBytes(num)[..size]
    ensures buf.length == Max(old(buf.length), old(buf.used) + size)
  {
    buf.Append(offset, MemoryBytes(num)[..size]);
  }

  /** WebsocketsFrame_write_header: the header up to the masking key, which a masked payload brings along. */
  method WriteHeader(buf: Buffer, headerBits: byte, nchars: nat, masked: bool)
    requires buf.Valid() && nchars <= SSIZE_MAX
    modifies buf, buf.value
    ensures buf.Valid() && (buf.value == old(buf.value) || fresh(buf.value))
    ensures var form := Wire.ShortestForm(nchars);
            buf.Contents() == old(buf.Contents())
                              + [headerBits, U8((if masked then 128 else 0) + Wire.LengthCode(nchars, form))]
                              + Wire.ExtendedLength(nchars, form)
    ensures buf.length == Max(old(buf.length), old(buf.used) + Offset(nchars, false))
  {
    var payloadLength :=
      if nchars < PAYLOAD_EXTENDED then nchars
      else if nchars <= PAYLOAD_EXTENDED_MAX then PAYLOAD_EXTENDED
      else PAYLOAD_EXTENDED_CONTINUED;
    HeaderBits(payloadLength);
    buf.Cat([headerBits, if masked then 0x80 | U8(payloadLength) else U8(payloadLength)]);
    if payloadLength > 0 {
      match payloadLength {
        case 126 =>
          Append16(buf, nchars);
        case 127 =>
          Append64(buf, nchars);
        case _ =>
      }
    }
  }

  /** StringBuffer_cat_htons. */
  method Append16(buf: Buffer, n: nat)
    requires buf.Valid() && n <= UINT16_MAX
    modifies buf, buf.value
    ensures buf.Valid() && (buf.value == old(buf.value) || fresh(buf.value))
    ensures buf.Contents() == old(buf.Contents()) + Wire.ExtendedLength(n, Wire.Medium)
    ensures buf.length == Max(old(buf.length), old(buf.used) + 2)
  {
    Wire.ExtendedRange(n, Wire.Medium);
    WriteNetwork16(U16(n), n);
    AppendNumber(buf, buf.used, Swap16(U16(n)) as bv64, 2);
  }

  /** StringBuffer_cat_hton64. */
  method Append64(buf: Buffer, n: nat)
    requires buf.Valid() && n <= SSIZE_MAX
    modifies buf, buf.value
    ensures buf.Valid() && (buf.value == old(buf.value) || fresh(buf.value))
    ensures buf.Contents() == old(buf.Contents()) + Wire.ExtendedLength(n, Wire.Long)
    ensures buf.length == Max(old(buf.length), old(buf.used) + 8)
  {
    hide Word64, Hton64, MemoryBytes, BigEndian;
    Wire.ExtendedRange(n, Wire.Long);
    WriteNetwork64(Word64(n, 8), n);
    AppendNumber(buf, buf.used, Hton64(Word64(n, 8)), 8);
  }

  lemma CreatedIsHeaderThenPayload(opcode: nat, payload: seq<byte>)
    requires opcode < 16 && |payload| <= SSIZE_MAX
    ensures var n, form := |payload|, Wire.ShortestForm(|payload|);
            Created(opcode, payload) == [0x80 | U8(opcode), U8(Wire.LengthCode(n, form))]
                                        + Wire.ExtendedLength(n, form) + payload[..n % (UINT32_MAX + 1)]
  {
    HeaderBits(opcode);
  }

  method Create(opcode: nat, payload: seq<byte>) returns (buf: Buffer)
    requires opcode < 16 && |payload| <= SSIZE_MAX
    ensures fresh(buf) && fresh(buf.value) && buf.Valid()
    ensures buf.Contents() == Created(opcode, payload)
    ensures buf.length == Offset(|payload|, false) + |payload|
  {
    hide Wire.ExtendedLength, Wire.LengthCode, U8, Created;
    CreatedIsHeaderThenPayload(opcode, payload);
    var nchars := |payload|;
    buf := new Buffer(Offset(nchars, false) + nchars);
    WriteHeader(buf, 0x80 | U8(opcode), nchars, false);
    ghost var head := buf.Contents();
    if nchars > 0 {
      buf.Cat(payload[..nchars % (UINT32_MAX + 1)]);
    }
    assert buf.Contents() == head + payload[..nchars % (UINT32_MAX + 1)];
  }
}
