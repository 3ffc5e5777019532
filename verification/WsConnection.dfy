/** socket/ws/ws_connection.c: the receive path of an established connection. */
module WsConnection {
  import opened Bytes
  import opened Options
  import opened FileDescriptor
  import opened StringBuffer
  import opened FrameCodec
  import opened NetworkOrder
  import opened Websocket
  import Wire
  import S = Session

  /** The part of the connection that the receive path uses. */
  class Connection {
    var sent: seq<S.Outgoing>
    var receiving: bool
    var closed: bool

    constructor ()
      ensures sent == [] && receiving && !closed
    {
      sent, receiving, closed := [], true, false;
    }

    method Send(o: S.Outgoing)
      modifies this`sent
      ensures sent == old(sent) + [o]
    {
      sent := sent + [o];
    }

    method ReceiveClose()
      modifies this`receiving
      ensures !receiving
    {
      receiving := false;
    }

    method Close()
      modifies this`closed
      ensures closed
    {
      closed := true;
    }
  }

  /** What the first frame takes by its header; 0 while length bytes are missing. */
  function FrontSize(b: seq<byte>): nat {
    if |b| < WS_FRAME_LENGTH_MIN then 0
    else
      var p := Wire.ReadPrelude(b[0], b[1]);
      if |b| < Wire.LengthEnd(p) then 0 else Wire.PayloadStart(p) + Wire.Declared(p, b)
  }

  /** The size of the longest frame announced in a buffer. */
  function Longest(b: seq<byte>): nat
    decreases |b|
  {
    if Wire.Read(b).Complete? then Max(FrontSize(b), Longest(b[Wire.Read(b).size..])) else FrontSize(b)
  }

  /** Header and payload length of the first frame add up within a uint64_t. */
  predicate FrontFits(b: seq<byte>) {
    FrontSize(b) < UINT64_RANGE
  }

  /** The same for every frame in the buffer; it holds whenever the top bit of every 64-bit length is zero, as
      section 5.2 of RFC 6455 requires. */
  predicate LengthsFit(b: seq<byte>) {
    Longest(b) < UINT64_RANGE
  }

  class Websockets {
    const conn: Connection
    const frame: WebsocketsFrame
    var state: S.State
    var input: Buffer
    var fragments: Buffer?
    var fragmentsOpcode: nat
    var numPingsWithoutPong: nat
    ghost var delivered: seq<Wire.Frame>

    ghost predicate Valid()
      reads this, input, input.value
      reads if fragments != null then {fragments, fragments.value} else {}
    {
      && input.Valid() && input.length >= WS_HANDSHAKE_BUFFER_SIZE
      && fragmentsOpcode < 16
      && (fragments != null ==> fragments != input && fragments.value != input.value && fragments.Valid())
    }

    ghost function Repr(): set<object>
      reads this, input, fragments
    {
      {this, conn, frame, input, input.value} + FragmentsRepr()
    }

    ghost function FragmentsRepr(): set<object>
      reads this, fragments
    {
      if fragments == null then {} else var f: Buffer := fragments; {f, f.value}
    }

    /** The connection as the dispatcher's laws see it. */
    ghost function Session(): S.Session
      reads this, conn
      reads if fragments != null then {fragments, fragments.value} else {}
      requires fragments != null ==> fragments.Valid()
    {
      S.Session(state, if fragments == null then None else Some(fragments.Contents()),
                fragmentsOpcode, numPingsWithoutPong, conn.receiving, delivered, conn.sent)
    }

    /** What is buffered is an object in memory, so its size is a ssize_t. */
    ghost predicate InMemory()
      reads this, input, input.value
      reads if fragments != null then {fragments, fragments.value} else {}
      requires Valid()
    {
      input.used + (if fragments != null then fragments.used else 0) <= SSIZE_MAX
    }

    constructor ()
      ensures Valid() && fresh(Repr()) && input.Contents() == []
      ensures Session() == S.Session(S.New, None, 0, 0, true, [], [])
      ensures input.length == WS_HANDSHAKE_BUFFER_SIZE && input.status == Ok
    {
      conn := new Connection();
      frame := new WebsocketsFrame();
      state := S.New;
      input := new Buffer(WS_HANDSHAKE_BUFFER_SIZE);
      fragments := null;
      fragmentsOpcode := 0;
      numPingsWithoutPong := 0;
      delivered := [];
    }

    /** handshake_send_finished. */
    method HandshakeSendFinished()
      requires Valid()
      modifies Repr()
      ensures Valid() && Repr() == old(Repr()) && input.Contents() == []
      ensures Session() == old(Session()).(state := S.Established, receiving := true)
      ensures input == old(input) && input.length == old(input.length)
      ensures input.status == old(input.status) && input.errno == old(input.errno)
    {
      input.Clear();
      state := S.Established;
      conn.receiving := true;
    }

    /** ws_send_error. */
    method SendError(code: nat)
      requires Valid()
      modifies this`state, conn`sent, conn`receiving
      ensures Valid() && Session() == S.RefuseWith(old(Session()), code)
      ensures state == S.Failed && !conn.receiving && conn.sent == old(conn.sent) + [S.ErrorReply(code)]
    {
      state := S.Failed;
      conn.ReceiveClose();
      conn.Send(S.ErrorReply(code));
    }

    /** The frame's length fields and the payload's place are those of f. */
    ghost predicate Sized(f: Wire.Frame)
      reads frame
    {
      && frame.payloadRaw == Wire.PayloadStart(frame.Prelude())
      && frame.length == Wire.PayloadStart(frame.Prelude()) + |f.payload|
      && frame.payloadLengthExtended == |f.payload|
      && frame.payloadLength < 128
      && (frame.payloadLength <= PAYLOAD_MAX ==> |f.payload| == frame.payloadLength)
    }

    /** The frame's fields are those of the complete frame at the front of the buffer. */
    ghost predicate Parsed(f: Wire.Frame)
      reads this, frame, input, input.value
      requires input.Valid()
    {
      var b := input.Contents();
      && Wire.Read(b) == Wire.Complete(f, frame.length)
      && frame.Prelude() == Wire.ReadPrelude(b[0], b[1])
      && frame.payloadOffset == Wire.PayloadStart(frame.Prelude())
      && frame.payloadLengthExtended == Wire.Declared(frame.Prelude(), b)
    }

    /** Unmasks in place: the payload becomes readable and no other byte of the buffer changes. */
    method Unmask(ghost f: Wire.Frame)
      requires Valid() && Parsed(f)
      requires frame.payloadRaw == frame.payloadOffset
      requires frame.payloadRawEnd == frame.payloadOffset + frame.payloadLengthExtended
      requires frame.masked ==> frame.maskingKey == frame.payloadOffset - WS_MASKING_KEY_LENGTH
      modifies input.value
      ensures Valid() && frame.length <= input.used
      ensures input.Contents()[frame.length..] == old(input.Contents())[frame.length..]
      ensures PayloadIs(f) && |f.payload| <= input.used
    {
      hide Wire.Read, Wire.ReadPrelude, Wire.ApplyMask, Wire.Declared;
      ghost var before := input.value[..];
      assert before[..input.used] == input.Contents();
      UnmaskedPayload(before, input.used, frame.Prelude());
      frame.UnmaskPayloadData(input.value);
      Unmasked(before, input.value[..], f.payload, frame.payloadRaw, frame.payloadRawEnd, input.used);
    }

    /** The unmasked payload lies where the frame's pointers say. */
    ghost predicate PayloadIs(f: Wire.Frame)
      reads this, frame, input, input.value
      requires input.Valid()
    {
      && frame.fin == f.fin && frame.opcode == f.opcode < 16
      && frame.payloadRaw <= frame.payloadRawEnd <= input.used
      && input.value[frame.payloadRaw..frame.payloadRawEnd] == f.payload
    }

    /** ws_send of a frame that was created for this. */
    method SendFrame(buf: Buffer, ghost opcode: nat, ghost payload: seq<byte>)
      requires buf.Valid() && opcode < 16 && |payload| <= SSIZE_MAX && buf.Contents() == Created(opcode, payload)
      modifies conn`sent
      ensures conn.sent == old(conn.sent) + [S.FrameBytes(buf.Contents())]
      ensures conn.sent == old(conn.sent) + [S.Reply(opcode, payload)]
    {
      if buf.used < WS_FRAME_LENGTH_MIN {
        return;
      }
      conn.Send(S.FrameBytes(buf.value[..buf.used]));
    }

    /** A continuation frame. */
    method ContinueMessage(ghost f: Wire.Frame)
      requires Valid() && PayloadIs(f) && fragments != null && fragments.used + |f.payload| <= SSIZE_MAX
      modifies this`fragments, this`delivered, conn`sent, fragments, fragments.value
      ensures Valid() && Session() == S.Continue(old(Session()), f)
      ensures fresh(FragmentsRepr() - old(FragmentsRepr()))
    {
      hide Created, S.Reply;
      delivered := delivered + [f];
      fragments.Cat(input.value[frame.payloadRaw..frame.payloadRawEnd]);
      if frame.fin {
        var whole := Create(fragmentsOpcode, fragments.value[..fragments.used]);
        SendFrame(whole, fragmentsOpcode, fragments.Contents());
        fragments := null;
      }
    }

    /** The first fragment of a message. */
    method StartCollecting(ghost f: Wire.Frame)
      requires Valid() && PayloadIs(f)
      modifies this`fragments, this`fragmentsOpcode
      ensures Valid() && fresh(FragmentsRepr())
      ensures Session() == old(Session()).(fragments := Some(f.payload), fragmentsOpcode := f.opcode)
    {
      fragments := new Buffer(WS_BUFFER_SIZE);
      fragments.Cat(input.value[frame.payloadRaw..frame.payloadRawEnd]);
      assert [] + f.payload == f.payload;
      fragmentsOpcode := frame.opcode;
    }

    /** A text or binary frame; the request handler echoes it. */
    method ReceiveMessage(ghost f: Wire.Frame)
      requires Valid() && PayloadIs(f) && |f.payload| <= SSIZE_MAX
      modifies this`state, this`fragments, this`fragmentsOpcode, this`delivered, conn`sent, conn`receiving
      ensures Valid() && Session() == S.Message(old(Session()), f).(state := S.Established)
      ensures fresh(FragmentsRepr() - old(FragmentsRepr()))
    {
      hide Created, S.Reply;
      delivered := delivered + [f];
      if frame.fin {
        if fragments != null {
          SendError(WS_CODE_ERROR_PROTOCOL);
        } else {
          var payload := input.value[frame.payloadRaw..frame.payloadRawEnd];
          var echo := Create(frame.opcode, payload);
          SendFrame(echo, frame.opcode, payload);
        }
      } else {
        StartCollecting(f);
      }
      state := S.Established;
    }

    /** WebsocketsFrame_response_status, in network order. */
    method ResponseStatus(ghost f: Wire.Frame) returns (status: bv16)
      requires Valid() && PayloadIs(f) && Sized(f)
      ensures |f.payload| >= 2 || S.InShortForm(f.payload, frame.length) ==>
                MemoryBytes(status as bv64)[..2] == BigEndian(S.Status(f.payload), 2)
    {
      hide S.ReplyToCode, FromBigEndian, BigEndian, Swap16, Load16, MemoryBytes;
      var answer: nat;
      assert frame.payloadRaw <= 14;
      if frame.payloadLength == 0 {
        answer := WS_CODE_SUCCESS;
      } else if frame.payloadLength == 1 {
        answer := WS_CODE_ERROR_PROTOCOL;
      } else {
        var front := input.value[frame.payloadRaw..frame.payloadRaw + 2];
        ReadNetwork16(front);
        assert |f.payload| >= 2 ==> front == f.payload[..2];
        answer := ResponseTo(Swap16(Load16(front)) as int);
      }
      status := Swap16(U16(answer));
      WriteNetwork16(U16(answer), answer);
    }

    /** The answer to a received status code. */
    static method ResponseTo(closeCode: nat) returns (answer: nat)
      requires closeCode <= UINT16_MAX
      ensures answer == S.ReplyToCode(closeCode) <= UINT16_MAX
    {
      if WS_CODE_PROTOCOL_MIN <= closeCode && closeCode <= WS_CODE_PROTOCOL_MAX {
        match closeCode {
          case 1001 | 1010 | 1003 | 1007 | 1002 | 1009 | 1008 | 1011 | 1000 => answer := WS_CODE_SUCCESS;
          case _ => answer := WS_CODE_ERROR_PROTOCOL;
        }
      } else if WS_CODE_PUBLIC_MIN <= closeCode && closeCode <= WS_CODE_PUBLIC_MAX {
        answer := closeCode;
      } else if WS_CODE_PRIVATE_MIN <= closeCode && closeCode <= WS_CODE_PRIVATE_MAX {
        answer := closeCode;
      } else {
        answer := WS_CODE_ERROR_PROTOCOL;
      }
    }

    /** The answer to a CLOSE: a CLOSE frame with the response status. */
    method AnswerClose(ghost f: Wire.Frame)
      requires Valid() && PayloadIs(f) && Sized(f)
      modifies conn`sent
      ensures conn.sent == old(conn.sent) + [S.CloseAnswer(f.payload, frame.length)]
    {
      hide Created, S.Reply, S.Status, BigEndian, MemoryBytes;
      var status := ResponseStatus(f);
      if frame.payloadLength > PAYLOAD_MAX && frame.payloadLengthExtended < 2 {
        conn.Send(S.CloseFromBehind);
      } else {
        var bytes := MemoryBytes(status as bv64)[..2];
        var answer := Create(Wire.CLOSE, bytes);
        SendFrame(answer, Wire.CLOSE, bytes);
      }
    }

    /** WebsocketsFrame_process_control_frame. */
    method ProcessControlFrame(ghost f: Wire.Frame)
      requires Valid() && PayloadIs(f) && Sized(f) && |f.payload| <= SSIZE_MAX
      modifies this`state, this`numPingsWithoutPong, conn`sent, conn`receiving
      ensures Valid() && Session() == S.Control(old(Session()), f, frame.length)
    {
      hide Created, S.Reply, S.CloseAnswer;
      if frame.length > WS_CONTROL_MESSAGE_SIZE_MAX {
        SendError(WS_CODE_ERROR_PROTOCOL);
      } else if !frame.fin {
        SendError(WS_CODE_ERROR_PROTOCOL);
      } else {
        match frame.opcode {
          case 8 =>
            conn.ReceiveClose();
            state := S.Closing;
            AnswerClose(f);
          case 9 =>
            var payload := input.value[frame.payloadRaw..frame.payloadRawEnd];
            var pong := Create(Wire.PONG, payload);
            SendFrame(pong, Wire.PONG, payload);
          case 10 =>
            if numPingsWithoutPong != 0 {
              numPingsWithoutPong := 0;
            }
          case _ =>
        }
      }
    }

    /** The frame f of n bytes, at the front of a buffer that held b, was dispatched to a connection that was s. */
    ghost predicate Dispatched(s: S.Session, b: seq<byte>, f: Wire.Frame, n: nat)
      reads this, conn, input, input.value
      reads if fragments != null then {fragments, fragments.value} else {}
    {
      && Valid() && Session() == S.Dispatch(s, f, n)
      && n <= input.used == |b| && input.Contents()[n..] == b[n..]
    }

    /** The handler of the frame's kind, its payload being unmasked. */
    method Handle(ghost f: Wire.Frame)
      requires Valid() && PayloadIs(f) && Sized(f)
      requires |f.payload| + (if fragments != null then fragments.used else 0) <= SSIZE_MAX
      requires frame.opcode in {0, 1, 2, 8, 9, 10} && (frame.opcode == 0 ==> fragments != null)
      modifies this`state, this`fragments, this`fragmentsOpcode, this`numPingsWithoutPong, this`delivered
      modifies conn`sent, conn`receiving, FragmentsRepr()
      ensures fresh(FragmentsRepr() - old(FragmentsRepr()))
      ensures Valid() && Session() == S.Dispatch(old(Session()), f, frame.length)
    {
      hide S.Continue, S.Message, S.Control;
      if frame.opcode == 0 {
        ContinueMessage(f);
      } else if frame.opcode == 1 || frame.opcode == 2 {
        ReceiveMessage(f);
      } else {
        delivered := delivered + [f];
        ProcessControlFrame(f);
        state := S.Established;
      }
    }

    /** Unmasks the frame and hands it to the handler of its kind. */
    method UnmaskAndHandle(ghost f: Wire.Frame)
      requires Valid() && InMemory() && Parsed(f)
      requires frame.payloadRaw == frame.payloadOffset
      requires frame.payloadRawEnd == frame.payloadOffset + frame.payloadLengthExtended
      requires frame.masked ==> frame.maskingKey == frame.payloadOffset - WS_MASKING_KEY_LENGTH
      requires frame.opcode in {0, 1, 2, 8, 9, 10} && (frame.opcode == 0 ==> fragments != null)
      modifies this`state, this`fragments, this`fragmentsOpcode, this`numPingsWithoutPong, this`delivered
      modifies conn`sent, conn`receiving, input.value, FragmentsRepr()
      ensures fresh(FragmentsRepr() - old(FragmentsRepr()))
      ensures Dispatched(old(Session()), old(input.Contents()), f, frame.length)
    {
      hide Wire.Read, Wire.ReadPrelude, Wire.Declared, S.Dispatch;
      SizeOfFrame(input.Contents());
      Unmask(f);
      Handle(f);
    }

    /** The pointers of the complete frame at the front of the buffer. */
    method SetPointers(ghost f: Wire.Frame)
      requires Valid() && Parsed(f)
      modifies frame`maskingKey, frame`payloadRaw, frame`payloadRawEnd
      ensures Parsed(f) && frame.opcode == f.opcode < 16 && frame.length <= input.used
      ensures frame.payloadRaw == frame.payloadOffset
      ensures frame.payloadRawEnd == frame.payloadOffset + frame.payloadLengthExtended
      ensures frame.masked ==> frame.maskingKey == frame.payloadOffset - WS_MASKING_KEY_LENGTH
    {
      hide Wire.Read, Wire.ReadPrelude, Wire.Declared, Wire.ApplyMask;
      UnmaskedPayload(input.value[..], input.used, frame.Prelude());
      assert input.value[..][..input.used] == input.Contents();
      frame.Parse();
    }

    /** Websockets_process_frame: dispatches the complete frame at the front of the buffer. */
    method ProcessCompleteFrame(ghost f: Wire.Frame)
      requires Valid() && InMemory() && Parsed(f)
      modifies this`state, this`fragments, this`fragmentsOpcode, this`numPingsWithoutPong, this`delivered
      modifies conn`sent, conn`receiving, input.value, FragmentsRepr()
      modifies frame`maskingKey, frame`payloadRaw, frame`payloadRawEnd
      ensures fresh(FragmentsRepr() - old(FragmentsRepr()))
      ensures Dispatched(old(Session()), old(input.Contents()), f, frame.length)
      ensures state != S.Established && old(state) == S.Established ==> input.Contents() == old(input.Contents())
    {
      hide Wire.Read, Wire.ReadPrelude, Wire.Declared, Wire.PayloadStart, S.Dispatch, S.RefuseWith;
      SetPointers(f);
      if frame.opcode in {0, 1, 2, 8, 9, 10} && (frame.opcode == 0 ==> fragments != null) {
        HandledStaysOpen(Session(), f, frame.length);
        UnmaskAndHandle(f);
      } else {
        RefusedFrame(Session(), f, frame.length);
        SendError(WS_CODE_ERROR_PROTOCOL);
      }
    }

    /** WebsocketsFrame_parse_length: false while the length bytes are missing; else the buffer has room for the frame
        length, which is added in 64 bits. */
    method ParseLength() returns (ok: bool)
      requires Valid()
      requires frame.Prelude() == Wire.ReadPrelude(input.value[0], input.value[1])
      requires frame.payloadOffset == Wire.PayloadStart(frame.Prelude())
      modifies frame`payloadLengthExtended, frame`length, input`length, input`value, input`status
      ensures input.status == old(input.status)
      ensures Valid() && (input.value == old(input.value) || fresh(input.value))
      ensures input.Contents() == old(input.Contents()) && frame.Prelude() == old(frame.Prelude())
      ensures ok == (input.used >= Wire.LengthEnd(frame.Prelude()))
      ensures ok ==>
                && frame.payloadLengthExtended == Wire.Declared(frame.Prelude(), input.Contents())
                && frame.length == (frame.payloadOffset + frame.payloadLengthExtended) % UINT64_RANGE
      ensures input.length == if ok then Max(old(input.length), frame.length) else old(input.length)
    {
      hide Wire.ReadPrelude, FromBigEndian;
      var lengthEnd := frame.payloadOffset;
      if frame.masked {
        lengthEnd := lengthEnd - WS_MASKING_KEY_LENGTH;
      }
      if input.used < lengthEnd {
        return false;
      }
      DeclaredInPrefix(frame.Prelude(), input.value[..], input.used);
      frame.ParsePayloadLengthExtended(input.value);
      if input.length >= frame.length {
        return true;
      }
      ok := input.MakeRoom(0, frame.length);
    }

    /** Reads the header; the reserved bits count even if only one byte is there. */
    method ReadHeader() returns (reserved: bool)
      requires Valid()
      modifies frame
      ensures frame.Prelude() == Wire.ReadPrelude(input.value[0], input.value[1])
      ensures frame.payloadOffset == Wire.PayloadStart(frame.Prelude())
      ensures reserved == frame.Prelude().rsv == (input.used >= 1 && S.HasReservedBits(input.Contents()[0]))
    {
      hide Wire.ReadPrelude, S.HasReservedBits, Wire.PayloadStart;
      HeaderInBuffer(input.value[..], input.used);
      frame.ParseHeader(input.value);
      reserved := frame.rsv1 || frame.rsv2 || frame.rsv3;
    }

    /** Is the frame whose header was read all there? */
    method FrameArrived() returns (complete: bool)
      requires Valid()
      requires frame.Prelude() == Wire.ReadPrelude(input.value[0], input.value[1]) && !frame.Prelude().rsv
      requires frame.payloadOffset == Wire.PayloadStart(frame.Prelude())
      modifies frame`payloadLengthExtended, frame`length, input`length, input`value, input`status
      ensures input.length == Max(old(input.length), FrontSize(old(input.Contents())) % UINT64_RANGE)
      ensures input.status == old(input.status)
      ensures Valid() && (input.value == old(input.value) || fresh(input.value))
      ensures input.Contents() == old(input.Contents())
      ensures complete == (0 < FrontSize(input.Contents()) && FrontSize(input.Contents()) % UINT64_RANGE <= input.used)
      ensures FrontFits(input.Contents()) ==>
                && complete == Wire.Read(input.Contents()).Complete?
                && (complete ==> Parsed(Wire.Read(input.Contents()).frame))
      ensures complete && input.used <= SSIZE_MAX ==>
                (FrontFits(input.Contents()) <==> FrontSize(input.Contents()) <= input.used)
      ensures !complete ==> input.used < input.length
    {
      hide Wire.Read, Wire.ReadPrelude, Wire.Declared, Wire.PayloadStart, Wire.LengthEnd;
      WhatIsRead(input.Contents());
      HeaderIsShort(frame.Prelude());
      complete := ParseLength();
      if complete {
        complete := input.used >= frame.length;
      }
    }

    /** The frame whose header was read, without reserved bits, is dispatched if it is all there. */
    method ProcessIfArrived() returns (more: bool)
      requires Valid() && InMemory() && state == S.Established && FrontFits(input.Contents())
      requires frame.Prelude() == Wire.ReadPrelude(input.value[0], input.value[1]) && !frame.Prelude().rsv
      requires frame.payloadOffset == Wire.PayloadStart(frame.Prelude())
      modifies this`state, this`fragments, this`fragmentsOpcode, this`numPingsWithoutPong, this`delivered
      modifies conn`sent, conn`receiving, frame, FragmentsRepr()
      modifies input`length, input`used, input`value, input`status, input.value
      ensures old(input.length) <= input.length <= Max(old(input.length), FrontSize(old(input.Contents())))
      ensures Valid() && fresh(Repr() - old(Repr())) && input.status == old(input.status)
      ensures var b, r := old(input.Contents()), Wire.Read(old(input.Contents()));
              if r.Complete? then
                && Dispatched(old(Session()), b, r.frame, r.size)
                && more == (state == S.Established) && frame.length == r.size
                && (!more ==> input.Contents() == b)
              else
                !more && input.Contents() == b && Session() == old(Session()) && input.used < input.length
    {
      hide S.Dispatch, Wire.Read, Wire.Declared, Wire.ReadPrelude, Wire.LengthEnd, FrontSize;
      var complete := FrameArrived();
      if complete {
        ProcessCompleteFrame(Wire.Read(input.Contents()).frame);
        if state == S.Established {
          return true;
        }
      }
      return false;
    }

    /** process_frame: true if a frame was dispatched and the connection is still established. */
    method ProcessFrame() returns (more: bool)
      requires Valid() && InMemory() && state == S.Established && FrontFits(input.Contents())
      modifies this`state, this`fragments, this`fragmentsOpcode, this`numPingsWithoutPong, this`delivered
      modifies conn`sent, conn`receiving, frame, FragmentsRepr()
      modifies input`length, input`used, input`value, input`status, input.value
      ensures old(input.length) <= input.length <= Max(old(input.length), FrontSize(old(input.Contents())))
      ensures Valid() && fresh(Repr() - old(Repr())) && input.status == old(input.status)
      ensures var b, r := old(input.Contents()), Wire.Read(old(input.Contents()));
              if |b| >= WS_FRAME_LENGTH_MIN && r.Complete? then
                && Dispatched(old(Session()), b, r.frame, r.size)
                && more == (state == S.Established) && frame.length == r.size
                && (!more ==> input.Contents() == b)
              else
                && !more && input.Contents() == b
                && Session() == if |b| >= 1 && S.HasReservedBits(b[0]) then S.Refuse(old(Session())) else old(Session())
      ensures !more && state == S.Established ==> input.used < input.length
    {
      hide S.Dispatch, S.HasReservedBits, S.RefuseWith, FrontSize;
      hide Wire.Read, Wire.Declared, Wire.ReadPrelude, Wire.PayloadStart;
      WhatIsRead(input.Contents());
      ReservedIsNotComplete(input.Contents());
      var reserved := ReadHeader();
      if reserved {
        SendError(WS_CODE_ERROR_PROTOCOL);
        more := false;
      } else {
        more := ProcessIfArrived();
      }
    }

    /** One round of process_frames: dispatch a frame, shift it out, look whether there may be another. */
    method Round() returns (more: bool)
      requires Valid() && InMemory() && state == S.Established && LengthsFit(input.Contents())
      modifies this`state, this`fragments, this`fragmentsOpcode, this`numPingsWithoutPong, this`delivered
      modifies conn`sent, conn`receiving, frame, FragmentsRepr()
      modifies input`length, input`used, input`value, input`status, input.value
      ensures old(input.length) <= input.length <= Max(old(input.length), Longest(old(input.Contents())))
      ensures Valid() && fresh(Repr() - old(Repr())) && input.status == old(input.status)
      ensures more ==> Longest(input.Contents()) <= Longest(old(input.Contents()))
      ensures more ==>
                && state == S.Established && InMemory() && LengthsFit(input.Contents()) && input.used < old(input.used)
                && S.ProcessFrames(Session(), input.Contents()) == S.ProcessFrames(old(Session()), old(input.Contents()))
      ensures !more ==>
                && (Session(), input.Contents()) == S.ProcessFrames(old(Session()), old(input.Contents()))
                && (state == S.Established ==> input.used < input.length && InMemory())
    {
      hide S.Dispatch, S.ProcessFrames, Wire.Read, FrontSize, Longest, S.HasReservedBits;
      OneFrame(Session(), input.Contents());
      FrontOf(input.Contents());
      more := ProcessFrame();
      if more {
        input.Shift(frame.length);
        more := input.used >= WS_FRAME_LENGTH_MIN;
      }
    }

    /** process_frames: dispatches every complete frame in the buffer, as long as the connection stays established. */
    method ProcessFrames()
      requires Valid() && InMemory() && state == S.Established && LengthsFit(input.Contents())
      modifies this`state, this`fragments, this`fragmentsOpcode, this`numPingsWithoutPong, this`delivered
      modifies conn`sent, conn`receiving, frame, FragmentsRepr()
      modifies input`length, input`used, input`value, input`status, input.value
      ensures old(input.length) <= input.length <= Max(old(input.length), Longest(old(input.Contents())))
      ensures Valid() && fresh(Repr() - old(Repr())) && input.status == old(input.status)
      ensures (Session(), input.Contents()) == S.ProcessFrames(old(Session()), old(input.Contents()))
      ensures state == S.Established ==> input.used < input.length && InMemory()
    {
      hide S.ProcessFrames, Longest;
      var more := true;
      while more
        invariant Valid() && fresh(Repr() - old(Repr())) && input.status == old(input.status)
        invariant old(input.length) <= input.length <= Max(old(input.length), Longest(old(input.Contents())))
        invariant more ==> Longest(input.Contents()) <= Longest(old(input.Contents()))
        invariant more ==>
                    && state == S.Established && InMemory() && LengthsFit(input.Contents())
                    && S.ProcessFrames(Session(), input.Contents())
                       == S.ProcessFrames(old(Session()), old(input.Contents()))
        invariant !more ==>
                    && (Session(), input.Contents()) == S.ProcessFrames(old(Session()), old(input.Contents()))
                    && (state == S.Established ==> input.used < input.length && InMemory())
        decreases more, input.used
      {
        more := Round();
      }
    }

    /** At the end of input the remaining frames are processed and the connection is closed. */
    method ProcessRest()
      requires Valid() && InMemory() && state == S.Established && LengthsFit(input.Contents())
      modifies this`state, this`fragments, this`fragmentsOpcode, this`numPingsWithoutPong, this`delivered
      modifies conn`sent, conn`receiving, frame, FragmentsRepr()
      modifies input`length, input`used, input`value, input`status, input.value
      modifies conn`closed
      ensures Valid() && fresh(Repr() - old(Repr())) && input.status == old(input.status)
      ensures old(input.length) <= input.length <= Max(old(input.length), Longest(old(input.Contents()))) && conn.closed
      ensures old(input.used) >= WS_FRAME_LENGTH_MIN ==>
                Session() == S.ProcessFrames(old(Session()), old(input.Contents())).0
    {
      hide S.ProcessFrames, Longest;
      if input.used >= WS_FRAME_LENGTH_MIN {
        ProcessFrames();
      }
      conn.Close();
    }

    /** A failed read closes the connection unless it only would have blocked. */
    method ProcessUnlessFailed()
      requires Valid() && InMemory() && state == S.Established && LengthsFit(input.Contents())
      modifies this`state, this`fragments, this`fragmentsOpcode, this`numPingsWithoutPong, this`delivered
      modifies conn`sent, conn`receiving, frame, FragmentsRepr()
      modifies input`length, input`used, input`value, input`status, input.value
      modifies conn`closed
      ensures Valid() && fresh(Repr() - old(Repr())) && input.status == old(input.status)
      ensures old(input.length) <= input.length <= Max(old(input.length), Longest(old(input.Contents())))
      ensures if input.errno != EWOULDBLOCK then conn.closed && Session() == old(Session())
              else
                && (Session(), input.Contents()) == S.ProcessFrames(old(Session()), old(input.Contents()))
                && (state == S.Established ==> input.used < input.length && InMemory())
                && conn.closed == old(conn.closed)
    {
      hide S.ProcessFrames, Longest;
      if input.errno != EWOULDBLOCK {
        conn.Close();
      } else {
        ProcessFrames();
      }
    }

    /** The buffer itself is in error. */
    method RefuseInput()
      requires Valid()
      modifies this`state, conn`sent, conn`receiving
      ensures Valid() && Session() == S.RefuseWith(old(Session()), WS_CODE_SERVER_ERROR)
      ensures state == S.Failed && !conn.receiving && conn.sent == old(conn.sent) + [S.ErrorReply(1011)]
    {
      conn.ReceiveClose();
      SendError(WS_CODE_SERVER_ERROR);
    }

    /** What ws_connection_read does with the buffer it has filled. */
    method ProcessInput()
      requires Valid() && InMemory() && state == S.Established && LengthsFit(input.Contents())
      modifies this`state, this`fragments, this`fragmentsOpcode, this`numPingsWithoutPong, this`delivered
      modifies conn`sent, conn`receiving, frame, FragmentsRepr()
      modifies input`length, input`used, input`value, input`status, input.value
      modifies conn`closed
      ensures old(input.length) <= input.length <= Max(old(input.length), Longest(old(input.Contents())))
      ensures Valid() && fresh(Repr() - old(Repr())) && input.status == old(input.status)
      ensures Continues(old(input.status), input.errno) ==>
                && (Session(), input.Contents()) == S.ProcessFrames(old(Session()), old(input.Contents()))
                && (state == S.Established ==> input.used < input.length && InMemory())
                && conn.closed == old(conn.closed)
      ensures old(input.status) == EndOfFile ==>
                && conn.closed
                && (old(input.used) >= WS_FRAME_LENGTH_MIN ==>
                      Session() == S.ProcessFrames(old(Session()), old(input.Contents())).0)
      ensures old(input.status) == ErrorErrno && input.errno != EWOULDBLOCK ==>
                conn.closed && Session() == old(Session())
      ensures old(input.status) in {ErrorInvalidAccess, ErrorInvalidReadSize} ==>
                && Session() == S.RefuseWith(old(Session()), WS_CODE_SERVER_ERROR)
                && state == S.Failed && !conn.receiving && conn.sent == old(conn.sent) + [S.ErrorReply(1011)]
    {
      hide S.ProcessFrames, S.RefuseWith, Longest;
      match input.status {
        case Ok =>
          ProcessFrames();
        case EndOfFile =>
          ProcessRest();
        case ErrorErrno =>
          ProcessUnlessFailed();
        case _ =>
          RefuseInput();
      }
    }

    /** Reads what is there into the buffer, as far as it fits. */
    method FillInput(fd: Descriptor) returns (ghost arrived: seq<byte>)
      requires Valid() && InMemory()
      requires input.used + |Ready(fd.script)| + (if fragments != null then fragments.used else 0) <= SSIZE_MAX
      modifies input, input.value, fd
      ensures input.length == old(input.length)
      ensures Valid() && InMemory() && input.value == old(input.value)
      ensures Session() == old(Session()) && input.Contents() == old(input.Contents()) + arrived
      ensures arrived <= Ready(old(fd.script)) && Flowed(old(fd.script), arrived, fd.script)
      ensures Flowing(old(fd.script)) && Continues(old(input.status), old(input.errno)) ==>
                Continues(input.status, input.errno)
      ensures old(input.used) < old(input.length) < READ_SIZE_MAX ==> Moved(old(fd.script), arrived, fd.script)
    {
      hide Flowed, Moved, Ready, Stop;
      ReadyArrives(fd.script);
      arrived := input.Fill(fd);
    }

    /** ws_connection_read, once the handshake is over: one callback of the event loop. */
    method ConnectionRead(fd: Descriptor) returns (ghost arrived: seq<byte>)
      requires Valid() && state != S.New
      requires input.used + |Ready(fd.script)| + (if fragments != null then fragments.used else 0) <= SSIZE_MAX
      requires LengthsFit(input.Contents() + Ready(fd.script))
      modifies Repr(), fd
      ensures old(input.length) <= input.length <= Max(old(input.length), Longest(old(input.Contents()) + arrived))
      ensures Valid() && input == old(input) && fresh(Repr() - old(Repr()))
      ensures arrived <= Ready(old(fd.script))
      ensures old(state) != S.Established ==>
                conn.closed && arrived == [] && input.Contents() == old(input.Contents()) && fd.script == old(fd.script)
      ensures var b := old(input.Contents()) + arrived;
              old(state) == S.Established && Continues(input.status, input.errno) ==>
                && (Session(), input.Contents()) == S.ProcessFrames(old(Session()), b)
                && (state == S.Established ==> input.used < input.length && InMemory())
                && conn.closed == old(conn.closed)
      ensures var b := old(input.Contents()) + arrived;
              old(state) == S.Established && input.status == EndOfFile ==>
                conn.closed && (|b| >= WS_FRAME_LENGTH_MIN ==> Session() == S.ProcessFrames(old(Session()), b).0)
      ensures Flowing(old(fd.script)) && Continues(old(input.status), old(input.errno)) ==>
                Continues(input.status, input.errno)
      ensures old(state) == S.Established ==>
                && Flowed(old(fd.script), arrived, fd.script)
                && (old(input.used) < old(input.length) < READ_SIZE_MAX ==>
                      Moved(old(fd.script), arrived, fd.script))
    {
      hide S.ProcessFrames, LengthsFit, Longest, Continues, Flowing, Flowed, Moved, Ready;
      arrived := [];
      if state == S.Closing || state == S.Failed || state == S.HandshakeFailed {
        conn.Close();
        return;
      }
      arrived := FillInput(fd);
      ReadyPrefix(old(input.Contents()), Ready(old(fd.script)), arrived);
      ProcessInput();
    }
  }

  /** What a complete frame's length fields say of its payload. */
  lemma SizeOfFrame(b: seq<byte>)
    requires Wire.Read(b).Complete?
    ensures var p, f := Wire.ReadPrelude(b[0], b[1]), Wire.Read(b).frame;
            && Wire.Read(b).size == Wire.PayloadStart(p) + |f.payload| && p.code < 128
            && (p.code <= PAYLOAD_MAX ==> |f.payload| == p.code)
            && Wire.Declared(p, b) == |f.payload|
  {
    hide FromBigEndian, Wire.ApplyMask;
  }

  /** The buffer's status after which the frames in it are processed and reading goes on. */
  predicate Continues(status: Status, errno: int) {
    status == Ok || (status == ErrorErrno && errno == EWOULDBLOCK)
  }

  /** Of the frames that are taken to have arrived, those whose lengths add up within a uint64_t are exactly those that
      lie in the buffer. */
  lemma ArrivedLiesInBuffer(b: seq<byte>)
    requires |b| <= SSIZE_MAX && 0 < FrontSize(b) && FrontSize(b) % UINT64_RANGE <= |b|
    ensures FrontSize(b) <= |b| <==> FrontFits(b)
  {
    hide FrontSize;
  }

  lemma LongMaskedPrelude(b0: byte, b1: byte)
    requires b0 == 0x82 && b1 == 0xFF
    ensures var p := Wire.ReadPrelude(b0, b1);
            p.masked && p.code == 127 && Wire.LengthEnd(p) == 10 && Wire.PayloadStart(p) == 14
  {
  }

  lemma LargestOfEight(s: seq<byte>)
    requires |s| == 8 && forall c <- s :: c == 0xFF
    ensures FromBigEndian(s) == UINT64_RANGE - 1
  {
    AllOnes(s);
    assert Range(8) == 0x1_0000_0000 * Range(4);
    assert Range(4) == 0x1_0000 * Range(2);
  }

  /** A masked frame of 14 bytes that declares 2^64 - 1 of payload is taken to have arrived, and does not fit. */
  lemma WrappedLength(b: seq<byte>)
    requires |b| == 14 && b[0] == 0x82 && b[1] == 0xFF && forall c <- b[2..10] :: c == 0xFF
    ensures 0 < FrontSize(b) && FrontSize(b) % UINT64_RANGE <= |b| && !FrontFits(b)
  {
    hide Wire.ReadPrelude, Wire.LengthEnd, Wire.PayloadStart, FromBigEndian;
    LongMaskedPrelude(b[0], b[1]);
    LargestOfEight(b[2..10]);
    assert FrontSize(b) == UINT64_RANGE + 13;
  }

  /** A part of a stream announces no longer frame than the stream; so if the lengths fit in a stream, they fit in
      each part of it. */
  lemma {:induction false} LongestInPart(a: seq<byte>, b: seq<byte>)
    ensures Longest(a) <= Longest(a + b)
    decreases |a|
  {
    hide FromBigEndian;
    if |a| >= WS_FRAME_LENGTH_MIN {
      var p := Wire.ReadPrelude(a[0], a[1]);
      if |a| >= Wire.LengthEnd(p) {
        DeclaredInPrefix(p, a + b, |a|);
        assert (a + b)[..|a|] == a;
      }
      if Wire.Read(a).Complete? {
        var n := Wire.Read(a).size;
        Wire.ReadIsLocal(a, b);
        assert (a + b)[n..] == a[n..] + b;
        LongestInPart(a[n..], b);
      }
    }
  }

  lemma ReadyPrefix(b: seq<byte>, ready: seq<byte>, delivered: seq<byte>)
    requires LengthsFit(b + ready) && delivered <= ready
    ensures LengthsFit(b + delivered)
  {
    hide Longest;
    assert b + ready == (b + delivered) + ready[|delivered|..];
    LongestInPart(b + delivered, ready[|delivered|..]);
  }

  lemma FrontOf(b: seq<byte>)
    ensures FrontSize(b) <= Longest(b)
  {
  }

  /** One round of process_frames. */
  lemma OneFrame(s: S.Session, b: seq<byte>)
    requires s.state == S.Established
    ensures var r := Wire.Read(b);
            if |b| >= WS_FRAME_LENGTH_MIN && r.Complete? then
              var s', rest := S.Dispatch(s, r.frame, r.size), b[r.size..];
              && |r.frame.payload| <= r.size
              && FragmentsSize(s') <= FragmentsSize(s) + |r.frame.payload|
              && Longest(rest) <= Longest(b)
              && S.ProcessFrames(s, b)
                 == if s'.state != S.Established then (s', b)
                    else if |rest| < WS_FRAME_LENGTH_MIN then (s', rest)
                    else S.ProcessFrames(s', rest)
            else
              S.ProcessFrames(s, b) == (if |b| >= 1 && S.HasReservedBits(b[0]) then S.Refuse(s) else s, b)
  {
    hide S.Dispatch, FromBigEndian;
    if |b| >= WS_FRAME_LENGTH_MIN && Wire.Read(b).Complete? {
      var f, n := Wire.Read(b).frame, Wire.Read(b).size;
      FragmentsGrowByPayload(s, f, n);
      if |b[n..]| < WS_FRAME_LENGTH_MIN {
        TooShort(S.Dispatch(s, f, n), b[n..]);
      }
    }
  }

  function FragmentsSize(s: S.Session): nat {
    if s.fragments.Some? then |s.fragments.value| else 0
  }

  lemma FragmentsGrowByPayload(s: S.Session, f: Wire.Frame, size: nat)
    ensures FragmentsSize(S.Dispatch(s, f, size)) <= FragmentsSize(s) + |f.payload|
  {
    hide Created;
  }

  lemma TooShort(s: S.Session, b: seq<byte>)
    requires |b| < WS_FRAME_LENGTH_MIN
    ensures S.Run(s, b) == (s, b)
  {
  }

  /** When a frame is read from the buffer, in terms of its header. */
  lemma WhatIsRead(b: seq<byte>)
    ensures |b| < 2 ==> Wire.Read(b).Incomplete?
    ensures |b| >= 2 ==>
              var p := Wire.ReadPrelude(b[0], b[1]);
              && (p.rsv <==> S.HasReservedBits(b[0]))
              && (Wire.Read(b).Complete? <==>
                    !p.rsv && |b| >= Wire.LengthEnd(p) && |b| >= Wire.PayloadStart(p) + Wire.Declared(p, b))
              && (Wire.Read(b).Complete? ==> Wire.Read(b).size == Wire.PayloadStart(p) + Wire.Declared(p, b))
  {
    hide FromBigEndian;
  }

  /** The header's two bytes, when fewer than two are used: the terminator stands for the first missing one. */
  lemma HeaderInBuffer(value: seq<byte>, used: nat)
    requires used + 1 <= |value| && |value| >= 2 && value[used] == 0
    ensures var b := value[..used];
            && (used == 0 ==> !Wire.ReadPrelude(value[0], value[1]).rsv)
            && (used >= 1 ==>
                  value[0] == b[0] && (Wire.ReadPrelude(value[0], value[1]).rsv <==> S.HasReservedBits(b[0])))
            && (used >= 2 ==> value[1] == b[1])
  {
  }

  lemma ReservedIsNotComplete(b: seq<byte>)
    ensures |b| >= 1 && S.HasReservedBits(b[0]) ==> !Wire.Read(b).Complete?
  {
  }

  lemma HeaderIsShort(p: Wire.Prelude)
    ensures WS_FRAME_LENGTH_MIN <= Wire.LengthEnd(p) <= Wire.PayloadStart(p) <= 14
  {
  }

  lemma DeclaredInPrefix(p: Wire.Prelude, value: seq<byte>, used: nat)
    requires Wire.LengthEnd(p) <= used <= |value|
    ensures Wire.Declared(p, value) == Wire.Declared(p, value[..used])
  {
    assert value == value[..used] + value[used..];
    Wire.SliceOfPrefix(value[..used], value[used..], 2, Wire.LengthEnd(p));
  }

  lemma HandledStaysOpen(s: S.Session, f: Wire.Frame, size: nat)
    requires f.opcode in {0, 1, 2, 8, 9, 10} && (f.opcode == 0 ==> s.fragments.Some?)
    ensures s.state == S.Established ==> S.Dispatch(s, f, size).state == S.Established
  {
    hide Created;
  }

  lemma RefusedFrame(s: S.Session, f: Wire.Frame, size: nat)
    requires f.opcode !in {0, 1, 2, 8, 9, 10} || (f.opcode == 0 && s.fragments.None?)
    ensures S.Dispatch(s, f, size) == S.Refuse(s)
  {
  }

  /** The part of the buffer that is unmasked is the payload of the frame that is read from the buffer's contents. */
  lemma UnmaskedPayload(value: seq<byte>, used: nat, p: Wire.Prelude)
    requires used <= |value| && Wire.Read(value[..used]).Complete? && p == Wire.ReadPrelude(value[0], value[1])
    ensures var start := Wire.PayloadStart(p);
            var end := Wire.Read(value[..used]).size;
            && start <= end == start + Wire.Declared(p, value[..used]) <= used
            && (p.code == 0 ==> start == end)
            && Wire.Read(value[..used]).frame.fin == p.fin && Wire.Read(value[..used]).frame.opcode == p.opcode < 16
            && |Wire.Read(value[..used]).frame.payload| == end - start
            && Wire.ApplyMask(value[start..end], if p.masked then Wire.Key(value[start - 4..start]) else Wire.Unmasked)
               == Wire.Read(value[..used]).frame.payload
  {
    hide FromBigEndian, Wire.ApplyMask, Wire.ReadPrelude;
    var b, start, end := value[..used], Wire.PayloadStart(p), Wire.Read(value[..used]).size;
    assert value == b + value[used..];
    Wire.SliceOfPrefix(b, value[used..], start, end);
    if p.masked {
      Wire.SliceOfPrefix(b, value[used..], start - 4, start);
    }
  }

  lemma Unmasked(before: seq<byte>, after: seq<byte>, payload: seq<byte>, start: nat, end: nat, used: nat)
    requires start <= end <= used < |before| && |payload| == end - start
    requires after == before[..start] + payload + before[end..]
    ensures |after| == |before| && after[start..end] == payload && after[used] == before[used]
    ensures after[..used][end..] == before[..used][end..]
  {
  }
}
