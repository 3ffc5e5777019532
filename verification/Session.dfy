/** What the frame dispatcher of socket/ws/ws_connection.c does to a connection,
    as functions on values, and the laws of those functions: independence of
    chunking, transparency of fragmentation, answers to PINGs.

    The class in WsConnection.dfy is proved to compute these functions.
 */
module Session {
  import opened Bytes
  import opened Options
  import opened Websocket
  import opened Wire
  import opened FrameCodec

  datatype State = New | Established | Closing | Failed | HandshakeFailed

  /** A response handed to the connection. CloseFromBehind answers a CLOSE that writes a length below two in a longer
      form than it needs: its status is taken from the bytes behind the frame. The bodies of error frames are not
      modelled. */
  datatype Outgoing =
    | FrameBytes(bytes: seq<byte>)
    | CloseFromBehind
    | ErrorReply(code: nat)

  /** delivered lists the frames whose unmasked payload was acted upon. */
  datatype Session = Session(
    state: State,
    fragments: Option<seq<byte>>,
    fragmentsOpcode: nat,
    unansweredPings: nat,
    receiving: bool,
    delivered: seq<Frame>,
    sent: seq<Outgoing>)

  /** A frame built for sending; no payload is longer than SSIZE_MAX. */
  function Reply(opcode: nat, payload: seq<byte>): Outgoing {
    FrameBytes(if opcode < 16 && |payload| <= SSIZE_MAX then Created(opcode, payload) else [])
  }

  // ----- the answer to a CLOSE -----

  /** The status that answers a status code: the known ones are taken for a normal closure. */
  function ReplyToCode(code: nat): (n: nat)
    ensures 1000 <= n < 5000
  {
    if WS_CODE_PROTOCOL_MIN <= code <= WS_CODE_PROTOCOL_MAX then
      if code in {WS_CODE_MOVED, WS_CODE_CLIENT_MISSING_EXTENSION, WS_CODE_ERROR_MESSAGE_TYPE,
                  WS_CODE_ERROR_MESSAGE_VALUE, WS_CODE_ERROR_PROTOCOL, WS_CODE_POLICY_MESSAGE_TO_BIG,
                  WS_CODE_POLICY_VIOLATION, WS_CODE_SERVER_ERROR, WS_CODE_SUCCESS}
      then WS_CODE_SUCCESS else WS_CODE_ERROR_PROTOCOL
    else if WS_CODE_PUBLIC_MIN <= code <= WS_CODE_PUBLIC_MAX then code
    else if WS_CODE_PRIVATE_MIN <= code <= WS_CODE_PRIVATE_MAX then code
    else WS_CODE_ERROR_PROTOCOL
  }

  /** WebsocketsFrame_response_status, as a number. */
  function Status(payload: seq<byte>): (n: nat)
    ensures n < Range(2)
  {
    if |payload| == 0 then WS_CODE_SUCCESS
    else if |payload| == 1 then WS_CODE_ERROR_PROTOCOL
    else ReplyToCode(FromBigEndian(payload[..2]))
  }

  /** The length is written in the 7 bits of the second byte; size is the length of the whole frame. */
  predicate InShortForm(payload: seq<byte>, size: nat) {
    size == |payload| + 2 || size == |payload| + 6
  }

  function CloseAnswer(payload: seq<byte>, size: nat): Outgoing {
    if |payload| >= 2 || InShortForm(payload, size) then Reply(CLOSE, BigEndian(Status(payload), 2))
    else CloseFromBehind
  }

  // ----- dispatching one frame -----

  function Send(s: Session, o: Outgoing): Session {
    s.(sent := s.sent + [o])
  }

  /** ws_send_error. */
  function RefuseWith(s: Session, code: nat): Session {
    Send(s.(state := Failed, receiving := false), ErrorReply(code))
  }

  function Refuse(s: Session): Session {
    RefuseWith(s, WS_CODE_ERROR_PROTOCOL)
  }

  function Deliver(s: Session, f: Frame): Session {
    s.(delivered := s.delivered + [f])
  }

  function Continue(s: Session, f: Frame): Session {
    if s.fragments.None? then Refuse(s)
    else
      var all := s.fragments.value + f.payload;
      if f.fin then Send(Deliver(s, f).(fragments := None), Reply(s.fragmentsOpcode, all))
      else Deliver(s, f).(fragments := Some(all))
  }

  /** The request handler echoes the payload. */
  function Message(s: Session, f: Frame): Session {
    if !f.fin then Deliver(s, f).(fragments := Some(f.payload), fragmentsOpcode := f.opcode)
    else if s.fragments.Some? then Refuse(Deliver(s, f))
    else Send(Deliver(s, f), Reply(f.opcode, f.payload))
  }

  /** size is the length of the whole frame. */
  function Control(s: Session, f: Frame, size: nat): Session {
    if size > WS_CONTROL_MESSAGE_SIZE_MAX || !f.fin then Refuse(s)
    else if f.opcode == CLOSE then Send(s.(state := Closing, receiving := false), CloseAnswer(f.payload, size))
    else if f.opcode == PING then Send(s, Reply(PONG, f.payload))
    else if f.opcode == PONG then s.(unansweredPings := 0)
    else s
  }

  function Dispatch(s: Session, f: Frame, size: nat): Session {
    if f.opcode == CONTINUATION then Continue(s, f)
    else if f.opcode == TEXT || f.opcode == BINARY then Message(s, f).(state := Established)
    else if f.opcode == CLOSE || f.opcode == PING || f.opcode == PONG then
      Control(Deliver(s, f), f, size).(state := Established)
    else Refuse(s)
  }

  // ----- processing a buffer -----

  /** Frames are taken off the front of the buffer while the connection stays established. */
  function Run(s: Session, b: seq<byte>): (r: (Session, seq<byte>))
    ensures |r.1| <= |b| && b[|b| - |r.1|..] == r.1
    decreases |b|
  {
    if |b| < WS_FRAME_LENGTH_MIN then (s, b)
    else
      match Read(b)
      case ReservedBits => (Refuse(s), b)
      case Incomplete => (s, b)
      case Complete(f, n) =>
        var s' := Dispatch(s, f, n);
        if s'.state == Established then Run(s', b[n..]) else (s', b)
  }

  predicate HasReservedBits(b0: byte) {
    b0 as int / 16 % 8 != 0
  }

  /** process_frames: unlike the later rounds, the first one looks at a lone byte's reserved bits. */
  function ProcessFrames(s: Session, b: seq<byte>): (Session, seq<byte>) {
    if |b| == 1 && HasReservedBits(b[0]) then (Refuse(s), b) else Run(s, b)
  }

  /** The callbacks that read the chunks one after the other, until the receiving side is shut. */
  function Feed(s: Session, b: seq<byte>, chunks: seq<seq<byte>>): (Session, seq<byte>)
    decreases |chunks|
  {
    if chunks == [] || !s.receiving || s.state != Established then (s, b)
    else
      var (s', b') := ProcessFrames(s, b + chunks[0]);
      Feed(s', b', chunks[1..])
  }

  function Concat(chunks: seq<seq<byte>>): seq<byte> {
    if chunks == [] then [] else chunks[0] + Concat(chunks[1..])
  }

  // ----- chunking does not matter -----

  lemma DispatchDoesNotResume(s: Session, f: Frame, size: nat)
    ensures Dispatch(s, f, size).receiving ==> s.receiving
  {
    hide Created;
  }

  lemma {:induction false} ReceivingIsNotResumed(s: Session, b: seq<byte>)
    ensures Run(s, b).0.receiving ==> s.receiving
    decreases |b|
  {
    hide Dispatch;
    if |b| >= WS_FRAME_LENGTH_MIN && Read(b).Complete? {
      var f, n := Read(b).frame, Read(b).size;
      DispatchDoesNotResume(s, f, n);
      ReceivingIsNotResumed(Dispatch(s, f, n), b[n..]);
    }
  }

  /** Bytes that arrive later continue where the earlier ones stopped. */
  lemma {:induction false} RunContinues(s: Session, a: seq<byte>, b: seq<byte>)
    requires Run(s, a).0.state == Established
    ensures Run(s, a + b) == Run(Run(s, a).0, Run(s, a).1 + b)
    decreases |a|
  {
    if |a| < WS_FRAME_LENGTH_MIN || !Read(a).Complete? {
    } else {
      var f, n := Read(a).frame, Read(a).size;
      ReadIsLocal(a, b);
      assert (a + b)[n..] == a[n..] + b;
      RunContinues(Dispatch(s, f, n), a[n..], b);
    }
  }

  /** Once stopped, later bytes change nothing. */
  lemma {:induction false} RunStaysStopped(s: Session, a: seq<byte>, b: seq<byte>)
    requires s.state == Established && Run(s, a).0.state != Established
    ensures Run(s, a + b) == (Run(s, a).0, Run(s, a).1 + b)
    decreases |a|
  {
    var reading := Read(a);
    if reading.Complete? {
      var f, n := reading.frame, reading.size;
      ReadIsLocal(a, b);
      assert (a + b)[n..] == a[n..] + b;
      if Dispatch(s, f, n).state == Established {
        RunStaysStopped(Dispatch(s, f, n), a[n..], b);
      }
    } else {
      ReservedBitsAreLocal(a, b);
    }
  }

  /** No byte waiting in the buffer is the start of a frame with reserved bits. */
  predicate Unsuspicious(b: seq<byte>) {
    |b| == 1 ==> !HasReservedBits(b[0])
  }

  lemma LoneByte(b: seq<byte>, t: seq<byte>)
    requires |b| == 1 && |t| > 0
    ensures Read(b + t).ReservedBits? <==> HasReservedBits(b[0])
  {
  }

  /** If the whole stream leaves the connection open, so does each part of it. */
  lemma PrefixStaysOpen(s: Session, a: seq<byte>, b: seq<byte>)
    requires s.state == Established
    requires var r := Run(s, a + b); r.0.state == Established && r.0.receiving && Unsuspicious(r.1)
    ensures var r := Run(s, a); r.0.state == Established && r.0.receiving && Unsuspicious(r.1)
  {
    if Run(s, a).0.state != Established {
      RunStaysStopped(s, a, b);
    }
    RunContinues(s, a, b);
    var r := Run(s, a);
    ReceivingIsNotResumed(r.0, r.1 + b);
    if b == [] {
      assert r.1 + b == r.1;
    } else if |r.1| == 1 {
      LoneByte(r.1, b);
    }
  }

  /** However the stream is cut into chunks, the callbacks leave the connection in the state of one pass over
      the whole stream, if that state still receives. */
  lemma {:induction false} ChunkIndependence(s: Session, b: seq<byte>, chunks: seq<seq<byte>>)
    requires s.state == Established && s.receiving
    requires Run(s, b) == (s, b)
    requires var r := Run(s, b + Concat(chunks)); r.0.state == Established && r.0.receiving && Unsuspicious(r.1)
    ensures Feed(s, b, chunks) == Run(s, b + Concat(chunks))
    decreases |chunks|
  {
    if chunks == [] {
      assert b + Concat(chunks) == b;
    } else {
      var a, rest := b + chunks[0], Concat(chunks[1..]);
      assert b + Concat(chunks) == a + rest;
      PrefixStaysOpen(s, a, rest);
      RunContinues(s, a, rest);
      assert a + [] == a;
      RunContinues(s, a, []);
      var (s', b') := Run(s, a);
      assert b' + [] == b';
      ChunkIndependence(s', b', chunks[1..]);
      if |a| == 1 {
        LoneByteIsLeft(s, a);
      }
    }
  }

  lemma LoneByteIsLeft(s: Session, a: seq<byte>)
    requires |a| == 1
    ensures Run(s, a) == (s, a)
  {
  }

  // ----- legal streams -----

  datatype WireFrame = WireFrame(frame: Frame, mask: Mask, form: LengthForm)

  /** A frame as its sender writes it. */
  type Sent = w: WireFrame | Writable(w.frame, w.mask, w.form)
    witness WireFrame(Frame(true, TEXT, []), Unmasked, Short)

  function BytesOf(w: Sent): seq<byte> {
    Encode(w.frame, w.mask, w.form)
  }

  /** The bytes of the frames, one after the other. */
  function Stream(ws: seq<Sent>): seq<byte> {
    if ws == [] then [] else BytesOf(ws[0]) + Stream(ws[1..])
  }

  function FramesOf(ws: seq<Sent>): (fs: seq<Frame>)
    ensures |fs| == |ws|
  {
    if ws == [] then [] else [ws[0].frame] + FramesOf(ws[1..])
  }

  predicate IsControl(opcode: nat) {
    opcode == PING || opcode == PONG
  }

  predicate LegalFrame(w: Sent, open: bool) {
    if IsControl(w.frame.opcode) then w.frame.fin && |BytesOf(w)| <= WS_CONTROL_MESSAGE_SIZE_MAX
    else if open then w.frame.opcode == CONTINUATION
    else w.frame.opcode == TEXT || w.frame.opcode == BINARY
  }

  /** Whether a fragmented message is open after the frame. */
  predicate OpenAfter(f: Frame, open: bool) {
    if IsControl(f.opcode) then open else !f.fin
  }

  /** Section 5.4: fragments of one message follow each other, control frames may stand between them. */
  predicate Legal(ws: seq<Sent>, open: bool) {
    ws != [] ==> LegalFrame(ws[0], open) && Legal(ws[1..], OpenAfter(ws[0].frame, open))
  }

  /** The frames dispatched in order, without any buffer. */
  function DispatchAll(s: Session, ws: seq<Sent>): Session
    decreases |ws|
  {
    if ws == [] then s else DispatchAll(Dispatch(s, ws[0].frame, |BytesOf(ws[0])|), ws[1..])
  }

  /** A legal frame is delivered and keeps the connection open. */
  lemma LegalDispatch(s: Session, w: Sent)
    requires s.state == Established && LegalFrame(w, s.fragments.Some?)
    ensures var s' := Dispatch(s, w.frame, |BytesOf(w)|);
            && s'.state == Established && s'.receiving == s.receiving
            && s'.delivered == s.delivered + [w.frame]
            && s'.fragments.Some? == OpenAfter(w.frame, s.fragments.Some?)
  {
    hide Created, Encode;
  }

  lemma {:induction false} LegalDispatchAll(s: Session, ws: seq<Sent>)
    requires s.state == Established && Legal(ws, s.fragments.Some?)
    ensures var s' := DispatchAll(s, ws);
            s'.state == Established && s'.receiving == s.receiving && s'.delivered == s.delivered + FramesOf(ws)
    decreases |ws|
  {
    hide BytesOf, Dispatch, LegalFrame, OpenAfter, Writable;
    if ws == [] {
    } else {
      LegalDispatch(s, ws[0]);
      LegalDispatchAll(Dispatch(s, ws[0].frame, |BytesOf(ws[0])|), ws[1..]);
      assert s.delivered + [ws[0].frame] + FramesOf(ws[1..]) == s.delivered + FramesOf(ws);
    }
  }

  /** One pass over the bytes of a legal stream dispatches exactly its frames, in order, and uses up every byte. */
  lemma {:induction false} RunOfLegalStream(s: Session, ws: seq<Sent>)
    requires s.state == Established && Legal(ws, s.fragments.Some?)
    ensures Run(s, Stream(ws)) == (DispatchAll(s, ws), [])
    decreases |ws|
  {
    hide Encode, Dispatch;
    if ws == [] {
    } else {
      var w, bytes := ws[0], BytesOf(ws[0]);
      ReadUndoesEncode(w.frame, w.mask, w.form, Stream(ws[1..]));
      assert Stream(ws)[|bytes|..] == Stream(ws[1..]);
      LegalDispatch(s, w);
      RunOfLegalStream(Dispatch(s, w.frame, |bytes|), ws[1..]);
    }
  }

  /** For every legal stream and every way of cutting its bytes into reads, the callbacks dispatch exactly the
      frames of the stream, in order, each unmasked once, and leave nothing in the buffer. */
  lemma LegalStreamInChunks(s: Session, ws: seq<Sent>, chunks: seq<seq<byte>>)
    requires s.state == Established && s.receiving && Legal(ws, s.fragments.Some?)
    requires Concat(chunks) == Stream(ws)
    ensures Feed(s, [], chunks) == (DispatchAll(s, ws), [])
    ensures DispatchAll(s, ws).delivered == s.delivered + FramesOf(ws)
  {
    RunOfLegalStream(s, ws);
    LegalDispatchAll(s, ws);
    assert [] + Concat(chunks) == Stream(ws);
    ChunkIndependence(s, [], chunks);
  }
}
