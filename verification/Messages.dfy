/** Fragmented messages (section 5.4 of RFC 6455) and PINGs (section 5.5.2). */
module Messages {
  import opened Bytes
  import opened Options
  import opened Websocket
  import opened Wire
  import opened FrameCodec
  import opened NetworkOrder
  import opened Session

  // ----- what is sent, as the client reads it -----

  /** The client reads the bytes sent as this frame. */
  predicate Carries(o: Outgoing, f: Frame) {
    o.FrameBytes? && Read(o.bytes) == Complete(f, |o.bytes|)
  }

  predicate CarryAll(os: seq<Outgoing>, fs: seq<Frame>) {
    |os| == |fs| && forall i :: 0 <= i < |os| ==> Carries(os[i], fs[i])
  }

  /** Between the sessions s and t, exactly these frames are sent, in this order. */
  predicate Sends(s: Session, t: Session, fs: seq<Frame>) {
    |s.sent| <= |t.sent| && t.sent[..|s.sent|] == s.sent && CarryAll(t.sent[|s.sent|..], fs)
  }

  /** A frame built for sending is read as that frame if and only if its payload's length is a uint32_t. */
  lemma ReplyReadsBack(opcode: nat, payload: seq<byte>)
    requires opcode < 16 && |payload| <= SSIZE_MAX
    ensures Carries(Reply(opcode, payload), Frame(true, opcode, payload)) <==> |payload| <= UINT32_MAX
  {
    hide Read, Created;
    CreatedReadsBack(opcode, payload);
  }

  // ----- refusals -----

  /** What the protocol forbids: an unknown opcode, a continuation of nothing, a whole message inside an unfinished one,
      a control frame that is too long or cut up. */
  predicate Forbidden(s: Session, f: Frame, size: nat) {
    || f.opcode !in {0, 1, 2, 8, 9, 10}
    || (f.opcode == 0 && s.fragments.None?)
    || (f.opcode in {1, 2} && f.fin && s.fragments.Some?)
    || (f.opcode >= 8 && (size > 131 || !f.fin))
  }

  /** A forbidden frame is answered with one error frame of status 1002 and shuts the receiving side; no other frame is
      answered with an error. The state becomes failed, but for the kinds of frame that set it back. */
  lemma RefusedExactly(s: Session, f: Frame, size: nat)
    ensures var s' := Dispatch(s, f, size);
            if Forbidden(s, f, size) then
              && s'.sent == s.sent + [ErrorReply(1002)] && !s'.receiving && s'.fragments == s.fragments
              && s'.state == if f.opcode in {1, 2, 8, 9, 10} then Established else Failed
            else
              && (forall i :: |s.sent| <= i < |s'.sent| ==> !s'.sent[i].ErrorReply?)
              && s'.receiving == (s.receiving && f.opcode != 8)
  {
    hide Created, Status;
  }

  /** Reserved bits at the front of the buffer are refused, be the frame complete or not, and nothing is taken off. */
  lemma ReservedBitsRefused(s: Session, b: seq<byte>)
    requires b != [] && b[0] as int / 16 % 8 != 0
    ensures ProcessFrames(s, b) == (s.(state := Failed, receiving := false, sent := s.sent + [ErrorReply(1002)]), b)
  {
    hide Read, Dispatch, Created;
    if |b| >= WS_FRAME_LENGTH_MIN {
      ReservedBitsRead(b);
    }
  }

  lemma ReservedBitsRead(b: seq<byte>)
    requires |b| >= 2 && b[0] as int / 16 % 8 != 0
    ensures Read(b).ReservedBits?
  {
    hide FromBigEndian, PayloadOf;
  }

  // ----- PING and PONG -----

  /** A PING is answered, once and with its own payload, if and only if it is final and short enough. */
  lemma PingAnswered(s: Session, payload: seq<byte>, fin: bool, size: nat)
    ensures var s' := Dispatch(s, Frame(fin, PING, payload), size);
            s'.sent == s.sent + [Reply(PONG, payload)] <==> fin && size <= WS_CONTROL_MESSAGE_SIZE_MAX
  {
    hide Created;
    var s' := Dispatch(s, Frame(fin, PING, payload), size);
    assert s'.sent[|s.sent|] == if fin && size <= WS_CONTROL_MESSAGE_SIZE_MAX then Reply(PONG, payload)
                                else ErrorReply(WS_CODE_ERROR_PROTOCOL);
  }

  /** A final, masked PING with at most 125 payload bytes, whatever follows it: one frame goes out, it decodes to a
      final PONG with the same data, and the bytes behind the PING are processed as they are. */
  lemma PingOnTheWire(s: Session, payload: seq<byte>, key: seq<byte>, rest: seq<byte>)
    requires s.state == Established && |payload| <= 125 && |key| == 4
    ensures var ping: Sent := WireFrame(Frame(true, PING, payload), Key(key), Short);
            var s' := s.(delivered := s.delivered + [ping.frame], sent := s.sent + [Reply(PONG, payload)]);
            Run(s, BytesOf(ping) + rest) == Run(s', rest)
    ensures var pong := Reply(PONG, payload);
            Read(pong.bytes) == Complete(Frame(true, PONG, payload), |pong.bytes|)
  {
    hide Read, Created, Encode, Dispatch;
    var ping: Sent := WireFrame(Frame(true, PING, payload), Key(key), Short);
    ReadUndoesEncode(ping.frame, ping.mask, ping.form, rest);
    assert (BytesOf(ping) + rest)[|BytesOf(ping)|..] == rest;
    ShortPingFits(ping);
    PingStep(s, ping.frame, |BytesOf(ping)|);
    CreatedReadsBack(PONG, payload);
  }

  lemma ShortPingFits(w: Sent)
    requires w.form == Short
    ensures WS_FRAME_LENGTH_MIN <= |BytesOf(w)| <= WS_CONTROL_MESSAGE_SIZE_MAX
  {
  }

  lemma PingStep(s: Session, f: Frame, size: nat)
    requires s.state == Established && f.opcode == PING && f.fin && size <= WS_CONTROL_MESSAGE_SIZE_MAX
    ensures Dispatch(s, f, size) == s.(delivered := s.delivered + [f], sent := s.sent + [Reply(PONG, f.payload)])
  {
    hide Created;
  }

  // ----- CLOSE -----

  /** The status that answers a CLOSE: 1000 if there is no status, 1002 if there is half of one; codes from 3000 to 4999
      are sent back; of all others, those that RFC 6455 defines for use in a frame are answered with 1000 and the
      rest with 1002. */
  lemma StatusOfAnswer(payload: seq<byte>)
    ensures |payload| == 0 ==> Status(payload) == 1000
    ensures |payload| == 1 ==> Status(payload) == 1002
    ensures |payload| >= 2 ==>
              var code, status := payload[0] as int * 256 + payload[1] as int, Status(payload);
              && (status == code <==> 3000 <= code < 5000 || code == 1000)
              && (status == 1000 <==> code in {1000, 1001, 1002, 1003, 1007, 1008, 1009, 1010, 1011})
              && (status in {1000, 1002} || 3000 <= status < 5000)
  {
    hide FromBigEndian;
    if |payload| >= 2 {
      FromTwo(payload[..2]);
    }
  }

  /** A final CLOSE that fits, in the shortest form or with a status, whatever follows it: one item goes out, it decodes
      to a final CLOSE with the status as its payload, nothing more is received, and the frames behind it in the
      buffer are still processed. */
  lemma CloseOnTheWire(s: Session, close: Sent, rest: seq<byte>)
    requires s.state == Established && close.frame.opcode == CLOSE && close.frame.fin
    requires |BytesOf(close)| <= 131 && (close.form == Short || |close.frame.payload| >= 2)
    ensures var s' := Dispatch(s, close.frame, |BytesOf(close)|);
            && Run(s, BytesOf(close) + rest) == Run(s', rest)
            && s' == s.(delivered := s.delivered + [close.frame], receiving := false, sent := s'.sent)
            && Sends(s, s', [Frame(true, 8, BigEndian(Status(close.frame.payload), 2))])
  {
    hide Run, Created, Dispatch, Status, BigEndian, BytesOf, Sends;
    var f, size := close.frame, |BytesOf(close)|;
    FrameSize(close);
    CloseStep(s, f, size);
    CloseSends(s, f, size);
    RunOne(s, close, rest);
  }

  lemma CloseSends(s: Session, f: Frame, size: nat)
    requires s.state == Established && f.opcode == CLOSE && f.fin && size <= WS_CONTROL_MESSAGE_SIZE_MAX
    requires InShortForm(f.payload, size) || |f.payload| >= 2
    ensures Sends(s, Dispatch(s, f, size), [Frame(true, 8, BigEndian(Status(f.payload), 2))])
  {
    hide Read, Reply, Dispatch, Status, BigEndian, Carries;
    var status := BigEndian(Status(f.payload), 2);
    CloseStep(s, f, size);
    ReplyReadsBack(CLOSE, status);
    assert (s.sent + [Reply(CLOSE, status)])[|s.sent|..] == [Reply(CLOSE, status)];
  }

  /** A frame at the front is dispatched and taken off. */
  lemma RunOne(s: Session, w: Sent, rest: seq<byte>)
    requires Dispatch(s, w.frame, |BytesOf(w)|).state == Established
    ensures Run(s, BytesOf(w) + rest) == Run(Dispatch(s, w.frame, |BytesOf(w)|), rest)
  {
    hide Read, Encode, Dispatch;
    ReadUndoesEncode(w.frame, w.mask, w.form, rest);
    assert (BytesOf(w) + rest)[|BytesOf(w)|..] == rest;
    FrameSize(w);
  }

  lemma FrameSize(w: Sent)
    ensures |BytesOf(w)| >= WS_FRAME_LENGTH_MIN && |BytesOf(w)| >= |w.frame.payload|
    ensures w.form == Short ==> InShortForm(w.frame.payload, |BytesOf(w)|)
  {
  }

  lemma CloseStep(s: Session, f: Frame, size: nat)
    requires s.state == Established && f.opcode == CLOSE && f.fin && size <= WS_CONTROL_MESSAGE_SIZE_MAX
    requires InShortForm(f.payload, size) || |f.payload| >= 2
    ensures Dispatch(s, f, size)
            == s.(delivered := s.delivered + [f], receiving := false,
                  sent := s.sent + [Reply(CLOSE, BigEndian(Status(f.payload), 2))])
  {
    hide Created, Status, BigEndian;
  }

  // ----- fragmentation -----

  /** One reply more. */
  lemma SendsReply(s: Session, t: Session, fs: seq<Frame>, opcode: nat, payload: seq<byte>)
    requires Sends(s, t, fs) && opcode < 16 && |payload| <= UINT32_MAX
    ensures Sends(s, t.(sent := t.sent + [Reply(opcode, payload)]), fs + [Frame(true, opcode, payload)])
  {
    hide Reply, Read, Carries;
    ReplyReadsBack(opcode, payload);
    var more := t.sent + [Reply(opcode, payload)];
    assert more[..|s.sent|] == t.sent[..|s.sent|];
    assert more[|s.sent|..] == t.sent[|s.sent|..] + [Reply(opcode, payload)];
  }

  /** The answers to the PINGs among the frames, in order. */
  function Pongs(fs: seq<Frame>): seq<Outgoing> {
    if fs == [] then []
    else if fs[0].opcode == PING then [Reply(PONG, fs[0].payload)] + Pongs(fs[1..])
    else Pongs(fs[1..])
  }

  /** The PONGs that answer the PINGs among the frames, in order. */
  function PongFrames(fs: seq<Frame>): seq<Frame> {
    if fs == [] then []
    else if fs[0].opcode == PING then [Frame(true, PONG, fs[0].payload)] + PongFrames(fs[1..])
    else PongFrames(fs[1..])
  }

  /** The payloads of the frames that belong to the message, joined. */
  function Joined(fs: seq<Frame>): seq<byte> {
    if fs == [] then []
    else if IsControl(fs[0].opcode) then Joined(fs[1..])
    else fs[0].payload + Joined(fs[1..])
  }

  /** The frames, up to the final fragment, that carry on a message already begun: control frames may stand between
      the fragments. */
  predicate CarriesOn(fs: seq<Frame>) {
    && fs != []
    && if IsControl(fs[0].opcode) then fs[0].fin && CarriesOn(fs[1..])
       else fs[0].opcode == CONTINUATION && if fs[0].fin then |fs| == 1 else CarriesOn(fs[1..])
  }

  /** A message of the given opcode cut into two or more fragments. */
  predicate Fragmented(fs: seq<Frame>, opcode: nat) {
    && (opcode == TEXT || opcode == BINARY)
    && fs != [] && fs[0].opcode == opcode && !fs[0].fin && CarriesOn(fs[1..])
  }

  predicate AnyPong(fs: seq<Frame>) {
    fs != [] && (fs[0].opcode == PONG || AnyPong(fs[1..]))
  }

  /** No control frame is longer than allowed. */
  predicate ControlsFit(ws: seq<Sent>) {
    forall w: Sent <- ws :: IsControl(w.frame.opcode) ==> |BytesOf(w)| <= WS_CONTROL_MESSAGE_SIZE_MAX
  }

  /** Control frames between fragments leave the message alone. */
  lemma ControlStep(s: Session, f: Frame, size: nat)
    requires s.state == Established && IsControl(f.opcode) && f.fin && size <= WS_CONTROL_MESSAGE_SIZE_MAX
    ensures Dispatch(s, f, size)
            == s.(delivered := s.delivered + [f], sent := s.sent + Pongs([f]),
                  unansweredPings := if f.opcode == PONG then 0 else s.unansweredPings)
  {
    hide Created;
    assert [f][1..] == [];
    assert s.sent + [] == s.sent;
  }

  /** A fragment that is not the last is appended to what there is. */
  lemma FragmentStep(s: Session, f: Frame, size: nat)
    requires s.state == Established && s.fragments.Some? && f.opcode == CONTINUATION && !f.fin
    ensures Dispatch(s, f, size)
            == s.(delivered := s.delivered + [f], fragments := Some(s.fragments.value + f.payload))
  {
  }

  /** The session in which a message begun as s.fragments is finished by the frames fs. */
  function Finished(s: Session, fs: seq<Frame>): Session
    requires s.fragments.Some?
  {
    s.(fragments := None, delivered := s.delivered + fs,
       sent := s.sent + Pongs(fs) + [Reply(s.fragmentsOpcode, s.fragments.value + Joined(fs))],
       unansweredPings := if AnyPong(fs) then 0 else s.unansweredPings)
  }

  lemma FinishedAfterControl(s: Session, f: Frame, rest: seq<Frame>, size: nat)
    requires s.state == Established && s.fragments.Some?
    requires IsControl(f.opcode) && f.fin && size <= WS_CONTROL_MESSAGE_SIZE_MAX
    ensures Dispatch(s, f, size).fragments.Some?
    ensures Finished(Dispatch(s, f, size), rest) == Finished(s, [f] + rest)
  {
    hide Dispatch, Reply;
    ControlStep(s, f, size);
    assert [f][1..] == [] && ([f] + rest)[1..] == rest;
    assert s.delivered + [f] + rest == s.delivered + ([f] + rest);
    assert s.sent + Pongs([f]) + Pongs(rest) == s.sent + Pongs([f] + rest);
  }

  lemma FinishedAfterFragment(s: Session, f: Frame, rest: seq<Frame>, size: nat)
    requires s.state == Established && s.fragments.Some? && f.opcode == CONTINUATION && !f.fin
    ensures Dispatch(s, f, size).fragments.Some?
    ensures Finished(Dispatch(s, f, size), rest) == Finished(s, [f] + rest)
  {
    hide Dispatch, Reply;
    FragmentStep(s, f, size);
    assert ([f] + rest)[1..] == rest;
    assert s.delivered + [f] + rest == s.delivered + ([f] + rest);
    assert s.fragments.value + f.payload + Joined(rest) == s.fragments.value + Joined([f] + rest);
  }

  lemma FinishedByFinal(s: Session, f: Frame, size: nat)
    requires s.state == Established && s.fragments.Some? && f.opcode == CONTINUATION && f.fin
    ensures Dispatch(s, f, size) == Finished(s, [f])
  {
    hide Reply, Created;
    assert [f][1..] == [];
    assert Pongs([f]) == Pongs([]) && AnyPong([f]) == AnyPong([]);
    assert Joined([f]) == f.payload + Joined([]) == f.payload;
    assert s.sent + [] == s.sent;
  }

  /** The rest of a fragmented message, dispatched, finishes it. */
  lemma {:induction false} CarriedOn(s: Session, ws: seq<Sent>)
    requires s.state == Established && s.fragments.Some? && CarriesOn(FramesOf(ws)) && ControlsFit(ws)
    ensures DispatchAll(s, ws) == Finished(s, FramesOf(ws))
    ensures Legal(ws, true)
    decreases |ws|
  {
    hide Dispatch, Finished, BytesOf, Writable;
    var w, fs := ws[0], FramesOf(ws);
    var f, rest := w.frame, FramesOf(ws[1..]);
    assert w in ws && fs == [f] + rest;
    if IsControl(f.opcode) {
      FinishedAfterControl(s, f, rest, |BytesOf(w)|);
      ControlStep(s, f, |BytesOf(w)|);
      CarriedOn(Dispatch(s, f, |BytesOf(w)|), ws[1..]);
    } else if f.fin {
      assert ws[1..] == [] && fs == [f];
      FinishedByFinal(s, f, |BytesOf(w)|);
    } else {
      FinishedAfterFragment(s, f, rest, |BytesOf(w)|);
      FragmentStep(s, f, |BytesOf(w)|);
      CarriedOn(Dispatch(s, f, |BytesOf(w)|), ws[1..]);
    }
  }

  lemma MessageStep(s: Session, f: Frame, size: nat)
    requires s.state == Established && (f.opcode == TEXT || f.opcode == BINARY) && (f.fin ==> s.fragments.None?)
    ensures Dispatch(s, f, size)
            == if f.fin then s.(delivered := s.delivered + [f], sent := s.sent + [Reply(f.opcode, f.payload)])
               else s.(delivered := s.delivered + [f], fragments := Some(f.payload), fragmentsOpcode := f.opcode)
  {
    hide Created, Reply;
  }

  lemma FirstFragment(fs: seq<Frame>, opcode: nat)
    requires Fragmented(fs, opcode)
    ensures (opcode == TEXT || opcode == BINARY) && fs != [] && fs[0].opcode == opcode && !fs[0].fin
    ensures CarriesOn(fs[1..]) && Pongs(fs) == Pongs(fs[1..]) && Joined(fs) == fs[0].payload + Joined(fs[1..])
  {
  }

  /** What remains of the frames' sequence behind the first. */
  lemma DispatchFirst(s: Session, ws: seq<Sent>)
    requires ws != []
    ensures DispatchAll(s, ws) == DispatchAll(Dispatch(s, ws[0].frame, |BytesOf(ws[0])|), ws[1..])
    ensures FramesOf(ws) == [ws[0].frame] + FramesOf(ws[1..])
  {
    hide Dispatch, BytesOf;
  }

  /** The session when the first fragment has been collected. */
  function Begun(s: Session, f: Frame): Session {
    s.(delivered := s.delivered + [f], fragments := Some(f.payload), fragmentsOpcode := f.opcode)
  }

  lemma FinishedFromStart(s: Session, f: Frame, rest: seq<Frame>)
    requires Pongs([f] + rest) == Pongs(rest) && Joined([f] + rest) == f.payload + Joined(rest)
    ensures var fs, s' := [f] + rest, Finished(Begun(s, f), rest);
            && s'.sent == s.sent + Pongs(fs) + [Reply(f.opcode, Joined(fs))]
            && s'.fragments == None && s'.delivered == s.delivered + fs
  {
    hide Reply, Pongs, Joined;
    assert s.delivered + [f] + rest == s.delivered + ([f] + rest);
  }

  /** A fragmented message, dispatched. */
  lemma FragmentsDispatched(s: Session, ws: seq<Sent>, opcode: nat)
    requires s.state == Established && s.fragments.None?
    requires Fragmented(FramesOf(ws), opcode) && ControlsFit(ws)
    ensures var fs, s' := FramesOf(ws), DispatchAll(s, ws);
            && s'.sent == s.sent + Pongs(fs) + [Reply(opcode, Joined(fs))]
            && s'.fragments == None && s'.delivered == s.delivered + fs
    ensures Legal(ws, false)
  {
    hide Reply, Dispatch, BytesOf, Writable, Fragmented, Pongs, Joined, DispatchAll, FramesOf, Finished;
    FirstFragment(FramesOf(ws), opcode);
    DispatchFirst(s, ws);
    var w := ws[0];
    MessageStep(s, w.frame, |BytesOf(w)|);
    CarriedOn(Begun(s, w.frame), ws[1..]);
    FinishedFromStart(s, w.frame, FramesOf(ws[1..]));
  }

  lemma {:induction false} PongsAreRead(fs: seq<Frame>)
    requires forall f <- fs :: f.opcode == PING ==> |f.payload| <= UINT32_MAX
    ensures CarryAll(Pongs(fs), PongFrames(fs))
    decreases |fs|
  {
    hide Reply, Carries, CarryAll, Read;
    if fs == [] {
      assert CarryAll([], []) by {
        NothingCarried();
      }
    } else {
      assert fs[0] in fs && forall f <- fs[1..] :: f in fs;
      PongsAreRead(fs[1..]);
      if fs[0].opcode == PING {
        ReplyReadsBack(PONG, fs[0].payload);
        CarriesFirst(Reply(PONG, fs[0].payload), Frame(true, PONG, fs[0].payload), Pongs(fs[1..]), PongFrames(fs[1..]));
      }
    }
  }

  lemma NothingCarried()
    ensures CarryAll([], [])
  {
  }

  lemma CarriesFirst(o: Outgoing, f: Frame, os: seq<Outgoing>, fs: seq<Frame>)
    requires Carries(o, f) && CarryAll(os, fs)
    ensures CarryAll([o] + os, [f] + fs)
  {
    hide Carries;
  }

  lemma {:induction false} ControlsAreShort(ws: seq<Sent>)
    requires ControlsFit(ws)
    ensures forall f <- FramesOf(ws) :: f.opcode == PING ==> |f.payload| <= UINT32_MAX
    decreases |ws|
  {
    hide BytesOf, Writable;
    if ws != [] {
      assert ws[0] in ws && forall w <- ws[1..] :: w in ws;
      FrameSize(ws[0]);
      ControlsAreShort(ws[1..]);
    }
  }

  /** However a text or binary message is cut into fragments, whatever PINGs and PONGs stand between them, and however
      the bytes of all these frames are cut into reads: the one data frame sent is the one that the unfragmented message
      is answered with; besides it only the PINGs are answered, and nothing is left behind. */
  lemma FragmentationIsTransparent(s: Session, opcode: nat, ws: seq<Sent>, chunks: seq<seq<byte>>,
                                   whole: Sent, wholeChunks: seq<seq<byte>>)
    requires s.state == Established && s.receiving && s.fragments.None?
    requires Fragmented(FramesOf(ws), opcode) && ControlsFit(ws) && Concat(chunks) == Stream(ws)
    requires whole.frame == Frame(true, opcode, Joined(FramesOf(ws))) && Concat(wholeChunks) == BytesOf(whole)
    ensures var fs := FramesOf(ws);
            var (parts, rest) := Feed(s, [], chunks);
            var (one, oneRest) := Feed(s, [], wholeChunks);
            && one.sent == s.sent + [Reply(opcode, Joined(fs))]
            && parts.sent == s.sent + Pongs(fs) + [Reply(opcode, Joined(fs))]
            && rest == oneRest == [] && parts.fragments == one.fragments == None
            && parts.state == one.state == Established && parts.receiving && one.receiving
            && (|Joined(fs)| <= UINT32_MAX ==>
                  && Sends(s, one, [Frame(true, opcode, Joined(fs))])
                  && Sends(s, parts, PongFrames(fs) + [Frame(true, opcode, Joined(fs))]))
  {
    hide Created, Reply, Dispatch, BytesOf, Writable, Feed, Concat, Fragmented, Legal, DispatchAll;
    FragmentsDispatched(s, ws, opcode);
    LegalStreamInChunks(s, ws, chunks);
    LegalDispatchAll(s, ws);
    FirstFragment(FramesOf(ws), opcode);
    WholeMessage(s, whole, wholeChunks);
    if |Joined(FramesOf(ws))| <= UINT32_MAX {
      ControlsAreShort(ws);
      MessageIsRead(s, Feed(s, [], wholeChunks).0, [], opcode, Joined(FramesOf(ws)));
      MessageIsRead(s, Feed(s, [], chunks).0, FramesOf(ws), opcode, Joined(FramesOf(ws)));
    }
  }

  /** What the client reads if the PONGs and the message have been sent. */
  lemma MessageIsRead(s: Session, t: Session, fs: seq<Frame>, opcode: nat, payload: seq<byte>)
    requires t.sent == s.sent + Pongs(fs) + [Reply(opcode, payload)] && opcode < 16 && |payload| <= UINT32_MAX
    requires forall f <- fs :: f.opcode == PING ==> |f.payload| <= UINT32_MAX
    ensures Sends(s, t, PongFrames(fs) + [Frame(true, opcode, payload)])
  {
    hide Reply, Carries, Pongs, PongFrames;
    PongsAreRead(fs);
    var before := s.(sent := s.sent + Pongs(fs));
    assert before.sent[|s.sent|..] == Pongs(fs);
    SendsReply(s, before, PongFrames(fs), opcode, payload);
  }

  lemma WholeMessage(s: Session, w: Sent, chunks: seq<seq<byte>>)
    requires s.state == Established && s.receiving && s.fragments.None?
    requires w.frame.fin && (w.frame.opcode == TEXT || w.frame.opcode == BINARY) && Concat(chunks) == BytesOf(w)
    ensures Feed(s, [], chunks)
            == (s.(delivered := s.delivered + [w.frame], sent := s.sent + [Reply(w.frame.opcode, w.frame.payload)]), [])
  {
    hide Created, Reply, Dispatch, BytesOf, Writable, Feed, Concat;
    assert Stream([w]) == BytesOf(w) + Stream([]);
    assert Legal([w], false);
    LegalStreamInChunks(s, [w], chunks);
    MessageStep(s, w.frame, |BytesOf(w)|);
    assert DispatchAll(s, [w]) == DispatchAll(Dispatch(s, w.frame, |BytesOf(w)|), []);
  }
}
