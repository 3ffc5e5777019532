/** The event loop's callbacks on one connection, one after the other: the buffer, the codec and the loops together. */
module ReceiveRuns {
  import opened Bytes
  import opened FileDescriptor
  import opened StringBuffer
  import Wire
  import opened Options
  import opened Session
  import opened WsConnection
  import opened Closing

  /** What is buffered and what is collected never takes more memory than what has arrived. */
  lemma {:induction false} RunIsBounded(s: Session, b: seq<byte>)
    requires Run(s, b).0.state == Established
    ensures FragmentsSize(Run(s, b).0) + |Run(s, b).1| <= FragmentsSize(s) + |b|
    decreases |b|
  {
    hide Dispatch, Wire.Read;
    if |b| >= 2 && Wire.Read(b).Complete? {
      var f, n := Wire.Read(b).frame, Wire.Read(b).size;
      FragmentsGrowByPayload(s, f, n);
      Wire.PayloadInFrame(b);
      RunIsBounded(Dispatch(s, f, n), b[n..]);
    }
  }

  /** What a pass leaves announces no longer frame than what it was given. */
  lemma {:induction false} LongestInRest(s: Session, b: seq<byte>, more: seq<byte>)
    ensures Longest(Run(s, b).1 + more) <= Longest(b + more)
    decreases |b|
  {
    hide Dispatch, FrontSize;
    if |b| >= 2 && Wire.Read(b).Complete? {
      var f, n := Wire.Read(b).frame, Wire.Read(b).size;
      Wire.ReadIsLocal(b, more);
      assert (b + more)[n..] == b[n..] + more;
      if Dispatch(s, f, n).state == Established {
        LongestInRest(Dispatch(s, f, n), b[n..], more);
      }
    }
  }

  /** What is buffered, collected and still to arrive has its place in memory, and the lengths announced fit. */
  predicate CanTake(s: Session, b: seq<byte>, arriving: seq<byte>) {
    FragmentsSize(s) + |b| + |arriving| <= SSIZE_MAX && LengthsFit(b + arriving)
  }

  lemma BeforeCallback(s: Session, b: seq<byte>, ready: seq<byte>, arriving: seq<byte>)
    requires CanTake(s, b, arriving) && ready <= arriving
    ensures LengthsFit(b + ready) && FragmentsSize(s) + |b| + |ready| <= SSIZE_MAX
  {
    hide Longest, FragmentsSize;
    assert b + arriving == b + ready + arriving[|ready|..];
    LongestInPart(b + ready, arriving[|ready|..]);
  }

  lemma AfterCallback(s: Session, b: seq<byte>, arrived: seq<byte>, rest: seq<byte>)
    requires s.state == Established && CanTake(s, b, arrived + rest)
    ensures Longest(b + arrived) <= Longest(b + (arrived + rest))
    ensures var r := ProcessFrames(s, b + arrived);
            r.0.state == Established ==>
              CanTake(r.0, r.1, rest) && Longest(r.1 + rest) <= Longest(b + (arrived + rest))
  {
    hide Run, Longest, FragmentsSize, HasReservedBits;
    assert b + arrived + rest == b + (arrived + rest);
    LongestInPart(b + arrived, rest);
    LongestInRest(s, b + arrived, rest);
    if Run(s, b + arrived).0.state == Established {
      RunIsBounded(s, b + arrived);
    }
  }

  /** A connection and the descriptor it is called back on. */
  ghost predicate Listening(ws: Websockets, fd: Descriptor)
    reads ws, ws.conn, ws.input, ws.input.value, fd
    reads if ws.fragments != null then {ws.fragments, ws.fragments.value} else {}
  {
    && ws.Valid() && Flowing(fd.script) && Continues(ws.input.status, ws.input.errno)
    && (ws.state == Established ==>
          ws.input.used < ws.input.length && CanTake(ws.Session(), ws.input.Contents(), Arriving(fd.script)))
  }

  /** One callback, whatever the descriptor does before it blocks. */
  method Callback(ws: Websockets, fd: Descriptor) returns (ghost arrived: seq<byte>)
    requires Listening(ws, fd) && ws.state == Established
    modifies ws.Repr(), fd
    ensures ws.input == old(ws.input) && fresh(ws.Repr() - old(ws.Repr())) && Listening(ws, fd)
    ensures (ws.Session(), ws.input.Contents()) == ProcessFrames(old(ws.Session()), old(ws.input.Contents()) + arrived)
    ensures arrived + Arriving(fd.script) == Arriving(old(fd.script)) && Pauses(fd.script) <= Pauses(old(fd.script))
    ensures var longest := Longest(old(ws.input.Contents()) + Arriving(old(fd.script)));
            && ws.input.length <= Max(old(ws.input.length), longest)
            && (ws.state == Established ==> Longest(ws.input.Contents() + Arriving(fd.script)) <= longest)
    ensures old(ws.input.length) < READ_SIZE_MAX ==>
              arrived != [] || Pauses(fd.script) < Pauses(old(fd.script)) || Arriving(fd.script) == []
  {
    hide Longest, ProcessFrames, Continues, Flowing, Ready, Arriving, CanTake;
    ghost var s, b, arriving := ws.Session(), ws.input.Contents(), Arriving(fd.script);
    ReadyArrives(fd.script);
    BeforeCallback(s, b, Ready(fd.script), arriving);
    arrived := ws.ConnectionRead(fd);
    AfterCallback(s, b, arrived, Arriving(fd.script));
  }

  lemma {:induction false} FeedAppend(s: Session, b: seq<byte>, x: seq<seq<byte>>, y: seq<seq<byte>>)
    ensures Feed(s, b, x + y) == Feed(Feed(s, b, x).0, Feed(s, b, x).1, y)
    decreases |x|
  {
    hide ProcessFrames;
    if x == [] {
      assert x + y == y;
    } else if s.receiving && s.state == Established {
      assert (x + y)[0] == x[0] && (x + y)[1..] == x[1..] + y;
      var r := ProcessFrames(s, b + x[0]);
      FeedAppend(r.0, r.1, x[1..], y);
    }
  }

  lemma {:induction false} ConcatSnoc(chunks: seq<seq<byte>>, x: seq<byte>)
    ensures Concat(chunks + [x]) == Concat(chunks) + x
  {
    if chunks == [] {
      assert chunks + [x] == [x] && Concat([x]) == x + Concat([x][1..]);
    } else {
      assert (chunks + [x])[0] == chunks[0] && (chunks + [x])[1..] == chunks[1..] + [x];
      ConcatSnoc(chunks[1..], x);
    }
  }

  /** One more chunk: it is processed if the connection is open, and ignored if it is not. */
  lemma FeedSnoc(s: Session, b: seq<byte>, chunks: seq<seq<byte>>, x: seq<byte>)
    ensures var r := Feed(s, b, chunks);
            Feed(s, b, chunks + [x])
            == if r.0.state == Established && r.0.receiving then ProcessFrames(r.0, r.1 + x) else r
  {
    hide ProcessFrames;
    FeedAppend(s, b, chunks, [x]);
    assert [x][1..] == [];
  }

  /** Callbacks as long as the receiving side is open, at most so many, on a descriptor that delivers short reads and
      blocks at any points: the connection is where reading some chunks leads, and these chunks are what the descriptor
      has delivered. Every callback takes bytes or gets past a point where the descriptor blocks, so no byte is stuck. */
  method Callbacks(ws: Websockets, fd: Descriptor, count: nat) returns (ghost chunks: seq<seq<byte>>)
    requires Listening(ws, fd)
    modifies ws.Repr(), fd
    ensures Listening(ws, fd)
    ensures (ws.Session(), ws.input.Contents()) == Feed(old(ws.Session()), old(ws.input.Contents()), chunks)
    ensures Concat(chunks) + Arriving(fd.script) == Arriving(old(fd.script))
    ensures Pauses(fd.script) <= Pauses(old(fd.script))
    ensures Max(old(ws.input.length), Longest(old(ws.input.Contents()) + Arriving(old(fd.script)))) < READ_SIZE_MAX ==>
              || Arriving(fd.script) == []
              || ws.state != Established || !ws.conn.receiving
              || |Concat(chunks)| + Pauses(old(fd.script)) - Pauses(fd.script) >= count
  {
    hide ProcessFrames, Continues, Flowing, Arriving, CanTake, Longest, Feed, Concat;
    ghost var s, b, all, room := ws.Session(), ws.input.Contents(), Arriving(fd.script), ws.input.length;
    ghost var longest, pauses := Longest(b + all), Pauses(fd.script);
    chunks := [];
    NothingFed(s, b);
    assert [] + all == all;
    var i := 0;
    while i < count && ws.state == Established && ws.conn.receiving
      invariant i <= count && fresh(ws.Repr() - old(ws.Repr())) && ws.input == old(ws.input) && Listening(ws, fd)
      invariant (ws.Session(), ws.input.Contents()) == Feed(s, b, chunks)
      invariant Concat(chunks) + Arriving(fd.script) == all && Pauses(fd.script) <= pauses
      invariant ws.input.length <= Max(room, longest)
      invariant ws.state == Established ==> Longest(ws.input.Contents() + Arriving(fd.script)) <= longest
      invariant Max(room, longest) < READ_SIZE_MAX ==>
                  Arriving(fd.script) == [] || |Concat(chunks)| + pauses - Pauses(fd.script) >= i
    {
      ghost var arrived := Callback(ws, fd);
      FeedSnoc(s, b, chunks, arrived);
      ConcatSnoc(chunks, arrived);
      Regroup(Concat(chunks), arrived, Arriving(fd.script));
      chunks := chunks + [arrived];
      i := i + 1;
    }
  }

  lemma NothingFed(s: Session, b: seq<byte>)
    ensures Feed(s, b, []) == (s, b) && Concat([]) == []
  {
  }

  /** What the callbacks leave behind when they stop: all has been taken, or nothing more will be. */
  lemma TakenOrIgnored(s: Session, b: seq<byte>, chunks: seq<seq<byte>>, rest: seq<byte>)
    requires rest == [] || Feed(s, b, chunks).0.state != Established || !Feed(s, b, chunks).0.receiving
    ensures Concat(chunks + [rest]) == Concat(chunks) + rest
    ensures rest == [] ==> Concat(chunks) == Concat(chunks) + rest
    ensures rest != [] ==> Feed(s, b, chunks + [rest]) == Feed(s, b, chunks)
  {
    hide Feed, ProcessFrames, Concat;
    ConcatSnoc(chunks, rest);
    FeedSnoc(s, b, chunks, rest);
  }

  /** A settled stream, in whatever short reads its bytes arrive and wherever the descriptor blocks between them: after
      as many callbacks as there are bytes and points where it blocks, the connection is where one pass over the whole
      stream leads. Nothing in memory is as large as SSIZE_MAX. */
  method ReceiveSettledStream(ws: Websockets, fd: Descriptor, count: nat)
    requires Listening(ws, fd) && ws.state == Established && ws.conn.receiving
    requires Run(ws.Session(), ws.input.Contents()) == (ws.Session(), ws.input.Contents())
    requires Settled(ws.Session(), ws.input.Contents() + Arriving(fd.script))
    requires Max(ws.input.length, Longest(ws.input.Contents() + Arriving(fd.script))) < SSIZE_MAX
    requires count >= |Arriving(fd.script)| + Pauses(fd.script)
    modifies ws.Repr(), fd
    ensures Listening(ws, fd)
    ensures ws.Session() == Run(old(ws.Session()), old(ws.input.Contents()) + Arriving(old(fd.script))).0
  {
    hide Run, ProcessFrames, Continues, Flowing, Arriving, CanTake, Longest, Feed, Concat, Settled;
    ghost var s, b, all := ws.Session(), ws.input.Contents(), Arriving(fd.script);
    ghost var chunks := Callbacks(ws, fd, count);
    ghost var rest := Arriving(fd.script);
    assert |Concat(chunks)| + |rest| == |all|;
    TakenOrIgnored(s, b, chunks, rest);
    SettledInChunks(s, b, if rest == [] then chunks else chunks + [rest]);
  }

  // ----- legal streams -----

  lemma SentSize(w: Sent, rest: seq<byte>)
    ensures FrontSize(BytesOf(w) + rest) == |BytesOf(w)| < UINT64_RANGE
  {
    hide Wire.Encode, FromBigEndian, BigEndian;
    Wire.ReadUndoesEncode(w.frame, w.mask, w.form, rest);
    ShortEnough(w);
  }

  lemma ShortEnough(w: Sent)
    ensures |BytesOf(w)| < UINT64_RANGE
  {
    assert Range(8) == 0x1_0000_0000 * Range(4);
    assert Range(4) == 0x1_0000 * Range(2);
  }

  /** A stream of whole frames announces no more than it holds. */
  lemma {:induction false} LongestInStream(ws: seq<Sent>)
    ensures LengthsFit(Stream(ws)) && Longest(Stream(ws)) <= |Stream(ws)|
  {
    hide Wire.Read, Wire.Encode, FrontSize;
    if ws == [] {
      NothingAnnounced();
    } else {
      SentSize(ws[0], Stream(ws[1..]));
      Wire.ReadUndoesEncode(ws[0].frame, ws[0].mask, ws[0].form, Stream(ws[1..]));
      LongestInStream(ws[1..]);
      assert Stream(ws)[|BytesOf(ws[0])|..] == Stream(ws[1..]);
    }
  }

  lemma NothingAnnounced()
    ensures Longest([]) == 0
  {
  }

  lemma LegalStreamCanBeTaken(s: Session, ws: seq<Sent>)
    requires FragmentsSize(s) + |Stream(ws)| <= SSIZE_MAX
    ensures CanTake(s, [], Stream(ws)) && Longest([] + Stream(ws)) <= |Stream(ws)|
  {
    hide Longest, Stream;
    assert [] + Stream(ws) == Stream(ws);
    LongestInStream(ws);
  }

  /** The frames of a legal stream: after the same number of callbacks exactly these frames have been dispatched, in
      order, and the buffer is empty. */
  method ReceiveLegalStream(ws: Websockets, fd: Descriptor, ghost frames: seq<Sent>, count: nat)
    requires ws.Valid() && ws.state == Established && ws.conn.receiving && ws.input.used == 0
    requires Flowing(fd.script) && Continues(ws.input.status, ws.input.errno)
    requires Arriving(fd.script) == Stream(frames) && Legal(frames, ws.fragments != null)
    requires ws.input.length < SSIZE_MAX && FragmentsSize(ws.Session()) + |Stream(frames)| < SSIZE_MAX
    requires count >= |Stream(frames)| + Pauses(fd.script)
    modifies ws.Repr(), fd
    ensures ws.Valid() && ws.input.Contents() == []
    ensures ws.Session() == DispatchAll(old(ws.Session()), frames)
    ensures ws.delivered == old(ws.delivered) + FramesOf(frames)
  {
    hide Run, ProcessFrames, Continues, Flowing, Arriving, CanTake, DispatchAll, Stream, Legal, Longest, Feed, Concat;
    ghost var s, all := ws.Session(), Stream(frames);
    LegalStreamCanBeTaken(s, frames);
    assert ws.input.Contents() == [];
    ghost var chunks := Callbacks(ws, fd, count);
    ghost var rest := Arriving(fd.script);
    assert |Concat(chunks)| + |rest| == |all|;
    TakenOrIgnored(s, [], chunks, rest);
    LegalStreamInChunks(s, frames, if rest == [] then chunks else chunks + [rest]);
    LegalDispatchAll(s, frames);
  }

  /** A connection whose handshake is over. */
  const NEW: Session := Session(Established, None, 0, 0, true, [], [])

  /** The same from the start. */
  method ReceiveAfterHandshake(fd: Descriptor, ghost frames: seq<Sent>, count: nat) returns (ws: Websockets)
    requires Flowing(fd.script) && Arriving(fd.script) == Stream(frames) && Legal(frames, false)
    requires |Stream(frames)| < SSIZE_MAX && count >= |Stream(frames)| + Pauses(fd.script)
    modifies fd
    ensures ws.Valid() && ws.input.Contents() == [] && ws.delivered == FramesOf(frames)
    ensures ws.Session() == DispatchAll(NEW, frames)
  {
    hide Flowing, Arriving, DispatchAll, Stream, Legal;
    ws := new Websockets();
    ws.HandshakeSendFinished();
    ReceiveLegalStream(ws, fd, frames, count);
  }
}
