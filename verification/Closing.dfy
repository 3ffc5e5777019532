/** Streams that shut the receiving side: exactly when chunking still does not matter.

    A CLOSE frame, like every refused message or control frame, stops further
    reads but leaves the state established, so frames that are already in the
    buffer behind it are dispatched and frames still on the way are not.
 */
module Closing {
  import opened Bytes
  import opened Websocket
  import opened Wire
  import opened FrameCodec
  import opened Session

  /** Like Run, but nothing is dispatched behind the frame that shuts the receiving side. */
  function Cut(s: Session, b: seq<byte>): (r: (Session, seq<byte>))
    ensures |r.1| <= |b| && b[|b| - |r.1|..] == r.1
    decreases |b|
  {
    if |b| < WS_FRAME_LENGTH_MIN || !Read(b).Complete? then Run(s, b)
    else
      var f, n := Read(b).frame, Read(b).size;
      var s' := Dispatch(s, f, n);
      if s'.state != Established then (s', b)
      else if s'.receiving then Cut(s', b[n..])
      else (s', b[n..])
  }

  /** One round of Run and of Cut. */
  lemma OneRound(s: Session, b: seq<byte>)
    ensures if |b| >= WS_FRAME_LENGTH_MIN && Read(b).Complete? then
              var s', rest := Dispatch(s, Read(b).frame, Read(b).size), b[Read(b).size..];
              if s'.state == Established then
                Run(s, b) == Run(s', rest) && Cut(s, b) == if s'.receiving then Cut(s', rest) else (s', rest)
              else Run(s, b) == Cut(s, b) == (s', b)
            else
              Cut(s, b) == Run(s, b)
  {
    hide Dispatch, Read;
  }

  /** Every step leaves a trace in the session. */
  function Trace(s: Session): nat {
    |s.delivered| + |s.sent|
  }

  lemma DispatchLeavesTrace(s: Session, f: Frame, size: nat)
    ensures Trace(Dispatch(s, f, size)) > Trace(s)
  {
    hide Created;
  }

  /** Without a complete frame nothing is dispatched. */
  lemma RunWithoutFrame(s: Session, b: seq<byte>)
    ensures |b| < WS_FRAME_LENGTH_MIN || Read(b).Incomplete? ==> Run(s, b) == (s, b)
    ensures |b| >= WS_FRAME_LENGTH_MIN && Read(b).ReservedBits? ==> Run(s, b) == (Refuse(s), b)
  {
    hide Read;
  }

  lemma {:induction false} RunLeavesTrace(s: Session, b: seq<byte>)
    ensures Trace(Run(s, b).0) >= Trace(s)
    ensures |b| >= WS_FRAME_LENGTH_MIN && !Read(b).Incomplete? ==> Trace(Run(s, b).0) > Trace(s)
    decreases |b|
  {
    hide Dispatch, Read, Run, Cut;
    OneRound(s, b);
    if |b| >= WS_FRAME_LENGTH_MIN && Read(b).Complete? {
      var f, n := Read(b).frame, Read(b).size;
      DispatchLeavesTrace(s, f, n);
      if Dispatch(s, f, n).state == Established {
        RunLeavesTrace(Dispatch(s, f, n), b[n..]);
      }
    } else {
      RunWithoutFrame(s, b);
    }
  }

  /** If a buffer leaves no trace, neither does a part of it. */
  lemma NothingInPart(s: Session, a: seq<byte>, b: seq<byte>)
    requires Run(s, a + b).0 == s
    ensures Run(s, a).0 == s
  {
    RunLeavesTrace(s, a + b);
    if |a| >= WS_FRAME_LENGTH_MIN {
      ReservedBitsAreLocal(a, b);
      if Read(a).Complete? {
        ReadIsLocal(a, b);
      }
    }
  }

  lemma RunOfNothing(s: Session)
    ensures Run(s, []) == (s, [])
  {
  }

  /** The cut, then one pass over what it left, is the pass over everything. */
  lemma {:induction false} RunIsCutThenRun(s: Session, b: seq<byte>)
    requires Cut(s, b).0.state == Established
    ensures Run(s, b) == Run(Cut(s, b).0, Cut(s, b).1)
    decreases |b|
  {
    hide Dispatch, Read, Run, Cut;
    OneRound(s, b);
    if |b| >= WS_FRAME_LENGTH_MIN && Read(b).Complete? {
      var s', rest := Dispatch(s, Read(b).frame, Read(b).size), b[Read(b).size..];
      if s'.state == Established && s'.receiving {
        RunIsCutThenRun(s', rest);
      }
    } else {
      RunWithoutFrame(s, b);
    }
  }

  lemma {:induction false} CutStopped(s: Session, b: seq<byte>)
    requires Cut(s, b).0.state != Established
    ensures Run(s, b) == Cut(s, b)
    decreases |b|
  {
    hide Dispatch, Read, Run, Cut;
    OneRound(s, b);
    if |b| >= WS_FRAME_LENGTH_MIN && Read(b).Complete? {
      var s', rest := Dispatch(s, Read(b).frame, Read(b).size), b[Read(b).size..];
      if s'.state == Established {
        CutStopped(s', rest);
      }
    }
  }

  /** Later bytes continue the cut unless it has shut the receiving side, and do not move it if it has. */
  lemma {:induction false} CutContinues(s: Session, a: seq<byte>, b: seq<byte>)
    requires s.receiving && Cut(s, a).0.state == Established
    ensures Cut(s, a).0.receiving ==> Cut(s, a + b) == Cut(Cut(s, a).0, Cut(s, a).1 + b)
    ensures !Cut(s, a).0.receiving ==> Cut(s, a + b) == (Cut(s, a).0, Cut(s, a).1 + b)
    decreases |a|
  {
    hide Dispatch;
    if |a| >= WS_FRAME_LENGTH_MIN && Read(a).Complete? {
      var f, n := Read(a).frame, Read(a).size;
      ReadIsLocal(a, b);
      assert (a + b)[n..] == a[n..] + b;
      if Dispatch(s, f, n).state == Established && Dispatch(s, f, n).receiving {
        CutContinues(Dispatch(s, f, n), a[n..], b);
      }
    }
  }

  lemma {:induction false} CutReceives(s: Session, b: seq<byte>)
    requires s.receiving && Run(s, b).0.receiving
    ensures Cut(s, b) == Run(s, b)
    decreases |b|
  {
    hide Dispatch, Read, Run, Cut;
    OneRound(s, b);
    if |b| >= WS_FRAME_LENGTH_MIN && Read(b).Complete? {
      var s', rest := Dispatch(s, Read(b).frame, Read(b).size), b[Read(b).size..];
      if s'.state == Established {
        ReceivingIsNotResumed(s', rest);
        CutReceives(s', rest);
      }
    }
  }

  /** Nothing in the stream makes the outcome depend on how it is read: either a frame leaves the established state;
      or the receiving side stays open and no lone byte with reserved bits waits at the end; or it is shut and no
      header that could be acted upon stands behind the frame that shuts it. */
  predicate Settled(s: Session, b: seq<byte>) {
    var c := Cut(s, b);
    c.0.state == Established ==>
      if c.0.receiving then Unsuspicious(c.1)
      else |c.1| < WS_FRAME_LENGTH_MIN || Read(c.1).Incomplete?
  }

  /** Behind a frame that shuts the receiving side nothing is dispatched exactly if no header is complete there. */
  lemma NothingBehind(s: Session, b: seq<byte>)
    requires Cut(s, b).0.state == Established && !Cut(s, b).0.receiving
    ensures Settled(s, b) <==> Cut(s, b).0 == Run(s, b).0
  {
    hide Dispatch, Read, Run, Cut;
    RunIsCutThenRun(s, b);
    RunLeavesTrace(Cut(s, b).0, Cut(s, b).1);
    RunWithoutFrame(Cut(s, b).0, Cut(s, b).1);
  }

  /** In a settled stream every chunking ends in the session of one pass. */
  lemma {:induction false} SettledInChunks(s: Session, b: seq<byte>, chunks: seq<seq<byte>>)
    requires s.state == Established && s.receiving && Run(s, b) == (s, b)
    requires Settled(s, b + Concat(chunks))
    ensures Feed(s, b, chunks).0 == Run(s, b + Concat(chunks)).0
    decreases |chunks|
  {
    hide Dispatch, Cut, Run, Settled;
    if chunks == [] {
      assert b + Concat(chunks) == b;
    } else {
      var a, rest := b + chunks[0], Concat(chunks[1..]);
      assert b + Concat(chunks) == a + rest;
      FirstChunk(s, a, rest);
      var r := ProcessFrames(s, a);
      if r.0.state == Established && r.0.receiving {
        SettledInChunks(r.0, r.1, chunks[1..]);
      }
    }
  }

  /** One callback: either reading goes on where it stopped, or it is over and nothing is missing. */
  lemma FirstChunk(s: Session, a: seq<byte>, rest: seq<byte>)
    requires s.state == Established && s.receiving && Settled(s, a + rest)
    ensures var r := ProcessFrames(s, a);
            if r.0.state == Established && r.0.receiving then
              && Run(r.0, r.1) == r
              && Run(s, a + rest) == Run(r.0, r.1 + rest)
              && Settled(r.0, r.1 + rest)
            else r.0 == Run(s, a + rest).0
  {
    hide Run, Cut, Dispatch;
    if |a| == 1 && HasReservedBits(a[0]) {
      LoneByteRefused(s, a, rest);
    } else if Run(s, a).0.state != Established {
      RunStaysStopped(s, a, rest);
    } else if Run(s, a).0.receiving {
      RunContinues(s, a, rest);
      CutReceives(s, a);
      CutContinues(s, a, rest);
      RunContinues(s, a, []);
      assert a + [] == a && Run(s, a).1 + [] == Run(s, a).1;
    } else {
      ShutInside(s, a, rest);
    }
  }

  /** If the first byte is read alone and has reserved bits, the connection is refused, as by one pass. */
  lemma LoneByteRefused(s: Session, a: seq<byte>, rest: seq<byte>)
    requires s.state == Established && s.receiving && |a| == 1 && HasReservedBits(a[0])
    requires Settled(s, a + rest)
    ensures Run(s, a + rest).0 == Refuse(s)
  {
    hide Settled, HasReservedBits, Read, Dispatch;
    if |rest| > 0 {
      LoneByte(a, rest);
    }
    assert rest == [] ==> a + rest == a;
    LoneByteIsSettled(s, a);
  }

  lemma LoneByteIsSettled(s: Session, b: seq<byte>)
    requires s.state == Established && s.receiving && |b| == 1
    ensures Settled(s, b) <==> !HasReservedBits(b[0])
  {
    hide Read, HasReservedBits;
  }

  lemma ShutInside(s: Session, a: seq<byte>, rest: seq<byte>)
    requires s.receiving && Run(s, a).0.state == Established && !Run(s, a).0.receiving
    requires Settled(s, a + rest)
    ensures Run(s, a).0 == Run(s, a + rest).0
  {
    hide Dispatch, Run, Cut, Settled;
    var c := Cut(s, a);
    if c.0.state != Established {
      CutStopped(s, a);
    }
    RunIsCutThenRun(s, a);
    CutShuts(s, a);
    CutContinues(s, a, rest);
    NothingBehind(s, a + rest);
    RunIsCutThenRun(s, a + rest);
    NothingInPart(c.0, c.1, rest);
  }

  lemma {:induction false} CutShuts(s: Session, b: seq<byte>)
    requires Run(s, b).0.state == Established && !Run(s, b).0.receiving
    ensures !Cut(s, b).0.receiving
    decreases |b|
  {
    hide Dispatch, Read, Run, Cut;
    OneRound(s, b);
    if |b| >= WS_FRAME_LENGTH_MIN && Read(b).Complete? {
      var s', rest := Dispatch(s, Read(b).frame, Read(b).size), b[Read(b).size..];
      if s'.state == Established && s'.receiving {
        CutShuts(s', rest);
      }
    }
  }

  lemma {:induction false} CutOpen(s: Session, b: seq<byte>)
    requires Cut(s, b).0.state == Established && s.receiving && Cut(s, b).0.receiving
    ensures Run(s, b) == Cut(s, b)
    decreases |b|
  {
    hide Dispatch, Read, Run, Cut;
    OneRound(s, b);
    if |b| >= WS_FRAME_LENGTH_MIN && Read(b).Complete? {
      var s', rest := Dispatch(s, Read(b).frame, Read(b).size), b[Read(b).size..];
      if s'.state == Established {
        CutOpen(s', rest);
      }
    }
  }

  lemma ReadOfPrefix(b: seq<byte>, k: nat)
    requires Read(b).Complete? && Read(b).size <= k <= |b|
    ensures Read(b[..k]) == Read(b)
  {
    hide Read;
    var n := Read(b).size;
    ReadOfFrameAlone(b);
    ReadIsLocal(b[..n], b[n..k]);
    assert b[..k] == b[..n] + b[n..k];
  }

  lemma FeedOne(s: Session, b: seq<byte>)
    requires s.state == Established && s.receiving
    ensures Concat([b]) == b && Feed(s, [], [b]) == ProcessFrames(s, b)
  {
    hide ProcessFrames;
    assert [b][1..] == [] && [] + b == b;
    assert Concat([b]) == b + Concat([]);
  }

  lemma FeedTwo(s: Session, x: seq<byte>, y: seq<byte>)
    requires s.state == Established && s.receiving
    requires !ProcessFrames(s, x).0.receiving
    ensures Concat([x, y]) == x + y && Feed(s, [], [x, y]) == ProcessFrames(s, x)
  {
    hide ProcessFrames;
    assert [x, y][1..] == [y] && [] + x == x;
    FeedOne(s, y);
    var r := ProcessFrames(s, x);
    assert Feed(r.0, r.1, [y]) == r;
  }

  /** A frame in front of bytes that are used up. */
  lemma FrameInFront(s: Session, b: seq<byte>, k: nat)
    requires |b| >= WS_FRAME_LENGTH_MIN && Read(b).Complete? && Read(b).size <= k <= |b|
    requires Dispatch(s, Read(b).frame, Read(b).size).state == Established
    ensures k >= WS_FRAME_LENGTH_MIN
    ensures Run(s, b[..k]) == Run(Dispatch(s, Read(b).frame, Read(b).size), b[Read(b).size..k])
  {
    hide Dispatch, Read, Run, Cut;
    var n := Read(b).size;
    ReadOfPrefix(b, k);
    assert b[..k][n..] == b[n..k];
    OneRound(s, b[..k]);
  }

  /** The bytes up to the cut, alone, shut the receiving side and are used up. */
  lemma {:induction false} UpToTheCut(s: Session, b: seq<byte>, k: nat)
    requires s.receiving && Cut(s, b).0.state == Established && !Cut(s, b).0.receiving
    requires k == |b| - |Cut(s, b).1|
    ensures k >= WS_FRAME_LENGTH_MIN && Run(s, b[..k]) == (Cut(s, b).0, [])
    decreases |b|
  {
    hide Dispatch, Read, Run, Cut;
    OneRound(s, b);
    RunWithoutFrame(s, b);
    if |b| >= WS_FRAME_LENGTH_MIN && Read(b).Complete? {
      var n := Read(b).size;
      var s', rest := Dispatch(s, Read(b).frame, n), b[n..];
      FrameInFront(s, b, k);
      assert rest[..k - n] == b[n..k];
      if s'.receiving {
        UpToTheCut(s', rest, k - n);
      } else {
        RunOfNothing(s');
      }
    }
  }

  /** The bytes in front of what a pass leaves, alone, are used up. */
  lemma {:induction false} UpToTheRest(s: Session, b: seq<byte>, k: nat)
    requires Run(s, b).0.state == Established && k == |b| - |Run(s, b).1|
    ensures (k == 0 || k >= WS_FRAME_LENGTH_MIN) && Run(s, b[..k]) == (Run(s, b).0, [])
    decreases |b|
  {
    hide Dispatch, Read, Run, Cut;
    if |b| < WS_FRAME_LENGTH_MIN || !Read(b).Complete? {
      NothingUsed(s, b);
    } else {
      OneRound(s, b);
      var n := Read(b).size;
      var s', rest := Dispatch(s, Read(b).frame, n), b[n..];
      UpToTheRest(s', rest, k - n);
      assert rest[..k - n] == b[n..k];
      FrameInFront(s, b, k);
    }
  }

  lemma NothingUsed(s: Session, b: seq<byte>)
    requires |b| < WS_FRAME_LENGTH_MIN || !Read(b).Complete?
    requires Run(s, b).0.state == Established
    ensures Run(s, b) == (s, b) && Run(s, b[..0]) == (s, [])
  {
    hide Read, Run;
    RunWithoutFrame(s, b);
    RunOfNothing(s);
    assert b[..0] == [];
  }

  /** Cutting the stream behind the frame that shuts the receiving side shows what can be lost. */
  lemma CutBehindTheShutter(s: Session, b: seq<byte>) returns (chunks: seq<seq<byte>>)
    requires s.state == Established && s.receiving
    requires Cut(s, b).0.state == Established && !Cut(s, b).0.receiving
    ensures Concat(chunks) == b && Feed(s, [], chunks).0 == Cut(s, b).0
  {
    hide Dispatch, Cut, Run, Read, Feed, Concat;
    var k := |b| - |Cut(s, b).1|;
    UpToTheCut(s, b, k);
    chunks := [b[..k], b[k..]];
    FeedTwo(s, b[..k], b[k..]);
  }

  /** Two callbacks, the first of which uses up everything and leaves the connection open. */
  lemma FeedBoth(s: Session, x: seq<byte>, y: seq<byte>, s': Session)
    requires s.state == Established && s.receiving && s'.state == Established && s'.receiving
    requires ProcessFrames(s, x) == (s', [])
    ensures Concat([x, y]) == x + y && Feed(s, [], [x, y]) == ProcessFrames(s', y)
  {
    hide ProcessFrames;
    ConcatTwo(x, y);
    FeedOne(s', y);
    assert [x, y][1..] == [y] && [] + x == x;
  }

  /** Reading the lone byte at the end by itself has the connection refused. */
  lemma CutBeforeTheLoneByte(s: Session, b: seq<byte>) returns (chunks: seq<seq<byte>>)
    requires s.state == Established && s.receiving
    requires Run(s, b).0.state == Established && Run(s, b).0.receiving && !Unsuspicious(Run(s, b).1)
    ensures Concat(chunks) == b && Feed(s, [], chunks).0 == Refuse(Run(s, b).0)
  {
    hide Dispatch, Run, Feed, Concat, HasReservedBits;
    var k := |b| - |Run(s, b).1|;
    UpToTheRest(s, b, k);
    RunOfNothing(s);
    chunks := [b[..k], b[k..]];
    FeedBoth(s, b[..k], b[k..], Run(s, b).0);
  }

  lemma ConcatTwo(x: seq<byte>, y: seq<byte>)
    ensures Concat([x, y]) == x + y
  {
    assert [x, y][1..] == [y] && [y][1..] == [];
    assert Concat([y]) == y + Concat([]);
  }

  /** Every chunking ends in the session of one pass if and only if the stream is settled. */
  lemma ChunkIndependenceExactly(s: Session, b: seq<byte>)
    requires s.state == Established && s.receiving
    ensures (forall chunks | Concat(chunks) == b :: Feed(s, [], chunks).0 == Run(s, b).0) <==> Settled(s, b)
  {
    hide Dispatch, Cut, Run, Read, Feed, Concat, ProcessFrames;
    if Settled(s, b) {
      RunOfNothing(s);
      forall chunks | Concat(chunks) == b ensures Feed(s, [], chunks).0 == Run(s, b).0 {
        assert [] + Concat(chunks) == b;
        SettledInChunks(s, [], chunks);
      }
    } else if Cut(s, b).0.receiving {
      CutOpen(s, b);
      var chunks := CutBeforeTheLoneByte(s, b);
    } else {
      NothingBehind(s, b);
      var chunks := CutBehindTheShutter(s, b);
    }
  }

  /** The same for the callbacks alone: all chunkings end in the session that a single callback ends in, if and only if
      the stream is settled or is itself a lone byte. */
  lemma SameAsOneCallback(s: Session, b: seq<byte>)
    requires s.state == Established && s.receiving
    ensures (forall chunks | Concat(chunks) == b :: Feed(s, [], chunks).0 == Feed(s, [], [b]).0)
            <==> Settled(s, b) || |b| == 1
  {
    hide Dispatch, Cut, Run, Read, Feed, Concat;
    FeedOne(s, b);
    ChunkIndependenceExactly(s, b);
    if |b| == 1 {
      LoneByteIsSettled(s, b);
      if HasReservedBits(b[0]) {
        forall chunks | Concat(chunks) == b ensures Feed(s, [], chunks).0 == Refuse(s) {
          LoneByteInChunks(s, b, chunks);
        }
      }
    }
  }

  lemma {:induction false} LoneByteInChunks(s: Session, b: seq<byte>, chunks: seq<seq<byte>>)
    requires s.state == Established && s.receiving && |b| == 1 && HasReservedBits(b[0]) && Concat(chunks) == b
    ensures Feed(s, [], chunks).0 == Refuse(s)
    decreases |chunks|
  {
    hide Run;
    var x := chunks[0];
    assert [] + x == x;
    if x == [] {
      RunOfNothing(s);
      LoneByteInChunks(s, b, chunks[1..]);
    } else {
      assert x == b;
    }
  }

  /** It does matter: a lone byte with a reserved bit behind whole frames is refused if it is read by itself, and waits
      if it is read with them. */
  lemma LoneByteMatters(s: Session, w: Sent, last: byte)
    requires s.state == Established && s.receiving && HasReservedBits(last)
    requires LegalFrame(w, s.fragments.Some?)
    ensures var s' := Dispatch(s, w.frame, |BytesOf(w)|);
            && Feed(s, [], [BytesOf(w) + [last]]) == (s', [last])
            && Feed(s, [], [BytesOf(w), [last]]).0 == Refuse(s')
            && !Settled(s, BytesOf(w) + [last])
  {
    hide Read, BytesOf, Run, Dispatch, Feed, Concat, Writable, Settled, HasReservedBits;
    var x, s' := BytesOf(w), Dispatch(s, w.frame, |BytesOf(w)|);
    LegalDispatch(s, w);
    SingleFrame(s, w, [last]);
    SingleFrame(s, w, []);
    assert x + [] == x;
    RunOfNothing(s');
    LoneByteIsLeft(s', [last]);
    FeedOne(s, x + [last]);
    FeedBoth(s, x, [last], s');
    ChunkIndependenceExactly(s, x + [last]);
  }

  /** It does matter: any text frame behind any CLOSE frame is dispatched in one chunking and lost in another. */
  lemma CloseLosesWhatFollows(s: Session, close: Sent, text: Sent)
    requires s.state == Established && s.receiving && s.fragments.None?
    requires close.frame.opcode == CLOSE && close.frame.fin && |BytesOf(close)| <= WS_CONTROL_MESSAGE_SIZE_MAX
    requires text.frame.opcode == TEXT && text.frame.fin
    ensures Feed(s, [], [BytesOf(close) + BytesOf(text)]).0.delivered == s.delivered + [close.frame, text.frame]
    ensures Feed(s, [], [BytesOf(close), BytesOf(text)]).0.delivered == s.delivered + [close.frame]
  {
    hide Read, BytesOf, Run, Dispatch, Feed, Concat, Writable;
    var x, y := BytesOf(close), BytesOf(text);
    var s1 := Dispatch(s, close.frame, |x|);
    CloseShuts(s, close.frame, |x|);
    TextIsDelivered(s1, text.frame, |y|);
    SingleFrame(s, close, y);
    SingleFrame(s, close, []);
    SingleFrame(s1, text, []);
    RunOfNothing(s1);
    RunOfNothing(Dispatch(s1, text.frame, |y|));
    assert x + [] == x && y + [] == y;
    FeedOne(s, x + y);
    FeedTwo(s, x, y);
  }

  lemma CloseShuts(s: Session, f: Frame, size: nat)
    requires s.state == Established && f.opcode == CLOSE && f.fin && size <= WS_CONTROL_MESSAGE_SIZE_MAX
    ensures var s' := Dispatch(s, f, size);
            && s'.state == Established && !s'.receiving && s'.fragments == s.fragments
            && s'.delivered == s.delivered + [f]
  {
    hide Created;
  }

  lemma TextIsDelivered(s: Session, f: Frame, size: nat)
    requires s.state == Established && s.fragments.None? && f.opcode == TEXT && f.fin
    ensures var s' := Dispatch(s, f, size);
            s'.state == Established && s'.delivered == s.delivered + [f]
  {
    hide Created;
  }

  lemma SingleFrame(s: Session, w: Sent, rest: seq<byte>)
    ensures Read(BytesOf(w) + rest) == Complete(w.frame, |BytesOf(w)|) && |BytesOf(w)| >= WS_FRAME_LENGTH_MIN
    ensures var s' := Dispatch(s, w.frame, |BytesOf(w)|);
            s'.state == Established ==> Run(s, BytesOf(w) + rest) == Run(s', rest)
  {
    hide Dispatch, Encode;
    ReadUndoesEncode(w.frame, w.mask, w.form, rest);
    OneRound(s, BytesOf(w) + rest);
    assert (BytesOf(w) + rest)[|BytesOf(w)|..] == rest;
  }
}
