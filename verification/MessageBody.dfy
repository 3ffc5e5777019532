/** Where the machine of umtp/message_fsm.rl says the body starts, and what umtp/message_parser.c then records. */
module MessageBody {
  import opened Bytes
  import opened MessageFsm

  /** What the body's parser records when the input has ended: as many characters from the marker on as are unparsed. */
  function BodyText(p: Machine, text: Text): Text {
    if p.markerStart <= p.offset <= |text| then text[p.markerStart..p.markerStart + (|text| - p.offset)] else []
  }

  lemma BodyStays(p: Machine, text: Text)
    requires p.cs.Body?
    ensures var q := Run(p, text); q == p || q == p.(cs := Error)
  {
    if text != [] {
      ErrorStays(Step(p, text[0]), text[1..]);
    }
  }

  // ----- how far the machine has run -----

  /** The machine that is fed chunks has run over a part of the text from its start: over all of it, or, if its handler
      was replaced, over the chunks up to that point. */
  lemma {:induction false} FedPrefix(t: Text, chunks: seq<Text>) returns (k: nat)
    requires t != [] || StartsFull(chunks)
    ensures k <= |chunks| && t + Flatten(chunks[..k]) <= t + Flatten(chunks)
    ensures FeedAll(Run(START, t), |t|, chunks) == Run(START, t + Flatten(chunks[..k]))
    ensures k == |chunks| || Run(START, t + Flatten(chunks[..k])).inBody
    decreases |chunks|
  {
    hide Run;
    if chunks == [] {
      k := 0;
      assert t + Flatten(chunks[..0]) == t;
    } else if Run(START, t).inBody {
      k := 0;
      assert t + Flatten(chunks[..0]) == t;
      FeedAllInBody(Run(START, t), |t|, chunks);
    } else {
      RunAppend(START, t, chunks[0]);
      k := FedPrefix(t + chunks[0], chunks[1..]);
      assert chunks[..k + 1][0] == chunks[0] && chunks[..k + 1][1..] == chunks[1..][..k];
      assert t + Flatten(chunks[..k + 1]) == (t + chunks[0]) + Flatten(chunks[1..][..k]);
      assert t + Flatten(chunks) == (t + chunks[0]) + Flatten(chunks[1..]);
      k := k + 1;
    }
  }

  lemma {:induction false} FeedAllInBody(p: Machine, before: nat, chunks: seq<Text>)
    requires p.inBody
    ensures FeedAll(p, before, chunks) == p
    decreases |chunks|
  {
    if chunks == [] {
    } else {
      FeedAllInBody(p, before + |chunks[0]|, chunks[1..]);
    }
  }

  lemma {:induction false} FeedAllAppend(p: Machine, before: nat, a: seq<Text>, b: seq<Text>)
    ensures FeedAll(p, before, a + b) == FeedAll(FeedAll(p, before, a), before + |Flatten(a)|, b)
    decreases |a|
  {
    hide Feed;
    if a == [] {
      assert a + b == b;
    } else {
      assert (a + b)[0] == a[0] && (a + b)[1..] == a[1..] + b;
      FeedAllAppend(Feed(p, Seen(before, a[0])), before + |a[0]|, a[1..], b);
    }
  }

  /** The machine gets past a complete envelope. */
  lemma PastEnvelope(envelope: Text, rest: Text, prefix: Text)
    requires Run(START, envelope).cs.LineStart? && prefix <= envelope + rest && rest != []
    requires prefix == envelope + rest || Run(START, prefix).inBody
    ensures |prefix| > |envelope| && prefix[..|envelope|] == envelope
  {
    hide Run, ClassOf;
    if |prefix| <= |envelope| {
      assert envelope == prefix + envelope[|prefix|..];
      StartIsOutside();
      NothingAfterBodyStart(START, prefix);
      RunAppend(START, prefix, envelope[|prefix|..]);
      NothingAfterBodyStart(Run(START, prefix), envelope[|prefix|..]);
    }
  }

  lemma LineFeedStep(p: Machine)
    requires p.cs.LineStart?
    ensures var q := Step(p, LF); q.cs.Body? && q.inBody && q.offset == q.markerStart == p.offset + 1
  {
    assert ClassOf(LF).Lf?;
    hide ClassOf, Step;
    StepIs(p, LF);
  }

  lemma CrLfStep(p: Machine)
    requires p.cs.LineStart?
    ensures var q := Step(p, CR); q.inBody && q.offset == q.markerStart == p.offset + 1
    ensures var q := Step(Step(p, CR), LF); q.cs.Body? && q.inBody && q.offset == q.markerStart + 1 == p.offset + 2
  {
    assert ClassOf(LF).Lf? && ClassOf(CR).Cr?;
    hide ClassOf, Step;
    StepIs(p, CR);
    StepIs(Step(p, CR), LF);
  }

  /** The offset counts the characters. */
  lemma {:induction false} OffsetCounts(p: Machine, text: Text)
    ensures !Run(p, text).cs.Error? ==> Run(p, text).offset == p.offset + |text|
    decreases |text|
  {
    hide Step;
    if text == [] {
    } else {
      StepIs(p, text[0]);
      if Step(p, text[0]).cs.Error? {
        ErrorStays(Step(p, text[0]), text[1..]);
      } else {
        OffsetCounts(Step(p, text[0]), text[1..]);
      }
    }
  }

  lemma BodyOffset(envelope: Text, more: Text)
    requires Run(START, envelope).cs.LineStart?
    ensures var p := Run(START, envelope + [LF] + more);
            p.inBody && p.offset == p.markerStart == |envelope| + 1
  {
    hide Run, Step;
    var p := Run(START, envelope);
    OffsetCounts(START, envelope);
    LineFeedStep(p);
    RunSnoc(START, envelope, LF);
    RunAppend(START, envelope + [LF], more);
    BodyStays(Step(p, LF), more);
  }

  lemma CrOffset(envelope: Text)
    requires Run(START, envelope).cs.LineStart?
    ensures var p := Run(START, envelope + [CR]);
            p.inBody && p.offset == p.markerStart == |envelope| + 1
  {
    hide Run, Step;
    OffsetCounts(START, envelope);
    CrLfStep(Run(START, envelope));
    RunSnoc(START, envelope, CR);
  }

  lemma CrLfOffset(envelope: Text, more: Text)
    requires Run(START, envelope).cs.LineStart?
    ensures var p := Run(START, envelope + [CR] + [LF] + more);
            p.inBody && p.offset == p.markerStart + 1 == |envelope| + 2
  {
    hide Run, Step;
    var p := Run(START, envelope);
    OffsetCounts(START, envelope);
    CrLfStep(p);
    RunSnoc(START, envelope, CR);
    RunSnoc(START, envelope + [CR], LF);
    RunAppend(START, envelope + [CR] + [LF], more);
    BodyStays(Step(Step(p, CR), LF), more);
  }

  // ----- what is recorded -----

  /** A line feed behind a complete envelope starts the body, and what is recorded is all that follows, however it
      arrives. */
  lemma BodyBehindLineFeed(envelope: Text, body: Text, chunks: seq<Text>)
    requires Run(START, envelope).cs.LineStart? && Flatten(chunks) == envelope + [LF] + body && StartsFull(chunks)
    ensures var p := FeedAll(START, 0, chunks); p.inBody && BodyText(p, Flatten(chunks)) == body
  {
    hide Run, FeedAll, ClassOf;
    var text := Flatten(chunks);
    var prefix := Fed(chunks);
    assert text == envelope + ([LF] + body);
    PastEnvelope(envelope, [LF] + body, prefix);
    assert prefix == envelope + [LF] + prefix[|envelope| + 1..];
    BodyOffset(envelope, prefix[|envelope| + 1..]);
    assert text[|envelope| + 1..] == body;
  }

  /** Some chunk ends exactly behind this part of the text. */
  ghost predicate CutBehind(chunks: seq<Text>, front: Text) {
    exists k | 0 <= k <= |chunks| :: Flatten(chunks[..k]) == front
  }

  lemma Fed(chunks: seq<Text>) returns (prefix: Text)
    requires StartsFull(chunks)
    ensures prefix <= Flatten(chunks) && FeedAll(START, 0, chunks) == Run(START, prefix)
    ensures prefix == Flatten(chunks) || Run(START, prefix).inBody
    ensures CutBehind(chunks, prefix)
  {
    hide Run, FeedAll;
    RunOfNothing();
    var k := FedPrefix([], chunks);
    prefix := Flatten(chunks[..k]);
    assert [] + prefix == prefix && [] + Flatten(chunks) == Flatten(chunks);
    assert k == |chunks| ==> chunks[..k] == chunks;
  }

  /** If a chunk ends behind the carriage return, the handler is replaced there. */
  lemma FedToCr(envelope: Text, chunks: seq<Text>)
    requires Run(START, envelope).cs.LineStart? && StartsFull(chunks) && CutBehind(chunks, envelope + [CR])
    ensures FeedAll(START, 0, chunks) == Run(START, envelope + [CR])
  {
    hide Run, FeedAll;
    var k :| 0 <= k <= |chunks| && Flatten(chunks[..k]) == envelope + [CR];
    var first := chunks[..k];
    var prefix := Fed(first);
    PastEnvelope(envelope, [CR], prefix);
    assert prefix == envelope + [CR];
    CrOffset(envelope);
    assert chunks == first + chunks[k..];
    FeedAllAppend(START, 0, first, chunks[k..]);
    FeedAllInBody(Run(START, prefix), |Flatten(first)|, chunks[k..]);
  }

  /** Behind a carriage return and a line feed the marker is at the line feed. What is recorded starts with it; it lacks
      its own last character unless a chunk ends behind the carriage return. */
  lemma BodyBehindCrLf(envelope: Text, body: Text, chunks: seq<Text>)
    requires Run(START, envelope).cs.LineStart? && StartsFull(chunks)
    requires Flatten(chunks) == envelope + [CR] + [LF] + body
    ensures var p := FeedAll(START, 0, chunks);
            && p.inBody
            && BodyText(p, Flatten(chunks))
               == if CutBehind(chunks, envelope + [CR]) then [LF] + body else ([LF] + body)[..|body|]
  {
    hide Run, FeedAll, CutBehind;
    var text := Flatten(chunks);
    assert text[|envelope| + 1..] == [LF] + body;
    if CutBehind(chunks, envelope + [CR]) {
      FedToCr(envelope, chunks);
      CrOffset(envelope);
    } else {
      var prefix := Fed(chunks);
      assert text == envelope + ([CR] + [LF] + body);
      PastEnvelope(envelope, [CR] + [LF] + body, prefix);
      assert |prefix| == |envelope| + 1 ==> prefix == envelope + [CR];
      assert prefix == envelope + [CR] + [LF] + prefix[|envelope| + 2..];
      CrLfOffset(envelope, prefix[|envelope| + 2..]);
    }
  }

  predicate AllLineFeeds(body: Text) {
    forall c <- body :: c == LF
  }

  lemma {:induction false} ShiftedByOne(body: Text)
    ensures ([LF] + body)[..|body|] == body <==> AllLineFeeds(body)
  {
    if body != [] {
      var front := body[..|body| - 1];
      ShiftedByOne(front);
      assert ([LF] + body)[..|body|] == [LF] + front;
      assert body == front + [body[|body| - 1]];
      if [LF] + front == body {
        assert ([LF] + front)[..|front|] == front;
      }
      if AllLineFeeds(body) {
        forall i | 0 <= i < |body| ensures ([LF] + front)[i] == body[i] {
          assert body[i] in body && (i > 0 ==> body[i - 1] in body);
        }
        assert [LF] + front == body;
      }
    }
  }

  /** Behind a carriage return and a line feed the body is recorded as it is if and only if no chunk ends between the two
      and it consists of line feeds. */
  lemma CrLfKeepsBody(envelope: Text, body: Text, chunks: seq<Text>)
    requires Run(START, envelope).cs.LineStart? && StartsFull(chunks)
    requires Flatten(chunks) == envelope + [CR] + [LF] + body
    ensures BodyText(FeedAll(START, 0, chunks), Flatten(chunks)) == body
            <==> !CutBehind(chunks, envelope + [CR]) && AllLineFeeds(body)
  {
    hide Run, FeedAll, CutBehind, BodyText, AllLineFeeds;
    BodyBehindCrLf(envelope, body, chunks);
    ShiftedByOne(body);
    assert |[LF] + body| == |body| + 1;
  }

  lemma FlattenTwo(x: Text, y: Text)
    ensures Flatten([x, y]) == x + y && Flatten([x, y][..1]) == x
  {
    assert [x, y][1..] == [y] && [y][1..] == [] && [x, y][..1] == [x] && [x][1..] == [];
    assert Flatten([y]) == y + Flatten([]);
    assert Flatten([x]) == x + Flatten([]);
  }

  /** A separator keeps every body, in every chunking, if and only if it is a line feed alone. */
  lemma SeparatorKeepsBody(envelope: Text, separator: Text, body: Text)
    requires Run(START, envelope).cs.LineStart? && (separator == [LF] || separator == [CR, LF])
    ensures (forall chunks | StartsFull(chunks) && Flatten(chunks) == envelope + separator + body ::
               BodyText(FeedAll(START, 0, chunks), Flatten(chunks)) == body)
            <==> separator == [LF]
  {
    hide Run, FeedAll, BodyText;
    if separator == [LF] {
      forall chunks | StartsFull(chunks) && Flatten(chunks) == envelope + separator + body
        ensures BodyText(FeedAll(START, 0, chunks), Flatten(chunks)) == body
      {
        BodyBehindLineFeed(envelope, body, chunks);
      }
    } else {
      var x, y := envelope + [CR], [LF] + body;
      var chunks := [x, y];
      FlattenTwo(x, y);
      assert x + y == envelope + separator + body && x + y == envelope + [CR] + [LF] + body;
      assert CutBehind(chunks, x);
      CrLfKeepsBody(envelope, body, chunks);
    }
  }
}
