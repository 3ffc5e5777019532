/** Messages, and how events build them (umtp/message.h, umtp/message_parser.c). */
module Message {
  import opened Bytes
  import opened Options
  import opened MessageFsm

  /** A header has no value until the machine reaches the end of its line. */
  datatype Header = Header(name: Text, value: Option<Text>)

  datatype Message = Message(values: seq<Text>, headers: seq<Header>)

  const EMPTY := Message([], [])

  /** event_handler, given the text at the marker. */
  function Handle(m: Message, kind: EventKind, token: Text): Message {
    match kind
    case ProtocolValue => m.(values := m.values + [token])
    case HeaderName => m.(headers := m.headers + [Header(token, None)])
    case HeaderValue =>
      if m.headers == [] then m
      else
        var last := |m.headers| - 1;
        m.(headers := m.headers[..last] + [m.headers[last].(value := Some(token))])
    case BodyStart => m
  }

  /** Marker_toS: the text that a marker denotes. */
  function TokenAt(text: Text, e: Event): Text {
    if e.start + e.length <= |text| then text[e.start..e.start + e.length] else []
  }

  /** The message that the events have built, the markers being offsets into text. */
  function Build(events: seq<Event>, text: Text): Message {
    if events == [] then EMPTY
    else
      var last := events[|events| - 1];
      Handle(Build(events[..|events| - 1], text), last.kind, TokenAt(text, last))
  }

  lemma BuildSnoc(events: seq<Event>, e: Event, text: Text)
    ensures Build(events + [e], text) == Handle(Build(events, text), e.kind, TokenAt(text, e))
  {
    assert (events + [e])[..|events|] == events;
  }

  /** Characters that arrive later, wherever the buffer is moved to, change nothing that was built. */
  lemma {:induction false} BuildStays(events: seq<Event>, text: Text, more: Text)
    requires InBounds(events, |text|)
    ensures Build(events, text + more) == Build(events, text)
  {
    if events == [] {
    } else {
      var before, last := events[..|events| - 1], events[|events| - 1];
      BuildStays(before, text, more);
      assert TokenAt(text + more, last) == TokenAt(text, last);
    }
  }

  // ----- reading without offsets -----

  /** The machine with the text at the marker in place of the marker. */
  datatype Reader = Reader(cs: State, token: Text, message: Message)

  const READER := Reader(ValueStart, [], EMPTY)

  function ReadStep(r: Reader, c: byte): Reader {
    var edge := Transition(r.cs, ClassOf(c));
    if edge.to.Error? then r.(cs := Error)
    else if edge.actions == [] then r.(cs := edge.to, token := r.token + [c])
    else if edge.actions[0].Emit? then
      Reader(edge.to, r.token + [c], Handle(r.message, edge.actions[0].kind, r.token))
    else r.(cs := edge.to, token := if edge.actions == [SetMarker] then [c] else [])
  }

  function Read(r: Reader, text: Text): Reader
    decreases |text|
  {
    if text == [] then r else Read(ReadStep(r, text[0]), text[1..])
  }

  lemma {:induction false} ReadAppend(r: Reader, a: Text, b: Text)
    ensures Read(r, a + b) == Read(Read(r, a), b)
    decreases |a|
  {
    if a == [] {
      assert a + b == b;
    } else {
      assert (a + b)[0] == a[0] && (a + b)[1..] == a[1..] + b;
      ReadAppend(ReadStep(r, a[0]), a[1..], b);
    }
  }

  lemma ReadSnoc(r: Reader, a: Text, c: byte)
    ensures Read(r, a + [c]) == ReadStep(Read(r, a), c)
  {
    ReadAppend(r, a, [c]);
    assert Read(Read(r, a), [c]) == Read(ReadStep(Read(r, a), c), []);
  }

  /** The reader holds the text at the marker and the message that the events build. */
  predicate Simulates(r: Reader, p: Machine, text: Text) {
    && r.cs == p.cs
    && r.message == Build(p.events, text)
    && (!p.cs.Error? ==> p.markerStart <= |text| && r.token == text[p.markerStart..])
  }

  lemma StepSimulates(r: Reader, p: Machine, text: Text, c: byte)
    requires BodyStates(p) && MarkersInBounds(p, |text|) && Simulates(r, p, text)
    ensures Simulates(ReadStep(r, c), Step(p, c), text + [c])
  {
    hide ClassOf, Transition, Step, Build, Handle;
    var e := Transition(p.cs, ClassOf(c));
    EdgeKinds(p.cs, ClassOf(c));
    StepIs(p, c);
    BuildStays(p.events, text, [c]);
    if !e.to.Error? && e.actions != [] && e.actions != [SetMarker] {
      var event := if e.actions[0].Emit? then Event(e.actions[0].kind, p.markerStart, p.markerLength)
                   else Event(BodyStart, p.offset + 1, 0);
      BuildSnoc(p.events, event, text + [c]);
      if e.actions[0].Emit? {
        assert TokenAt(text + [c], event) == r.token;
      } else {
        BodyStartBuildsNothing(Build(p.events, text), TokenAt(text + [c], event));
      }
    }
  }

  lemma BodyStartBuildsNothing(m: Message, token: Text)
    ensures Handle(m, BodyStart, token) == m
  {
  }

  predicate Together(r: Reader, p: Machine, text: Text) {
    BodyStates(p) && MarkersInBounds(p, |text|) && Simulates(r, p, text)
  }

  lemma StepTogether(r: Reader, p: Machine, text: Text, c: byte)
    requires Together(r, p, text)
    ensures Together(ReadStep(r, c), Step(p, c), text + [c])
  {
    hide ReadStep, Step, Simulates, MarkersInBounds, BodyStates;
    StepSimulates(r, p, text, c);
    StepInBody(p, c);
    StepKeepsMarkers(p, c, |text|);
  }

  lemma StartTogether()
    ensures Together(Read(READER, []), Run(START, []), [])
  {
  }

  lemma {:induction false} RunSimulates(text: Text)
    ensures Together(Read(READER, text), Run(START, text), text)
  {
    hide *;
    if text == [] {
      StartTogether();
    } else {
      var before, c := text[..|text| - 1], text[|text| - 1];
      RunSimulates(before);
      RunSnoc(START, before, c);
      ReadSnoc(READER, before, c);
      StepTogether(Read(READER, before), Run(START, before), before, c);
      assert text == before + [c];
    }
  }

  lemma {:induction false} StaysNonEmpty(r: Reader, text: Text)
    requires r.message.values != []
    ensures Read(r, text).message.values != []
    decreases |text|
  {
    hide ClassOf, Transition;
    if text == [] {
    } else {
      EdgeKinds(r.cs, ClassOf(text[0]));
      StaysNonEmpty(ReadStep(r, text[0]), text[1..]);
    }
  }

  /** A message is no longer empty once a value has ended. */
  lemma {:induction false} FirstValue(r: Reader, text: Text)
    requires (r.cs.ValueStart? || r.cs.InValue?) && r.message == EMPTY
    ensures Read(r, text).message == EMPTY <==> !EndsAValue(text)
    decreases |text|
  {
    hide ClassOf;
    if text == [] {
    } else {
      var next := ReadStep(r, text[0]);
      if next.cs.Error? {
        ErrorReads(next, text[1..]);
      } else if Graph(ClassOf(text[0])) {
        FirstValue(next, text[1..]);
      } else {
        StaysNonEmpty(next, text[1..]);
      }
    }
  }

  lemma {:induction false} ErrorReads(r: Reader, text: Text)
    requires r.cs.Error?
    ensures Read(r, text) == r
    decreases |text|
  {
    if text == [] {
    } else {
      assert ReadStep(r, text[0]) == r;
      ErrorReads(r, text[1..]);
    }
  }

  /** What the chunks build is what reading the whole text in one pass builds, if and only if the first parse has
      something to look at or the text has no value to build. */
  lemma StreamedMessage(chunks: seq<Text>)
    ensures Build(FeedAll(START, 0, chunks).events, Flatten(chunks)) == Read(READER, Flatten(chunks)).message
            <==> StartsFull(chunks) || !EndsAValue(Flatten(chunks))
    ensures StartsFull(chunks) && !FeedAll(START, 0, chunks).inBody ==>
              FeedAll(START, 0, chunks).cs == Read(READER, Flatten(chunks)).cs
  {
    hide FeedAll, Run, Flatten, Read, EndsAValue, MarkersInBounds;
    StreamingParse(chunks);
    RunSimulates(Flatten(chunks));
    FirstValue(READER, Flatten(chunks));
    assert Build([], Flatten(chunks)) == EMPTY;
  }
}
