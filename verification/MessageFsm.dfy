/** umtp/message_fsm.rl: the envelope's character machine, with the marker of umtp/parser.h. */
module MessageFsm {
  import opened Bytes

  type Text = seq<byte>

  const TAB: byte := 0x09
  const LF: byte := 0x0A
  const CR: byte := 0x0D
  const SPACE: byte := 0x20
  const COLON: byte := 0x3A

  /** The characters that the grammar tells apart. */
  datatype Class = Space | Tab | Cr | Lf | Colon | NameChar | Visible | Other

  predicate Alnum(c: byte) {
    0x30 <= c <= 0x39 || 0x41 <= c <= 0x5A || 0x61 <= c <= 0x7A
  }

  function ClassOf(c: byte): Class {
    if c == SPACE then Space
    else if c == TAB then Tab
    else if c == CR then Cr
    else if c == LF then Lf
    else if c == COLON then Colon
    else if Alnum(c) || c == 0x2D || c == 0x5F then NameChar
    else if 0x21 <= c <= 0x7E then Visible
    else Other
  }

  predicate Graph(k: Class) {
    k.Colon? || k.NameChar? || k.Visible?
  }

  predicate Print(k: Class) {
    Graph(k) || k.Space?
  }

  predicate Blank(k: Class) {
    k.Space? || k.Tab?
  }

  /** Characters that stay on a line. */
  predicate Inline(k: Class) {
    Print(k) || k.Tab?
  }

  datatype State =
    | ValueStart      // at the start, or after blanks, of the protocol line
    | InValue
    | CrSeen          // after the carriage return of a protocol or header line
    | LineStart       // the envelope is complete so far
    | InName
    | AfterName       // blanks before the colon
    | AfterColon      // after the colon, or a tab behind it
    | AfterSpace      // after a space behind the colon, which may also be the value's first
    | InHeaderValue
    | BodyCr
    | Body
    | Error

  datatype EventKind = ProtocolValue | HeaderName | HeaderValue | BodyStart

  datatype Action = SetMarker | CountToken | Emit(kind: EventKind)

  datatype Edge = Edge(to: State, actions: seq<Action>)

  /** The end of a line in the middle of a value: the value is emitted before the line feed. */
  function LineEnd(k: Class, emit: seq<Action>): Edge {
    match k
    case Cr => Edge(CrSeen, emit)
    case Lf => Edge(LineStart, emit)
    case _ => Edge(Error, [])
  }

  /** The machine that the grammar describes, without the CountToken that every transition has. */
  function Transition(s: State, k: Class): Edge {
    match s
    case ValueStart =>
      if Graph(k) then Edge(InValue, [SetMarker])
      else if Blank(k) then Edge(ValueStart, [Emit(ProtocolValue)])
      else LineEnd(k, [Emit(ProtocolValue)])
    case InValue =>
      if Graph(k) then Edge(InValue, [])
      else if Blank(k) then Edge(ValueStart, [Emit(ProtocolValue)])
      else LineEnd(k, [Emit(ProtocolValue)])
    case CrSeen => if k.Lf? then Edge(LineStart, []) else Edge(Error, [])
    case LineStart =>
      if k.NameChar? then Edge(InName, [SetMarker])
      else if k.Cr? then Edge(BodyCr, [CountToken, SetMarker, Emit(BodyStart)])
      else if k.Lf? then Edge(Body, [CountToken, SetMarker, Emit(BodyStart)])
      else Edge(Error, [])
    case InName =>
      if k.NameChar? then Edge(InName, [])
      else if Blank(k) then Edge(AfterName, [Emit(HeaderName)])
      else if k.Colon? then Edge(AfterColon, [Emit(HeaderName)])
      else Edge(Error, [])
    case AfterName =>
      if Blank(k) then Edge(AfterName, [])
      else if k.Colon? then Edge(AfterColon, [])
      else Edge(Error, [])
    case AfterColon | AfterSpace =>
      if k.Space? then Edge(AfterSpace, [SetMarker])
      else if k.Tab? then Edge(AfterColon, [])
      else if Graph(k) then Edge(InHeaderValue, [SetMarker])
      else LineEnd(k, [Emit(HeaderValue)])
    case InHeaderValue =>
      if Print(k) then Edge(InHeaderValue, [])
      else LineEnd(k, [Emit(HeaderValue)])
    case BodyCr => if k.Lf? then Edge(Body, []) else Edge(Error, [])
    case Body | Error => Edge(Error, [])
  }

  // ----- events with markers -----

  datatype Event = Event(kind: EventKind, start: nat, length: nat)

  /** Machine state, buffer offset and marker, the events emitted, and whether the handlers have been
      replaced by those of the body. */
  datatype Machine = Machine(
    cs: State, offset: nat, markerStart: nat, markerLength: nat, events: seq<Event>, inBody: bool)

  const START := Machine(ValueStart, 0, 0, 0, [], false)

  function Perform(p: Machine, a: Action): Machine {
    match a
    case SetMarker => p.(markerStart := p.offset, markerLength := 0)
    case CountToken => p.(offset := p.offset + 1, markerLength := p.markerLength + 1)
    case Emit(k) =>
      p.(events := p.events + [Event(k, p.markerStart, p.markerLength)], inBody := p.inBody || k.BodyStart?)
  }

  function PerformAll(p: Machine, actions: seq<Action>): Machine
    decreases |actions|
  {
    if actions == [] then p else PerformAll(Perform(p, actions[0]), actions[1..])
  }

  /** Every transition counts its character, last unless its actions do already: an action that is embedded twice in
      a transition is performed once, where it appears first. */
  function Counted(actions: seq<Action>): seq<Action> {
    if CountToken in actions then actions else actions + [CountToken]
  }

  /** One character. The machine stays at a character it does not accept. */
  function Step(p: Machine, c: byte): Machine {
    var edge := Transition(p.cs, ClassOf(c));
    if edge.to.Error? then p.(cs := Error) else PerformAll(p, Counted(edge.actions)).(cs := edge.to)
  }

  function Run(p: Machine, text: Text): Machine
    decreases |text|
  {
    if text == [] then p else Run(Step(p, text[0]), text[1..])
  }

  /** RagelParser_parse on new characters: the envelope machine runs unless the body has started. */
  function Feed(p: Machine, chunk: Text): Machine {
    if p.inBody then p else Run(p, chunk)
  }

  /** What a run looks at when more characters have arrived behind those of before: a buffer that is still empty has
      its terminator looked at. */
  function Seen(before: nat, more: Text): Text {
    if before == 0 && more == [] then [0] else more
  }

  /** The chunks arrive one after the other, behind the characters of before, and each is parsed. */
  function FeedAll(p: Machine, before: nat, chunks: seq<Text>): Machine
    decreases |chunks|
  {
    if chunks == [] then p else FeedAll(Feed(p, Seen(before, chunks[0])), before + |chunks[0]|, chunks[1..])
  }

  function Flatten(chunks: seq<Text>): Text {
    if chunks == [] then [] else chunks[0] + Flatten(chunks[1..])
  }

  // ----- streaming -----

  lemma {:induction false} RunAppend(p: Machine, a: Text, b: Text)
    ensures Run(p, a + b) == Run(Run(p, a), b)
    decreases |a|
  {
    if a == [] {
      assert a + b == b;
    } else {
      assert (a + b)[0] == a[0] && (a + b)[1..] == a[1..] + b;
      RunAppend(Step(p, a[0]), a[1..], b);
    }
  }

  lemma RunSnoc(p: Machine, a: Text, c: byte)
    ensures Run(p, a + [c]) == Step(Run(p, a), c)
  {
    RunAppend(p, a, [c]);
    assert Run(Run(p, a), [c]) == Run(Step(Run(p, a), c), []);
  }

  predicate BodyStates(p: Machine) {
    p.inBody <==> p.cs.BodyCr? || p.cs.Body? || (p.cs.Error? && p.inBody)
  }

  /** The four kinds of transition. */
  lemma EdgeKinds(s: State, k: Class)
    ensures var e := Transition(s, k);
            || e.to.Error?
            || (e.actions == [] && (e.to.BodyCr? || e.to.Body? ==> s.BodyCr?))
            || (e.actions == [SetMarker] && !e.to.BodyCr? && !e.to.Body?)
            || (|e.actions| == 1 && e.actions[0].Emit? && !e.actions[0].kind.BodyStart?
                && !e.to.BodyCr? && !e.to.Body? && !s.BodyCr? && !s.Body?)
            || (e.actions == [CountToken, SetMarker, Emit(BodyStart)] && (e.to.BodyCr? || e.to.Body?) && s.LineStart?)
    ensures var e := Transition(s, k);
            s.BodyCr? || s.Body? || s.Error? ==> e.to.Error? || (s.BodyCr? && e == Edge(Body, []))
  {
  }

  /** What one character does, by kind of transition. */
  lemma StepIs(p: Machine, c: byte)
    ensures var e := Transition(p.cs, ClassOf(c));
            Step(p, c)
            == if e.to.Error? then p.(cs := Error)
               else if e.actions == [] then
                 p.(cs := e.to, offset := p.offset + 1, markerLength := p.markerLength + 1)
               else if e.actions == [SetMarker] then
                 p.(cs := e.to, offset := p.offset + 1, markerStart := p.offset, markerLength := 1)
               else if e.actions[0].Emit? then
                 p.(cs := e.to, offset := p.offset + 1, markerLength := p.markerLength + 1,
                    events := p.events + [Event(e.actions[0].kind, p.markerStart, p.markerLength)])
               else
                 p.(cs := e.to, offset := p.offset + 1, markerStart := p.offset + 1, markerLength := 0, inBody := true,
                    events := p.events + [Event(BodyStart, p.offset + 1, 0)])
  {
    hide ClassOf, Transition;
    var e := Transition(p.cs, ClassOf(c));
    EdgeKinds(p.cs, ClassOf(c));
    if e.to.Error? {
    } else if e.actions == [] {
      assert Counted(e.actions) == [CountToken];
      PerformTwo(p, [CountToken]);
    } else if |e.actions| == 1 {
      assert Counted(e.actions) == [e.actions[0], CountToken];
      PerformTwo(p, Counted(e.actions));
    } else {
      assert e.actions[1..] == [SetMarker, Emit(BodyStart)];
      PerformTwo(Perform(p, CountToken), e.actions[1..]);
    }
  }

  lemma PerformTwo(p: Machine, actions: seq<Action>)
    requires 1 <= |actions| <= 2
    ensures PerformAll(p, actions)
            == if |actions| == 1 then Perform(p, actions[0]) else Perform(Perform(p, actions[0]), actions[1])
  {
    var q := Perform(p, actions[0]);
    if |actions| == 2 {
      assert PerformAll(q, actions[1..]) == PerformAll(Perform(q, actions[1]), []);
    }
  }

  lemma StepInBody(p: Machine, c: byte)
    requires BodyStates(p)
    ensures BodyStates(Step(p, c))
    ensures p.inBody ==> Step(p, c).inBody && Step(p, c).events == p.events
  {
    hide ClassOf, Transition, Step;
    EdgeKinds(p.cs, ClassOf(c));
    StepIs(p, c);
  }

  /** Once the body has started no event is emitted, so the handler that replaced the envelope's is not called by the
      rest of the machine's run. */
  lemma {:induction false} NothingAfterBodyStart(p: Machine, text: Text)
    requires BodyStates(p)
    ensures BodyStates(Run(p, text))
    ensures p.inBody ==> Run(p, text).inBody && Run(p, text).events == p.events
    decreases |text|
  {
    if text == [] {
    } else {
      StepInBody(p, text[0]);
      NothingAfterBodyStart(Step(p, text[0]), text[1..]);
    }
  }

  /** Two parsers that have emitted the same events, and are in the same state unless in the body. */
  predicate SameEnvelope(p: Machine, q: Machine) {
    p.events == q.events && p.inBody == q.inBody && (!p.inBody ==> p == q)
  }

  lemma FeedKeepsEnvelope(p: Machine, q: Machine, chunk: Text)
    requires BodyStates(p) && BodyStates(q) && SameEnvelope(p, q)
    ensures SameEnvelope(Feed(p, chunk), Run(q, chunk))
    ensures BodyStates(Feed(p, chunk)) && BodyStates(Run(q, chunk))
  {
    hide BodyStates, Run;
    NothingAfterBodyStart(p, chunk);
    NothingAfterBodyStart(q, chunk);
  }

  lemma {:induction false} StreamsInStep(p: Machine, q: Machine, before: nat, chunks: seq<Text>)
    requires BodyStates(p) && BodyStates(q) && SameEnvelope(p, q) && before > 0
    ensures SameEnvelope(FeedAll(p, before, chunks), Run(q, Flatten(chunks)))
    decreases |chunks|
  {
    hide BodyStates, Feed, SameEnvelope;
    if chunks == [] {
    } else {
      FeedKeepsEnvelope(p, q, chunks[0]);
      RunAppend(q, chunks[0], Flatten(chunks[1..]));
      StreamsInStep(Feed(p, chunks[0]), Run(q, chunks[0]), before + |chunks[0]|, chunks[1..]);
    }
  }

  /** The first parse has something to look at. */
  predicate StartsFull(chunks: seq<Text>) {
    chunks != [] ==> chunks[0] != []
  }

  /** The first character that does not belong to a protocol value ends one. */
  predicate EndsAValue(text: Text) {
    text != [] &&
    var k := ClassOf(text[0]);
    if Graph(k) then EndsAValue(text[1..]) else Blank(k) || k.Cr? || k.Lf?
  }

  lemma EmptyStartStops()
    ensures Feed(START, [0]) == START.(cs := Error)
  {
    assert ClassOf(0).Other?;
    assert Run(START, [0]) == Run(Step(START, 0), []);
  }

  lemma {:induction false} StoppedStays(p: Machine, before: nat, chunks: seq<Text>)
    requires p.cs.Error?
    ensures FeedAll(p, before, chunks) == p
    decreases |chunks|
  {
    if chunks == [] {
    } else {
      ErrorStays(p, Seen(before, chunks[0]));
      StoppedStays(p, before + |chunks[0]|, chunks[1..]);
    }
  }

  lemma {:induction false} EventsStay(p: Machine, text: Text)
    ensures p.events <= Run(p, text).events
    decreases |text|
  {
    if text == [] {
    } else {
      StepIs(p, text[0]);
      EventsStay(Step(p, text[0]), text[1..]);
    }
  }

  lemma {:induction false} FirstEvent(p: Machine, text: Text)
    requires p.cs.ValueStart? || p.cs.InValue?
    ensures Run(p, text).events == p.events <==> !EndsAValue(text)
    decreases |text|
  {
    hide ClassOf;
    if text == [] {
    } else {
      var next := Step(p, text[0]);
      StepIs(p, text[0]);
      EventsStay(next, text[1..]);
      if next.cs.Error? {
        ErrorStays(next, text[1..]);
      } else if Graph(ClassOf(text[0])) {
        FirstEvent(next, text[1..]);
      }
    }
  }

  /** However the text is cut, the machine emits the events of one pass, the same kinds with the same markers, if and
      only if the first parse has something to look at, or there is no event to emit; in the first case it is also in
      the same state unless the body has started. */
  lemma StreamingParse(chunks: seq<Text>)
    ensures FeedAll(START, 0, chunks).events == Run(START, Flatten(chunks)).events
            <==> StartsFull(chunks) || !EndsAValue(Flatten(chunks))
    ensures StartsFull(chunks) ==> SameEnvelope(FeedAll(START, 0, chunks), Run(START, Flatten(chunks)))
    ensures !StartsFull(chunks) ==> FeedAll(START, 0, chunks) == START.(cs := Error)
  {
    hide Run, BodyStates, ClassOf, EndsAValue;
    if chunks == [] {
      RunOfNothing();
    } else if chunks[0] != [] {
      assert BodyStates(START) by {
        StartIsOutside();
      }
      FeedKeepsEnvelope(START, START, chunks[0]);
      RunAppend(START, chunks[0], Flatten(chunks[1..]));
      StreamsInStep(Feed(START, chunks[0]), Run(START, chunks[0]), |chunks[0]|, chunks[1..]);
    } else {
      EmptyStartStops();
      StoppedStays(START.(cs := Error), 0, chunks[1..]);
      FirstEvent(START, Flatten(chunks));
    }
  }

  lemma StartIsOutside()
    ensures BodyStates(START)
  {
  }

  lemma RunOfNothing()
    ensures Run(START, []) == START
  {
  }

  // ----- markers -----

  predicate InBounds(events: seq<Event>, seen: nat) {
    forall e <- events :: e.start + e.length <= seen
  }

  /** The marker ends where the next character is, and every token emitted is text that was seen. */
  predicate MarkersInBounds(p: Machine, seen: nat) {
    && p.markerStart + p.markerLength == p.offset
    && (!p.cs.Error? ==> p.offset == seen)
    && p.offset <= seen
    && InBounds(p.events, seen)
  }

  lemma StepKeepsMarkers(p: Machine, c: byte, seen: nat)
    requires BodyStates(p) && MarkersInBounds(p, seen)
    ensures MarkersInBounds(Step(p, c), seen + 1)
  {
    hide ClassOf, Transition, Step;
    EdgeKinds(p.cs, ClassOf(c));
    StepIs(p, c);
  }

  lemma {:induction false} RunKeepsMarkers(p: Machine, text: Text, seen: nat)
    requires BodyStates(p) && MarkersInBounds(p, seen)
    ensures BodyStates(Run(p, text)) && MarkersInBounds(Run(p, text), seen + |text|)
    decreases |text|
  {
    if text == [] {
    } else {
      StepInBody(p, text[0]);
      StepKeepsMarkers(p, text[0], seen);
      RunKeepsMarkers(Step(p, text[0]), text[1..], seen + 1);
    }
  }

  /** An error stops the machine for good. */
  lemma {:induction false} ErrorStays(p: Machine, text: Text)
    requires p.cs.Error?
    ensures Run(p, text) == p
    decreases |text|
  {
    if text == [] {
    } else {
      assert Step(p, text[0]) == p;
      ErrorStays(p, text[1..]);
    }
  }
}
