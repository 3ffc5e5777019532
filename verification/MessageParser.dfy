/** umtp/parser.c, umtp/parser.h and umtp/message_parser.c: the machine run over a buffer that grows between calls. */
module MessageParser {
  import opened Bytes
  import opened Options
  import opened FileDescriptor
  import opened StringBuffer
  import opened MessageFsm
  import opened MessageBody
  import opened Message

  /** A header value may be emitted. */
  predicate HeaderOpen(s: State) {
    s.AfterName? || s.AfterColon? || s.AfterSpace? || s.InHeaderValue?
  }

  /** A header's name is emitted before its value. */
  lemma HeaderNameFirst(s: State, k: Class)
    ensures var e := Transition(s, k);
            && (HeaderOpen(e.to) ==> HeaderOpen(s) || e.actions == [Emit(HeaderName)])
            && (e.actions == [Emit(HeaderValue)] ==> HeaderOpen(s))
  {
  }

  lemma StepKeepsShape(m: Machine, c: byte)
    requires BodyStates(m) && m.markerStart + m.markerLength == m.offset
    requires !Transition(m.cs, ClassOf(c)).to.Error?
    ensures var n, e := Step(m, c), Transition(m.cs, ClassOf(c));
            && BodyStates(n) && n.cs == e.to && n.markerStart + n.markerLength == n.offset == m.offset + 1
            && (m.inBody ==> n.inBody)
            && (HeaderOpen(n.cs) ==> HeaderOpen(m.cs) || e.actions == [Emit(HeaderName)])
  {
    HeaderNameFirst(m.cs, ClassOf(c));
    EdgeKinds(m.cs, ClassOf(c));
    StepInBody(m, c);
    StepIs(m, c);
    hide ClassOf, Transition, Step;
  }

  /** A terminator stops the machine. */
  lemma TerminatorStops(s: State)
    ensures Transition(s, ClassOf(0)).to.Error?
  {
  }

  /** Where the machine is after one character, and where it stops. */
  lemma RunOne(m: Machine, v: Text, position: nat, end: nat)
    requires position < end <= |v|
    ensures var next := Step(m, v[position]);
            Run(m, v[position..end])
            == Run(next, v[if next.cs.Error? then position else position + 1..end])
  {
    var next, rest := Step(m, v[position]), v[position..end];
    assert rest[1..] == v[position + 1..end];
    if next.cs.Error? {
      ErrorStays(next, rest);
      ErrorStays(next, rest[1..]);
    }
  }

  lemma RunStops(m: Machine, v: Text, position: nat, end: nat)
    requires position <= end <= |v| && (position == end || m.cs.Error?)
    ensures Run(m, v[position..end]) == m
  {
    if m.cs.Error? {
      ErrorStays(m, v[position..end]);
    }
  }

  /** A machine fed in chunks that has seen text. */
  ghost predicate Tracks(m: Machine, text: Text) {
    BodyStates(m) && BodyStates(Run(START, text)) && SameEnvelope(m, Run(START, text))
  }

  lemma StartTracks(text: Text)
    ensures Tracks(START, []) && Build([], text) == EMPTY
  {
  }

  lemma TracksOn(m: Machine, text: Text, more: Text)
    requires Tracks(m, text)
    ensures Tracks(Feed(m, more), text + more)
  {
    RunAppend(START, text, more);
    FeedKeepsEnvelope(m, Run(START, text), more);
  }

  /** Without new characters the body does not start. */
  lemma NothingNew(m: Machine, before: nat)
    ensures Feed(m, Seen(before, [])).inBody == m.inBody
  {
    if before == 0 {
      assert ClassOf(0).Other?;
      assert Run(m, [0]) == Run(Step(m, 0), []);
    }
  }

  /** An empty buffer's terminator is part of no marker. */
  lemma EmptyHasNoMarkers(m: Machine, contents: Text, text: Text)
    requires InBounds(m.events, |contents|) && (text == Seen(0, contents) || text == contents)
    ensures Build(m.events, contents) == Build(m.events, text)
  {
    BuildStays(m.events, contents, text[|contents|..]);
    assert contents + text[|contents|..] == text;
  }

  /** The message is the one that a single pass over the text builds. */
  lemma MessageTracks(m: Machine, text: Text)
    requires Tracks(m, text)
    ensures Build(m.events, text) == Read(READER, text).message
  {
    RunSimulates(text);
  }

  /** What reads of a size deliver before they stop; reads of size zero deliver nothing. */
  function Delivers(script: Script, size: nat): Text {
    if size == 0 then [] else Ready(script)
  }

  /** The reads stop as at the end of input. */
  predicate Ends(script: Script, size: nat) {
    size == 0 || Stop(script).Eof?
  }

  /** Positions are offsets into the buffer's array; they are recomputed from bufferOffset before every run. */
  class MessageParser {
    var buffer: Buffer
    var bufferOffset: nat
    var markerStart: nat
    var markerLength: nat
    var bufferPosition: nat
    var bufferEnd: nat
    var cs: State
    var initialized: bool
    var bodyParsing: bool      // f_parse and f_event are those of the body
    var finished: bool
    var eof: Option<nat>
    var message: Message
    var body: Option<Text>
    ghost var events: seq<Event>

    ghost function Machine(): Machine
      reads this
    {
      MessageFsm.Machine(if initialized || bodyParsing then cs else ValueStart,
                         bufferOffset, markerStart, markerLength, events, bodyParsing)
    }

    /** The markers are in the buffer and the message is what the events build from it. */
    ghost predicate Valid()
      reads this, buffer, buffer.value
    {
      && Consistent()
      && BodyStates(Machine())
      && markerStart + markerLength == bufferOffset
      && bufferOffset <= buffer.used && (bodyParsing ==> bufferOffset > 0)
      && (eof.Some? ==> finished)
      && (!bodyParsing && HeaderOpen(Machine().cs) ==> message.headers != [])
    }

    /** The characters the next run will look at: an empty buffer has its terminator looked at. */
    ghost function Unread(): Text
      reads this, buffer, buffer.value
      requires Valid()
    {
      if bodyParsing then [] else if buffer.used == 0 then [0] else buffer.Contents()[bufferOffset..]
    }

    /** MessageParser_from_buf. */
    constructor (buffer: Buffer)
      requires buffer.Valid()
      ensures Valid() && this.buffer == buffer && Machine() == START
      ensures message == EMPTY && body == None && !finished
    {
      this.buffer := buffer;
      bufferOffset, markerStart, markerLength := 0, 0, 0;
      bufferPosition, bufferEnd := 0, 0;
      cs, initialized, bodyParsing := Error, false, false;
      finished, eof := false, None;
      message, body, events := EMPTY, None, [];
    }

    method FirstRun() returns (first: bool)
      modifies this`initialized
      ensures initialized && first == !old(initialized)
    {
      first := !initialized;
      initialized := true;
    }

    method Update()
      modifies this`bufferPosition, this`bufferEnd, this`eof
      ensures bufferPosition == bufferOffset
      ensures bufferEnd == if buffer.used == 0 then 1 else buffer.used
      ensures eof == if finished then Some(bufferEnd) else old(eof)
    {
      bufferPosition := bufferOffset;
      bufferEnd := (if buffer.used == 0 then 0 else buffer.used - 1) + 1;
      if finished {
        eof := Some(bufferEnd);
      }
    }

    method MarkerToS() returns (s: Text)
      requires buffer.Valid() && markerStart + markerLength <= buffer.used
      ensures forall e: Event ::
                e.start == markerStart && e.length == markerLength ==> s == TokenAt(buffer.Contents(), e)
    {
      s := buffer.value[markerStart..markerStart + markerLength];
    }

    /** The message keeps up with the events. */
    ghost predicate Consistent()
      reads this, buffer, buffer.value
    {
      buffer.Valid() && InBounds(events, buffer.used) && message == Build(events, buffer.Contents())
    }

    /** event_handler. A header value finds the header it belongs to. */
    method EventHandler(kind: EventKind)
      requires Consistent() && initialized && !bodyParsing && markerStart + markerLength <= buffer.used
      requires kind.HeaderValue? ==> message.headers != []
      modifies this`message, this`bodyParsing, this`events
      ensures Consistent() && Machine() == Perform(old(Machine()), Emit(kind))
      ensures old(message.headers) != [] || kind.HeaderName? ==> message.headers != []
    {
      hide Build, TokenAt;
      ghost var event := Event(kind, markerStart, markerLength);
      BuildSnoc(events, event, buffer.Contents());
      events := events + [event];
      match kind {
        case ProtocolValue =>
          var value := MarkerToS();
          message := message.(values := message.values + [value]);
        case HeaderName =>
          var name := MarkerToS();
          message := message.(headers := message.headers + [Header(name, None)]);
        case HeaderValue =>
          var value := MarkerToS();
          var last := |message.headers| - 1;
          message := message.(headers := message.headers[..last] + [message.headers[last].(value := Some(value))]);
        case BodyStart =>
          bodyParsing := true;
      }
    }

    /** One action of the machine. */
    method Act(action: Action)
      requires Consistent() && initialized
      requires action.Emit? ==>
                 && !bodyParsing && markerStart + markerLength <= buffer.used
                 && (action.kind.HeaderValue? ==> message.headers != [])
      modifies this`message, this`bodyParsing, this`events, this`bufferOffset, this`markerStart, this`markerLength
      ensures Consistent() && Machine() == Perform(old(Machine()), action)
      ensures old(message.headers) != [] || action == Emit(HeaderName) ==> message.headers != []
    {
      match action {
        case SetMarker =>
          markerStart := bufferOffset;
          markerLength := 0;
        case CountToken =>
          bufferOffset := bufferOffset + 1;
          markerLength := markerLength + 1;
        case Emit(kind) =>
          EventHandler(kind);
      }
    }

    /** The actions of a transition, each once. */
    method ActAll(edge: Edge, ghost c: byte)
      requires Valid() && initialized && edge == Transition(cs, ClassOf(c)) && !edge.to.Error?
      requires bufferOffset < buffer.used
      modifies this`message, this`bodyParsing, this`events, this`bufferOffset, this`markerStart, this`markerLength
      ensures Consistent() && Machine().(cs := edge.to) == Step(old(Machine()), c)
      ensures old(message.headers) != [] || edge.actions == [Emit(HeaderName)] ==> message.headers != []
    {
      EdgeKinds(cs, ClassOf(c));
      HeaderNameFirst(cs, ClassOf(c));
      StepIs(Machine(), c);
      hide ClassOf, Transition, Step, Build;
      if |edge.actions| > 1 {
        Act(edge.actions[0]);
        Act(edge.actions[1]);
        Act(edge.actions[2]);
      } else {
        if edge.actions != [] {
          Act(edge.actions[0]);
        }
        Act(CountToken);
      }
    }

    /** A transition that is not an error. */
    method Advance(edge: Edge, ghost c: byte)
      requires Valid() && initialized && edge == Transition(cs, ClassOf(c)) && !edge.to.Error?
      requires bufferOffset < buffer.used
      modifies this`message, this`bodyParsing, this`events, this`bufferOffset, this`markerStart, this`markerLength
      modifies this`cs
      ensures Valid() && Machine() == Step(old(Machine()), c) && cs == edge.to
      ensures bufferOffset == old(bufferOffset) + 1
    {
      StepKeepsShape(Machine(), c);
      hide ClassOf, Transition, Step, Build, InBounds, BodyStates, PerformAll;
      ActAll(edge, c);
      cs := edge.to;
    }

    /** What holds while the generated code runs. */
    ghost predicate Running()
      reads this, buffer, buffer.value
    {
      && Valid() && initialized && bufferEnd == (if buffer.used == 0 then 1 else buffer.used)
      && bufferPosition == bufferOffset <= bufferEnd
    }

    /** One character of the generated code. The position moves unless the machine stops. */
    method ExecOne()
      requires Running() && bufferPosition < bufferEnd && !cs.Error?
      modifies this`message, this`bodyParsing, this`events, this`bufferOffset, this`markerStart, this`markerLength
      modifies this`cs, this`bufferPosition
      ensures Running()
      ensures Machine() == Step(old(Machine()), buffer.value[old(bufferPosition)])
      ensures bufferPosition == old(bufferPosition) + if cs.Error? then 0 else 1
    {
      hide ClassOf, Transition, Step, Build, InBounds, BodyStates;
      ghost var before, c := Machine(), buffer.value[bufferPosition];
      TerminatorStops(cs);
      var edge := Transition(cs, ClassOf(buffer.value[bufferPosition]));
      if edge.to.Error? {
        StepInBody(before, c);
        StepIs(before, c);
        cs := Error;
      } else {
        Advance(edge, c);
        bufferPosition := bufferPosition + 1;
      }
    }

    /** The generated code's loop over the characters. */
    method Exec()
      requires Running()
      modifies this`message, this`bodyParsing, this`events, this`bufferOffset, this`markerStart, this`markerLength
      modifies this`cs, this`bufferPosition
      ensures Running() && (bufferPosition == bufferEnd || cs.Error?)
      ensures Machine() == Run(old(Machine()), buffer.value[..][old(bufferPosition)..bufferEnd])
    {
      hide ClassOf, Transition, Step, Build, InBounds, BodyStates, Run;
      ghost var v, end := buffer.value[..], bufferEnd;
      ghost var goal := Run(Machine(), v[bufferPosition..end]);
      while bufferPosition < bufferEnd && !cs.Error?
        invariant Running() && bufferEnd == end <= |v| && buffer.value[..] == v
        invariant Run(Machine(), v[bufferPosition..end]) == goal
        decreases bufferEnd - bufferPosition, !cs.Error?
      {
        RunOne(Machine(), v, bufferPosition, end);
        ExecOne();
      }
      RunStops(Machine(), v, bufferPosition, end);
    }

    /** message_fsm_parse. */
    method MessageFsmParse()
      requires Valid() && !bodyParsing
      modifies this`message, this`bodyParsing, this`events, this`bufferOffset, this`markerStart, this`markerLength
      modifies this`cs, this`bufferPosition, this`bufferEnd, this`initialized, this`eof
      ensures Running() && AllRead()
      ensures Machine() == Run(old(Machine()), old(Unread()))
    {
      hide ClassOf, Transition, Step, Build, InBounds, BodyStates, Run;
      var first := FirstRun();
      if first {
        cs := ValueStart;
      }
      Update();
      assert buffer.value[..][bufferPosition..bufferEnd] == Unread();
      Exec();
    }

    /** simple_body_parser: when the input has ended, what is unparsed is the body. */
    method SimpleBodyParse()
      requires Valid() && bodyParsing
      modifies this`bufferPosition, this`bufferEnd, this`eof, this`body
      ensures Valid()
      ensures body == if finished then Some(BodyText(Machine(), buffer.Contents())) else old(body)
    {
      hide Build, InBounds, BodyStates;
      Update();
      if eof == Some(bufferEnd) {
        var nunparsed := bufferEnd - bufferPosition;
        body := Some(buffer.value[markerStart..markerStart + nunparsed]);
        assert buffer.Contents()[markerStart..markerStart + nunparsed] == body.value;
        bufferPosition := bufferEnd;
      }
    }

    /** RagelParser_parse. */
    method Parse()
      requires Valid()
      modifies this
      ensures Valid() && AllRead() && buffer == old(buffer) && finished == old(finished)
      ensures Machine() == Feed(old(Machine()), old(Unread()))
      ensures body == if bodyParsing && finished && (old(bodyParsing) || bufferOffset < buffer.used)
                      then Some(BodyText(Machine(), buffer.Contents())) else old(body)
    {
      hide ClassOf, Transition, Step, Build, InBounds, BodyStates, Run, BodyText;
      if bodyParsing {
        SimpleBodyParse();
      } else {
        MessageFsmParse();
        if bodyParsing {
          initialized := false;
          if bufferEnd - bufferPosition > 0 {
            SimpleBodyParse();
          }
        }
      }
    }

    /** RagelParser_finish. */
    method Finish()
      requires Valid()
      modifies this
      ensures Valid() && AllRead() && buffer == old(buffer) && finished
      ensures Machine() == Feed(old(Machine()), old(Unread()))
      ensures body == if bodyParsing && (old(bodyParsing) || bufferOffset < buffer.used)
                      then Some(BodyText(Machine(), buffer.Contents())) else old(body)
    {
      hide Build, BodyStates, Feed;
      finished := true;
      Parse();
    }

    /** Nothing is left for the next run but what arrives before it. */
    ghost predicate AllRead()
      reads this, buffer
    {
      !bodyParsing && !Machine().cs.Error? ==> bufferOffset == buffer.used
    }

    /** The buffer has grown by what was read, possibly moving: what was parsed stays valid. */
    twostate predicate Grown(more: Text)
      reads this, buffer, buffer.value
    {
      && buffer == old(buffer) && Machine() == old(Machine()) && message == old(message)
      && eof == old(eof) && finished == old(finished)
      && buffer.Valid() && old(buffer.Valid()) && buffer.Contents() == old(buffer.Contents()) + more
    }

    twostate lemma StaysValid(more: Text)
      requires old(Valid()) && Grown(more)
      ensures Valid()
      ensures old(AllRead()) ==> Feed(Machine(), Unread()) == Feed(Machine(), Seen(old(buffer.used), more))
    {
      hide Build, BodyStates, Run;
      BuildStays(events, old(buffer.Contents()), more);
      if !bodyParsing && Machine().cs.Error? {
        ErrorStays(Machine(), Unread());
        ErrorStays(Machine(), Seen(old(buffer.used), more));
      }
    }

    /** Characters arrive and are parsed. */
    method Receive(chunk: Text)
      requires Valid() && AllRead()
      modifies this, buffer, buffer.value
      ensures Valid() && AllRead() && buffer == old(buffer)
      ensures buffer.value == old(buffer.value) || fresh(buffer.value)
      ensures Machine() == Feed(old(Machine()), Seen(old(buffer.used), chunk))
      ensures buffer.Contents() == old(buffer.Contents()) + chunk
      ensures finished == old(finished) && (!finished ==> body == old(body))
    {
      hide Feed, Build, BodyStates, BodyText;
      label before:
      buffer.Cat(chunk);
      StaysValid@before(chunk);
      Parse();
    }

    /** Chunks arrive at a new parser, and each is parsed: events and message are those of one pass over the whole text
        if and only if the first parse has something to look at or the text has no value. */
    method ReceiveAll(chunks: seq<Text>)
      requires Valid() && Machine() == START && buffer.used == 0
      modifies this, buffer, buffer.value
      ensures Valid() && AllRead() && buffer == old(buffer)
      ensures buffer.value == old(buffer.value) || fresh(buffer.value)
      ensures buffer.Contents() == Flatten(chunks) && Machine() == FeedAll(START, 0, chunks)
      ensures finished == old(finished) && (!finished ==> body == old(body))
      ensures events == Run(START, Flatten(chunks)).events && message == Read(READER, Flatten(chunks)).message
              <==> StartsFull(chunks) || !EndsAValue(Flatten(chunks))
    {
      hide Feed, Build, BodyStates, Run, Read, EndsAValue, StartsFull;
      StreamingParse(chunks);
      StreamedMessage(chunks);
      assert buffer.Contents() == [];
      ghost var all := Flatten(chunks);
      var i := 0;
      while i < |chunks|
        invariant i <= |chunks| && Valid() && AllRead() && buffer == old(buffer)
        invariant buffer.value == old(buffer.value) || fresh(buffer.value)
        invariant buffer.Contents() + Flatten(chunks[i..]) == all
        invariant FeedAll(Machine(), buffer.used, chunks[i..]) == FeedAll(START, 0, chunks)
        invariant finished == old(finished) && (!finished ==> body == old(body))
      {
        assert chunks[i..][0] == chunks[i] && chunks[i..][1..] == chunks[i + 1..];
        Regroup(buffer.Contents(), chunks[i], Flatten(chunks[i + 1..]));
        Receive(chunks[i]);
        i := i + 1;
      }
    }

    /** One round of RagelParser_fdparse: the end of input has what is there parsed once more. */
    method ReadAndParse(fd: Descriptor, size: nat) returns (nread: int)
      requires Valid() && AllRead() && Tracks(Machine(), buffer.Contents())
      modifies this, buffer, buffer.value, fd
      ensures Valid() && AllRead() && buffer == old(buffer)
      ensures buffer.value == old(buffer.value) || fresh(buffer.value)
      ensures nread > 0 ==>
                && buffer.used == old(buffer.used) + nread && Tracks(Machine(), buffer.Contents())
                && buffer.Contents() + Delivers(fd.script, size)
                   == old(buffer.Contents()) + Delivers(old(fd.script), size)
                && |Ready(fd.script)| < |Ready(old(fd.script))| && Ends(fd.script, size) == Ends(old(fd.script), size)
      ensures nread <= 0 ==> Delivers(old(fd.script), size) == [] && buffer.Contents() == old(buffer.Contents())
      ensures nread == 0 ==>
                && Ends(old(fd.script), size)
                && Tracks(Machine(), Seen(0, buffer.Contents()))
                && (old(bodyParsing) ==> body == Some(BodyText(Machine(), buffer.Contents())))
                && bodyParsing == old(bodyParsing)
      ensures nread < 0 ==> nread == -1 && !Ends(old(fd.script), size) && Tracks(Machine(), buffer.Contents())
    {
      hide Feed, Build, BodyStates, Tracks, Ready, Stop, Flowed, Moved, BodyText;
      ghost var text := buffer.Contents();
      label before:
      ghost var more;
      nread, more := buffer.ReadReady(fd, size);
      StaysValid@before(more);
      if nread < 0 {
        return;
      }
      Regroup(text, more, Ready(fd.script));
      TracksOn(Machine(), text, Seen(|text|, more));
      if nread == 0 {
        assert more == [] && text + Seen(|text|, more) == Seen(0, buffer.Contents());
        NothingNew(Machine(), |text|);
        Finish();
      } else {
        Parse();
      }
    }

    /** RagelParser_fdparse's loop. */
    method ParseUntilEnd(fd: Descriptor, chunkSize: nat) returns (total: int)
      requires Valid() && AllRead() && buffer.used == 0 && Tracks(Machine(), [])
      modifies this, buffer, buffer.value, fd
      ensures Valid() && buffer == old(buffer)
      ensures var text, ends := Delivers(old(fd.script), chunkSize), Ends(old(fd.script), chunkSize);
              && total == (if ends then |text| else -1)
              && buffer.Contents() == text
              && Tracks(Machine(), if ends then Seen(0, text) else text)
              && (ends && bodyParsing ==> body == Some(BodyText(Machine(), text)))
    {
      hide Feed, Build, BodyStates, Tracks, AllRead, Machine, Delivers, Ends, BodyText;
      ghost var all, ends := Delivers(fd.script, chunkSize), Ends(fd.script, chunkSize);
      assert buffer.Contents() == [];
      total := 0;
      while true
        invariant Valid() && AllRead() && buffer == old(buffer)
        invariant buffer.value == old(buffer.value) || fresh(buffer.value)
        invariant buffer.Valid() && Tracks(Machine(), buffer.Contents()) && total == buffer.used
        invariant buffer.Contents() + Delivers(fd.script, chunkSize) == all && Ends(fd.script, chunkSize) == ends
        decreases |Ready(fd.script)|
      {
        var nread := ReadAndParse(fd, chunkSize);
        total := total + nread;
        if nread <= 0 {
          if nread < 0 {
            total := nread;
          }
          break;
        }
      }
    }

    /** RagelParser_fdparse on a parser that has parsed nothing yet. */
    method FdParse(fd: Descriptor, chunkSize: nat) returns (total: int)
      requires Valid() && Machine() == START
      modifies this, fd
      ensures Valid() && fresh(buffer)
      ensures var read, ends := Delivers(old(fd.script), chunkSize), Ends(old(fd.script), chunkSize);
              var text := if ends then Seen(0, read) else read;
              && total == (if ends then |read| else -1)
              && SameEnvelope(Machine(), Run(START, text)) && message == Read(READER, text).message
              && (ends && bodyParsing ==> body == Some(BodyText(Machine(), read)))
    {
      hide Feed, Build, Run, Read, BodyText, Delivers, Ends;
      StartTracks(buffer.Contents());
      StartTracks([]);
      ghost var read := Delivers(fd.script, chunkSize);
      ghost var text := if Ends(fd.script, chunkSize) then Seen(0, read) else read;
      buffer := new Buffer(chunkSize);
      total := ParseUntilEnd(fd, chunkSize);
      MessageTracks(Machine(), text);
      EmptyHasNoMarkers(Machine(), buffer.Contents(), text);
    }
  }
}
