/** Which texts are envelopes, and of which messages: a description line by line, on the bytes themselves, that knows
    nothing of the character machine; and the proof that the machine accepts exactly these texts and builds exactly
    these messages.
 */
module EnvelopeGrammar {
  import opened Bytes
  import opened Options
  import opened MessageFsm
  import opened Message
  import opened MessagePrinter
  import RoundTrip = EnvelopeRoundTrip

  // ----- characters -----

  predicate IsBlank(c: byte) {
    c == 0x20 || c == 0x09
  }

  predicate IsGraph(c: byte) {
    0x21 <= c <= 0x7E
  }

  /** Digits, letters, '-' and '_'. */
  predicate IsNameChar(c: byte) {
    0x30 <= c <= 0x39 || 0x41 <= c <= 0x5A || 0x61 <= c <= 0x7A || c == 0x2D || c == 0x5F
  }

  predicate OnLine(v: Text) {
    forall c <- v :: IsGraph(c) || IsBlank(c)
  }

  predicate Printing(v: Text) {
    forall c <- v :: 0x20 <= c <= 0x7E
  }

  // ----- lines -----

  /** The number of characters before the first line feed. */
  function LineLength(text: Text): (n: nat)
    requires 0x0A in text
    ensures n < |text| && text[n] == 0x0A && 0x0A !in text[..n]
  {
    if text[0] == 0x0A then 0 else 1 + LineLength(text[1..])
  }

  /** A line without the carriage return that may stand before its line feed. */
  function Content(line: Text): Text {
    if line != [] && line[|line| - 1] == 0x0D then line[..|line| - 1] else line
  }

  // ----- the protocol line -----

  /** Where the last word of the line starts; 0 if there is none. */
  function LastWord(line: Text): (n: nat)
    ensures n <= |line|
  {
    if line == [] then 0
    else
      var front, last := line[..|line| - 1], line[|line| - 1];
      if IsGraph(last) && (front == [] || !IsGraph(front[|front| - 1])) then |front| else LastWord(front)
  }

  /** The values ended by the blanks of the line: every blank ends one, which starts with the last word before it. */
  function EndedByBlanks(line: Text): seq<Text> {
    if line == [] then []
    else
      var front := line[..|line| - 1];
      EndedByBlanks(front) + if IsBlank(line[|line| - 1]) then [front[LastWord(front)..]] else []
  }

  /** The end of the line ends one more value. */
  function ValuesOf(line: Text): seq<Text> {
    EndedByBlanks(line) + [line[LastWord(line)..]]
  }

  // ----- header lines -----

  /** The characters at the start that satisfy p, as many as there are. */
  function Front(v: Text, p: byte -> bool): Text {
    if v == [] || !p(v[0]) then [] else [v[0]] + Front(v[1..], p)
  }

  /** The characters behind them. */
  function Behind(v: Text, p: byte -> bool): Text {
    if v == [] || !p(v[0]) then v else Behind(v[1..], p)
  }

  function LastSpace(v: Text): (n: nat)
    requires 0x20 in v
    ensures n < |v| && v[n] == 0x20 && forall i :: n < i < |v| ==> v[i] != 0x20
  {
    if v[|v| - 1] == 0x20 then |v| - 1 else LastSpace(v[..|v| - 1])
  }

  /** What is taken for the value of a header line that ends with this tail behind its colon: the printable part of the
      tail; if that is empty, the tail from its last space on; if it has none, the whole line. */
  function ValueOf(line: Text, tail: Text): Text {
    var value := Behind(tail, IsBlank);
    if value != [] then value
    else if 0x20 in tail then tail[LastSpace(tail)..]
    else line
  }

  /** A name, blanks, a colon, blanks and printable characters. */
  function HeaderOf(line: Text): Option<Header> {
    var name, rest := Front(line, IsNameChar), Behind(Behind(line, IsNameChar), IsBlank);
    if name == [] || rest == [] || rest[0] != 0x3A then None
    else if Printing(Behind(rest[1..], IsBlank)) then Some(Header(name, Some(ValueOf(line, rest[1..]))))
    else None
  }

  // ----- envelopes -----

  function HeadersOf(text: Text): Option<seq<Header>>
    decreases |text|
  {
    if text == [] then Some([])
    else if 0x0A !in text then None
    else
      var n := LineLength(text);
      var first, rest := HeaderOf(Content(text[..n])), HeadersOf(text[n + 1..]);
      if first.Some? && rest.Some? then Some([first.value] + rest.value) else None
  }

  /** A protocol line and header lines, each ended by a line feed or a carriage return and a line feed. */
  function EnvelopeOf(text: Text): Option<Message> {
    if 0x0A !in text then None
    else
      var n := LineLength(text);
      var line, headers := Content(text[..n]), HeadersOf(text[n + 1..]);
      if OnLine(line) && headers.Some? then Some(Message(ValuesOf(line), headers.value)) else None
  }

  // ----- the machine's classes -----

  lemma Chars(c: byte)
    ensures Blank(ClassOf(c)) <==> IsBlank(c)
    ensures Graph(ClassOf(c)) <==> IsGraph(c)
    ensures Print(ClassOf(c)) <==> 0x20 <= c <= 0x7E
    ensures ClassOf(c).NameChar? <==> IsNameChar(c)
    ensures ClassOf(c).Space? <==> c == 0x20
    ensures ClassOf(c).Cr? <==> c == 0x0D
    ensures ClassOf(c).Lf? <==> c == 0x0A
    ensures ClassOf(c).Colon? <==> c == 0x3A
  {
  }

  lemma Apart(c: byte)
    ensures c == 0x0A || c == 0x0D ==> !IsBlank(c) && !IsGraph(c) && !IsNameChar(c) && c != 0x3A
    ensures IsNameChar(c) || c == 0x3A ==> IsGraph(c) && !IsBlank(c)
    ensures IsGraph(c) ==> !IsBlank(c)
    ensures 0x20 <= c <= 0x7E <==> IsGraph(c) || c == 0x20
  {
  }

  // ----- the protocol line is read -----

  lemma LineSnoc(line: Text, c: byte)
    ensures (line + [c])[..|line|] == line && (line + [c])[|line|] == c
    ensures OnLine(line + [c]) <==> OnLine(line) && (IsGraph(c) || IsBlank(c))
  {
  }

  /** The reader behind a part of the protocol line. */
  predicate AtValue(r: Reader, line: Text) {
    && r.cs == (if line != [] && IsGraph(line[|line| - 1]) then InValue else ValueStart)
    && r.token == line[LastWord(line)..]
    && r.message == Message(EndedByBlanks(line), [])
  }

  lemma ValueStep(r: Reader, line: Text, c: byte)
    requires AtValue(r, line) && (IsGraph(c) || IsBlank(c))
    ensures AtValue(ReadStep(r, c), line + [c])
  {
    LineSnoc(line, c);
    Chars(c);
    Apart(c);
    hide ClassOf, IsGraph, IsBlank;
    var all := line + [c];
    assert all[LastWord(line)..] == line[LastWord(line)..] + [c];
  }

  lemma {:induction false} ReadProtocol(line: Text)
    requires OnLine(line)
    ensures AtValue(Read(READER, line), line)
  {
    hide ReadStep, Read, IsGraph, IsBlank;
    if line == [] {
      RoundTrip.ReadNothing(READER);
    } else {
      var front, c := line[..|line| - 1], line[|line| - 1];
      assert line == front + [c];
      LineSnoc(front, c);
      ReadProtocol(front);
      ReadSnoc(READER, front, c);
      ValueStep(Read(READER, front), front, c);
    }
  }

  predicate EndsWithCr(v: Text) {
    v != [] && v[|v| - 1] == 0x0D
  }

  /** A part of the protocol line with a character that does not belong there. */
  lemma {:induction false} StopProtocol(line: Text)
    requires !OnLine(line) && 0x0A !in line
    ensures var q := Read(READER, line); q.cs.Error? || (q.cs.CrSeen? && EndsWithCr(line))
  {
    hide ReadStep, Read, IsGraph, IsBlank;
    var front, c := line[..|line| - 1], line[|line| - 1];
    assert line == front + [c] && c in line;
    LineSnoc(front, c);
    ReadSnoc(READER, front, c);
    if OnLine(front) {
      ReadProtocol(front);
      BadChar(Read(READER, front), c);
    } else {
      StopProtocol(front);
      AfterCr(Read(READER, front), c);
    }
  }

  lemma BadChar(r: Reader, c: byte)
    requires Pending(r.cs) && !IsGraph(c) && !IsBlank(c) && c != 0x0A
    ensures ReadStep(r, c).cs == if c == 0x0D then CrSeen else Error
  {
    Chars(c);
    Apart(c);
    hide ClassOf, IsGraph, IsBlank, Handle;
  }

  lemma AfterCr(r: Reader, c: byte)
    requires (r.cs.Error? || r.cs.CrSeen?) && c != 0x0A
    ensures ReadStep(r, c).cs.Error?
  {
    Chars(c);
    hide ClassOf;
  }

  // ----- the end of a line -----

  /** The line may end here. */
  predicate Pending(s: State) {
    s.ValueStart? || s.InValue? || s.AfterColon? || s.AfterSpace? || s.InHeaderValue?
  }

  /** No line starts any more. */
  predicate Stuck(s: State) {
    s.Error? || s.Body? || s.BodyCr?
  }

  /** The message when the line ends here. */
  function Ended(r: Reader): Message {
    Handle(r.message, if r.cs.ValueStart? || r.cs.InValue? then ProtocolValue else HeaderValue, r.token)
  }

  lemma EndOfLine(r: Reader)
    requires Pending(r.cs)
    ensures var q := ReadStep(r, 0x0A); q.cs.LineStart? && q.message == Ended(r)
    ensures var q := ReadStep(ReadStep(r, 0x0D), 0x0A); q.cs.LineStart? && q.message == Ended(r)
  {
    Chars(0x0A);
    Chars(0x0D);
    hide ClassOf, Handle;
  }

  lemma NoEndOfLine(r: Reader)
    requires r.cs.LineStart? || r.cs.InName? || r.cs.AfterName? || Stuck(r.cs)
    ensures Stuck(ReadStep(r, 0x0A).cs) && Stuck(ReadStep(ReadStep(r, 0x0D), 0x0A).cs)
  {
    Chars(0x0A);
    Chars(0x0D);
    hide ClassOf, Handle;
  }

  lemma NoSecondCr(r: Reader)
    requires r.cs.CrSeen?
    ensures Stuck(ReadStep(ReadStep(r, 0x0D), 0x0A).cs)
  {
    Chars(0x0D);
    hide ClassOf, Handle;
  }

  /** The line cannot end here. */
  predicate Hopeless(r: Reader, content: Text) {
    r.cs.LineStart? || r.cs.InName? || r.cs.AfterName? || Stuck(r.cs) || (r.cs.CrSeen? && EndsWithCr(content))
  }

  lemma EndLine(r: Reader, line: Text)
    ensures var q, e := Read(r, Content(line)), Read(r, line + [0x0A]);
            && (Pending(q.cs) ==> e.cs.LineStart? && e.message == Ended(q))
            && (Hopeless(q, Content(line)) ==> Stuck(e.cs))
  {
    hide ReadStep, Read, Handle;
    var content := Content(line);
    var q := Read(r, content);
    ReadSnoc(r, line, 0x0A);
    if line != content {
      assert line == content + [0x0D];
      ReadSnoc(r, content, 0x0D);
    }
    if Pending(q.cs) {
      EndOfLine(q);
    } else if Hopeless(q, content) {
      if q.cs.CrSeen? {
        NoSecondCr(q);
      } else {
        NoEndOfLine(q);
      }
    }
  }

  lemma ContentIsPart(line: Text)
    requires 0x0A !in line
    ensures 0x0A !in Content(line)
  {
  }

  /** The protocol line. */
  lemma ReadProtocolLine(line: Text)
    requires 0x0A !in line
    ensures var q := Read(READER, line + [0x0A]);
            if OnLine(Content(line)) then q.cs.LineStart? && q.message == Message(ValuesOf(Content(line)), [])
            else Stuck(q.cs)
  {
    hide ReadStep, Read, OnLine, Content;
    var content := Content(line);
    ContentIsPart(line);
    EndLine(READER, line);
    if OnLine(content) {
      ReadProtocol(content);
    } else {
      StopProtocol(content);
    }
  }

  // ----- a header line is read -----

  lemma ClassesOfText(v: Text)
    ensures OnLine(v) <==> RoundTrip.AllInline(v)
    ensures Printing(v) <==> RoundTrip.AllPrint(v)
    ensures (forall c <- v :: IsNameChar(c)) <==> RoundTrip.AllNameChars(v)
  {
    hide ClassOf, IsGraph, IsBlank, IsNameChar;
    forall c | c in v
      ensures Inline(ClassOf(c)) <==> IsGraph(c) || IsBlank(c)
      ensures Print(ClassOf(c)) <==> 0x20 <= c <= 0x7E
      ensures ClassOf(c).NameChar? <==> IsNameChar(c)
    {
      Chars(c);
      Apart(c);
    }
  }

  lemma {:induction false} StuckStays(r: Reader, text: Text)
    requires Stuck(r.cs)
    ensures Stuck(Read(r, text).cs)
    decreases |text|
  {
    hide ClassOf;
    if text != [] {
      StuckStays(ReadStep(r, text[0]), text[1..]);
    }
  }

  /** Blanks behind a name. */
  lemma {:induction false} ReadBlanks(r: Reader, blanks: Text)
    requires r.cs.InName? || r.cs.AfterName?
    requires forall c <- blanks :: IsBlank(c)
    ensures Read(r, blanks)
            == if blanks == [] then r
               else Reader(AfterName, r.token + blanks,
                           if r.cs.InName? then Handle(r.message, HeaderName, r.token) else r.message)
    decreases |blanks|
  {
    hide ClassOf, IsBlank, IsGraph, Handle;
    if blanks != [] {
      Chars(blanks[0]);
      Apart(blanks[0]);
      var next := ReadStep(r, blanks[0]);
      assert next == Reader(AfterName, r.token + [blanks[0]],
                            if r.cs.InName? then Handle(r.message, HeaderName, r.token) else r.message);
      ReadBlanks(next, blanks[1..]);
      assert r.token + [blanks[0]] + blanks[1..] == r.token + blanks;
    }
  }

  /** The tail with a character that does not belong there. */
  lemma {:induction false} StopTail(r: Reader, tail: Text)
    requires RoundTrip.BeforeValue(r.cs) && !OnLine(tail) && 0x0A !in tail
    ensures var q := Read(r, tail); q.cs.Error? || (q.cs.CrSeen? && EndsWithCr(tail))
    decreases |tail|
  {
    hide ReadStep, Read, IsGraph, IsBlank, RoundTrip.Kept;
    var front, c := tail[..|tail| - 1], tail[|tail| - 1];
    assert tail == front + [c] && c in tail;
    LineSnoc(front, c);
    ReadSnoc(r, front, c);
    var q := Read(r, front);
    if OnLine(front) {
      ClassesOfText(front);
      RoundTrip.ReadIsKept(r, front);
      if q.cs.Error? {
        AfterCr(q, c);
      } else {
        BadChar(q, c);
      }
    } else {
      StopTail(r, front);
      AfterCr(q, c);
    }
  }

  lemma LastSpaceBehind(c: byte, v: Text)
    requires c == 0x20 || 0x20 in v
    ensures 0x20 in [c] + v && LastSpace([c] + v) == if 0x20 in v then LastSpace(v) + 1 else 0
  {
    var all := [c] + v;
    assert c == all[0] && forall i :: 0 <= i < |v| ==> v[i] == all[i + 1];
    if 0x20 in v {
      assert all[LastSpace(v) + 1] == 0x20;
    }
  }

  lemma BlankBefore(line: Text, c: byte, v: Text)
    requires IsBlank(c)
    ensures Behind([c] + v, IsBlank) == Behind(v, IsBlank)
    ensures ValueOf(line, [c] + v)
            == if c == 0x20 && Behind(v, IsBlank) == [] && 0x20 !in v then [c] + v else ValueOf(line, v)
  {
    hide LastSpace, IsBlank;
    assert ([c] + v)[1..] == v;
    if c == 0x20 || 0x20 in v {
      LastSpaceBehind(c, v);
    }
  }

  lemma KeptBlank(token: Text, c: byte, v: Text)
    requires IsBlank(c)
    ensures RoundTrip.Kept(token, [c] + v) == RoundTrip.Kept(if c == 0x20 then [c] else token + [c], v)
  {
    Chars(c);
    hide ClassOf, IsGraph;
    assert ([c] + v)[1..] == v;
  }

  lemma KeptGraph(token: Text, v: Text)
    requires v != [] && IsGraph(v[0])
    ensures RoundTrip.Kept(token, v) == if Printing(v) then Some(v) else None
  {
    Chars(v[0]);
    Apart(v[0]);
    ClassesOfText(v);
    hide ClassOf, IsGraph, IsBlank, Printing;
  }

  /** The token kept behind the colon. */
  lemma {:induction false} KeptIs(token: Text, tail: Text)
    requires OnLine(tail)
    ensures RoundTrip.Kept(token, tail)
            == if !Printing(Behind(tail, IsBlank)) then None
               else Some(ValueOf(token + tail, tail))
    decreases |tail|
  {
    hide RoundTrip.Kept, Printing, IsBlank, IsGraph, ValueOf;
    if tail == [] {
      KeptNothing(token);
    } else {
      var c, v := tail[0], tail[1..];
      assert tail == [c] + v;
      Apart(c);
      if IsBlank(c) {
        KeptBlank(token, c, v);
        var next := if c == 0x20 then [c] else token + [c];
        KeptIs(next, v);
        BlankBefore(token + tail, c, v);
        ValueWithout(next + v, token + tail, v);
        assert token + [c] + v == token + tail;
      } else {
        KeptGraph(token, tail);
        ValueOfGraph(token + tail, tail);
      }
    }
  }

  lemma KeptNothing(token: Text)
    ensures RoundTrip.Kept(token, []) == Some(token) == Some(ValueOf(token + [], [])) && Printing([])
  {
    assert token + [] == token;
  }

  lemma ValueOfGraph(line: Text, v: Text)
    requires v != [] && !IsBlank(v[0])
    ensures Behind(v, IsBlank) == v && ValueOf(line, v) == v
  {
  }

  /** The line matters only if nothing else is there. */
  lemma ValueWithout(line: Text, other: Text, v: Text)
    ensures if Behind(v, IsBlank) == [] && 0x20 !in v then ValueOf(line, v) == line
            else ValueOf(line, v) == ValueOf(other, v)
  {
  }

  lemma {:induction false} Split(v: Text, p: byte -> bool)
    ensures v == Front(v, p) + Behind(v, p) && forall c <- Front(v, p) :: p(c)
    ensures Behind(v, p) != [] ==> !p(Behind(v, p)[0])
    ensures Front(v, p) == [] ==> Behind(v, p) == v
  {
    if v != [] && p(v[0]) {
      Split(v[1..], p);
    }
  }

  lemma NotPrinting(tail: Text)
    requires !OnLine(tail)
    ensures !Printing(Behind(tail, IsBlank))
  {
    var c :| c in tail && !IsGraph(c) && !IsBlank(c);
    Split(tail, IsBlank);
    assert c in Behind(tail, IsBlank);
    Apart(c);
  }

  /** What is behind the colon. */
  lemma ReadTail(r: Reader, tail: Text)
    requires RoundTrip.BeforeValue(r.cs) && 0x0A !in tail
    ensures var q := Read(r, tail);
            if Printing(Behind(tail, IsBlank)) then
              && (RoundTrip.BeforeValue(q.cs) || q.cs.InHeaderValue?)
              && q.message == r.message && q.token == ValueOf(r.token + tail, tail)
            else q.cs.Error? || (q.cs.CrSeen? && EndsWithCr(tail))
  {
    hide Read, OnLine, Printing, RoundTrip.Kept, ValueOf, RoundTrip.AllInline;
    if OnLine(tail) {
      ClassesOfText(tail);
      RoundTrip.ReadIsKept(r, tail);
      KeptIs(r.token, tail);
    } else {
      StopTail(r, tail);
      NotPrinting(tail);
    }
  }

  lemma FirstOfName(r: Reader, c: byte)
    requires r.cs.LineStart?
    ensures if IsNameChar(c) then ReadStep(r, c) == Reader(InName, [c], r.message) else Stuck(ReadStep(r, c).cs)
  {
    Chars(c);
    hide ClassOf, IsNameChar;
  }

  lemma ReadWholeName(r: Reader, name: Text)
    requires r.cs.LineStart? && name != [] && forall c <- name :: IsNameChar(c)
    ensures Read(r, name) == Reader(InName, name, r.message)
  {
    hide IsNameChar, ReadStep;
    FirstOfName(r, name[0]);
    ClassesOfText(name);
    assert name == [name[0]] + name[1..];
    RoundTrip.ReadName(ReadStep(r, name[0]), name[1..]);
  }

  /** The character behind the name and its blanks. */
  lemma BehindName(r: Reader, c: byte)
    requires (r.cs.InName? && !IsNameChar(c)) || r.cs.AfterName?
    requires !IsBlank(c)
    ensures ReadStep(r, c)
            == if c != 0x3A then r.(cs := Error)
               else Reader(AfterColon, r.token + [c],
                           if r.cs.InName? then Handle(r.message, HeaderName, r.token) else r.message)
  {
    Chars(c);
    Apart(c);
    hide ClassOf, IsNameChar, IsBlank, IsGraph, Handle;
  }

  /** The reader behind a name and blanks. */
  function AfterBlanks(name: Text, blanks: Text, m: Message): Reader {
    if blanks == [] then Reader(InName, name, m)
    else Reader(AfterName, name + blanks, m.(headers := m.headers + [Header(name, None)]))
  }

  lemma ReadNameAndBlanks(r: Reader, name: Text, blanks: Text)
    requires r.cs.LineStart? && name != [] && forall c <- name :: IsNameChar(c)
    requires forall c <- blanks :: IsBlank(c)
    ensures Read(r, name + blanks) == AfterBlanks(name, blanks, r.message)
  {
    hide IsNameChar, IsBlank, Read;
    ReadWholeName(r, name);
    ReadAppend(r, name, blanks);
    ReadBlanks(Reader(InName, name, r.message), blanks);
  }

  lemma ReadToColon(r: Reader, name: Text, blanks: Text)
    requires r.cs.LineStart? && name != [] && forall c <- name :: IsNameChar(c)
    requires forall c <- blanks :: IsBlank(c)
    ensures Read(r, name + blanks + [0x3A])
            == Reader(AfterColon, name + blanks + [0x3A],
                      r.message.(headers := r.message.headers + [Header(name, None)]))
  {
    hide IsNameChar, IsBlank, Read, ReadStep;
    ReadNameAndBlanks(r, name, blanks);
    ReadSnoc(r, name + blanks, 0x3A);
    assert !IsNameChar(0x3A) && !IsBlank(0x3A) by {
      ColonIsApart();
    }
    BehindName(AfterBlanks(name, blanks, r.message), 0x3A);
    assert name + [] == name;
  }

  lemma ColonIsApart()
    ensures !IsNameChar(0x3A) && !IsBlank(0x3A)
  {
  }

  /** Names and blanks, by what they consist of. */
  predicate NameAndBlanks(name: Text, blanks: Text) {
    name != [] && (forall c <- name :: IsNameChar(c)) && forall c <- blanks :: IsBlank(c)
  }

  /** A line that has no colon behind its name. */
  lemma NoColon(r: Reader, name: Text, blanks: Text, rest: Text)
    requires r.cs.LineStart? && NameAndBlanks(name, blanks)
    requires rest != [] ==> rest[0] != 0x3A && !IsBlank(rest[0]) && (blanks == [] ==> !IsNameChar(rest[0]))
    ensures var q := Read(r, name + blanks + rest); q.cs.InName? || q.cs.AfterName? || Stuck(q.cs)
  {
    hide IsNameChar, IsBlank, Read, ReadStep;
    var front := name + blanks;
    ReadNameAndBlanks(r, name, blanks);
    if rest == [] {
      assert front + rest == front;
    } else {
      assert front + rest == front + [rest[0]] + rest[1..];
      ReadSnoc(r, front, rest[0]);
      BehindName(AfterBlanks(name, blanks, r.message), rest[0]);
      ReadAppend(r, front + [rest[0]], rest[1..]);
      StuckStays(Read(r, front + [rest[0]]), rest[1..]);
    }
  }

  /** A line that has one. */
  lemma WithColon(r: Reader, name: Text, blanks: Text, tail: Text)
    requires r.cs.LineStart? && NameAndBlanks(name, blanks) && 0x0A !in tail
    ensures var line := name + blanks + [0x3A] + tail;
            var q := Read(r, line);
            if Printing(Behind(tail, IsBlank)) then
              && Pending(q.cs)
              && Ended(q) == r.message.(headers := r.message.headers + [Header(name, Some(ValueOf(line, tail)))])
            else Hopeless(q, line)
  {
    hide IsNameChar, IsBlank, Read, ReadStep, Printing, ValueOf, Behind, Handle;
    var front := name + blanks + [0x3A];
    ReadToColon(r, name, blanks);
    ReadAppend(r, front, tail);
    ReadTail(Read(r, front), tail);
    RoundTrip.LastHeaderGetsValue(r.message, name, ValueOf(front + tail, tail));
  }

  /** What a line starts with, and what stands behind. */
  lemma LineParts(line: Text, name: Text, blanks: Text, rest: Text)
    requires var behind := Behind(line, IsNameChar);
             name == Front(line, IsNameChar) && blanks == Front(behind, IsBlank) && rest == Behind(behind, IsBlank)
    ensures line == name + blanks + rest
    ensures name != [] ==> NameAndBlanks(name, blanks)
    ensures name == [] && line != [] ==> !IsNameChar(line[0])
    ensures rest != [] ==> !IsBlank(rest[0]) && (blanks == [] ==> !IsNameChar(rest[0]))
  {
    hide IsNameChar, IsBlank, Front, Behind;
    Split(line, IsNameChar);
    Split(Behind(line, IsNameChar), IsBlank);
  }

  /** A header line. */
  lemma ReadHeader(r: Reader, line: Text)
    requires r.cs.LineStart? && 0x0A !in line
    ensures var q, h := Read(r, line), HeaderOf(line);
            && (h.Some? ==> Pending(q.cs) && Ended(q) == r.message.(headers := r.message.headers + [h.value]))
            && (h.None? ==> Hopeless(q, line))
  {
    hide IsNameChar, IsBlank, Read, ReadStep, Printing, ValueOf, Handle, NameAndBlanks, Front, Behind;
    var name, behind := Front(line, IsNameChar), Behind(line, IsNameChar);
    var blanks, rest := Front(behind, IsBlank), Behind(behind, IsBlank);
    LineParts(line, name, blanks, rest);
    if name == [] {
      NoName(r, line);
    } else if rest == [] || rest[0] != 0x3A {
      NoColon(r, name, blanks, rest);
    } else {
      assert line == name + blanks + [0x3A] + rest[1..];
      WithColon(r, name, blanks, rest[1..]);
    }
  }

  lemma NoName(r: Reader, line: Text)
    requires r.cs.LineStart? && (line != [] ==> !IsNameChar(line[0]))
    ensures var q := Read(r, line); if line == [] then q == r else Stuck(q.cs)
  {
    hide IsNameChar, ReadStep;
    if line != [] {
      FirstOfName(r, line[0]);
      StuckStays(ReadStep(r, line[0]), line[1..]);
    }
  }

  // ----- the whole text is read -----

  lemma OnlyLineFeedStarts(r: Reader, text: Text)
    requires text != [] && 0x0A !in text
    ensures !Read(r, text).cs.LineStart?
  {
    hide Read, ReadStep;
    var front, c := text[..|text| - 1], text[|text| - 1];
    assert text == front + [c] && c in text;
    ReadSnoc(r, front, c);
    NoLineStart(Read(r, front), c);
  }

  lemma NoLineStart(r: Reader, c: byte)
    requires c != 0x0A
    ensures !ReadStep(r, c).cs.LineStart?
  {
    Chars(c);
    hide ClassOf, Handle;
  }

  /** The lines of a text one after the other. */
  lemma FirstLine(text: Text)
    requires 0x0A in text
    ensures var n := LineLength(text); text == text[..n] + [0x0A] + text[n + 1..]
  {
  }

  lemma {:induction false} ReadHeaders(r: Reader, text: Text)
    requires r.cs.LineStart?
    ensures var q, hs := Read(r, text), HeadersOf(text);
            && (q.cs.LineStart? <==> hs.Some?)
            && (hs.Some? ==> q.message == r.message.(headers := r.message.headers + hs.value))
    decreases |text|
  {
    hide Read, ReadStep, HeaderOf, LineLength, Content;
    if text == [] {
      RoundTrip.ReadNothing(r);
      assert r.message.headers + [] == r.message.headers;
    } else if 0x0A !in text {
      OnlyLineFeedStarts(r, text);
    } else {
      var n := LineLength(text);
      var line, rest := text[..n], text[n + 1..];
      var next := Read(r, line + [0x0A]);
      FirstLine(text);
      ReadAppend(r, line + [0x0A], rest);
      ContentIsPart(line);
      ReadHeader(r, Content(line));
      EndLine(r, line);
      if HeaderOf(Content(line)).Some? {
        ReadHeaders(next, rest);
        AppendedHeaders(r.message.headers, HeaderOf(Content(line)).value, HeadersOf(rest));
      } else {
        StuckStays(next, rest);
      }
    }
  }

  lemma AppendedHeaders(hs: seq<Header>, h: Header, rest: Option<seq<Header>>)
    ensures rest.Some? ==> hs + [h] + rest.value == hs + ([h] + rest.value)
  {
  }

  /** For every text: the machine reads it to the end of an envelope if and only if it is one by the description above,
      and the message is then the one described. */
  lemma EnvelopesExactly(text: Text)
    ensures var q, m := Read(READER, text), EnvelopeOf(text);
            && (q.cs.LineStart? <==> m.Some?)
            && (m.Some? ==> q.message == m.value)
  {
    hide Read, ReadStep, LineLength, Content, OnLine, ValuesOf, HeadersOf;
    if text == [] {
      RoundTrip.ReadNothing(READER);
    } else if 0x0A !in text {
      OnlyLineFeedStarts(READER, text);
    } else {
      var n := LineLength(text);
      var line, rest := text[..n], text[n + 1..];
      var next := Read(READER, line + [0x0A]);
      FirstLine(text);
      ReadAppend(READER, line + [0x0A], rest);
      ReadProtocolLine(line);
      if OnLine(Content(line)) {
        ReadHeaders(next, rest);
      } else {
        StuckStays(next, rest);
      }
    }
  }

  // ----- the body's separator and chunks -----

  lemma StepToBody(r: Reader, c: byte)
    ensures ReadStep(r, c).cs.Body? <==> c == 0x0A && (r.cs.LineStart? || r.cs.BodyCr?)
    ensures ReadStep(r, c).cs.BodyCr? <==> c == 0x0D && r.cs.LineStart?
    ensures ReadStep(r, c).cs.Body? || ReadStep(r, c).cs.BodyCr? ==> ReadStep(r, c).message == r.message
  {
    Chars(c);
    hide ClassOf;
  }

  /** The body starts exactly behind an envelope and a line feed, or an envelope, a carriage return and a line feed. */
  lemma BodyStartsExactly(text: Text)
    ensures Read(READER, text).cs.Body?
            <==> exists e :: EnvelopeOf(e).Some? && (text == e + [0x0A] || text == e + [0x0D, 0x0A])
  {
    hide Read, ReadStep, EnvelopeOf;
    if Read(READER, text).cs.Body? {
      RoundTrip.ReadNothing(READER);
      var front, c := text[..|text| - 1], text[|text| - 1];
      assert text == front + [c];
      ReadSnoc(READER, front, c);
      StepToBody(Read(READER, front), c);
      if Read(READER, front).cs.LineStart? {
        EnvelopesExactly(front);
        assert text == front + [0x0A];
      } else {
        var e, d := front[..|front| - 1], front[|front| - 1];
        assert front == e + [d];
        ReadSnoc(READER, e, d);
        StepToBody(Read(READER, e), d);
        EnvelopesExactly(e);
        assert text == e + [0x0D, 0x0A];
      }
    }
    forall e | EnvelopeOf(e).Some? && (text == e + [0x0A] || text == e + [0x0D, 0x0A])
      ensures Read(READER, text).cs.Body?
    {
      BodyBehind(e);
    }
  }

  lemma BodyBehind(e: Text)
    requires EnvelopeOf(e).Some?
    ensures Read(READER, e + [0x0A]).cs.Body? && Read(READER, e + [0x0D, 0x0A]).cs.Body?
  {
    hide Read, ReadStep, EnvelopeOf;
    EnvelopesExactly(e);
    ReadSnoc(READER, e, 0x0A);
    ReadSnoc(READER, e, 0x0D);
    assert e + [0x0D] + [0x0A] == e + [0x0D, 0x0A];
    ReadSnoc(READER, e + [0x0D], 0x0A);
    StepToBody(Read(READER, e), 0x0A);
    StepToBody(Read(READER, e), 0x0D);
    StepToBody(Read(READER, e + [0x0D]), 0x0A);
  }

  lemma ClosedByBody(p: Machine)
    requires BodyStates(p) && p.cs.LineStart?
    ensures !p.inBody
  {
  }

  /** In chunks, the first of which is not empty: the envelopes accepted are the same, and so are their messages. */
  lemma EnvelopesInChunks(chunks: seq<Text>)
    requires StartsFull(chunks)
    ensures var p, m := FeedAll(START, 0, chunks), EnvelopeOf(Flatten(chunks));
            && (p.cs.LineStart? && !p.inBody <==> m.Some?)
            && (m.Some? ==> Build(p.events, Flatten(chunks)) == m.value)
  {
    hide FeedAll, Run, Read, EnvelopeOf, Flatten, StartsFull, EndsAValue, MarkersInBounds, Build, BodyStates;
    var text := Flatten(chunks);
    EnvelopesExactly(text);
    StreamedMessage(chunks);
    StreamingParse(chunks);
    RunSimulates(text);
    if Run(START, text).cs.LineStart? {
      ClosedByBody(Run(START, text));
    }
  }

  // ----- printed messages -----

  /** A printed envelope is the description of the message if and only if the message is Printable. */
  lemma PrintedEnvelope(m: Message)
    requires HaveValues(m.headers) && |m.values| <= UINT32_MAX
    ensures EnvelopeOf(Envelope(m)) == Some(m) <==> RoundTrip.Printable(m)
  {
    hide Read, EnvelopeOf, Envelope, RoundTrip.Printable;
    RoundTrip.RoundTrip(m);
    EnvelopesExactly(Envelope(m));
  }

  /** "VERIFY", "/foo/bar", "Header1", "value1", "Header2" and "value2". */
  const VERIFY: Text := [0x56, 0x45, 0x52, 0x49, 0x46, 0x59]
  const PATH: Text := [0x2f, 0x66, 0x6f, 0x6f, 0x2f, 0x62, 0x61, 0x72]
  const HEADER1: Text := [0x48, 0x65, 0x61, 0x64, 0x65, 0x72, 0x31]
  const VALUE1: Text := [0x76, 0x61, 0x6c, 0x75, 0x65, 0x31]
  const HEADER2: Text := [0x48, 0x65, 0x61, 0x64, 0x65, 0x72, 0x32]
  const VALUE2: Text := [0x76, 0x61, 0x6c, 0x75, 0x65, 0x32]

  predicate Word(v: Text) {
    v != [] && forall c <- v :: IsGraph(c)
  }

  lemma Words()
    ensures Word(VERIFY) && Word(PATH) && Word(VALUE1) && Word(VALUE2) && Word(HEADER1) && Word(HEADER2)
    ensures (forall c <- HEADER1 :: IsNameChar(c)) && forall c <- HEADER2 :: IsNameChar(c)
  {
  }

  lemma WordIsValue(v: Text)
    requires Word(v)
    ensures 0 !in v && RoundTrip.AllGraph(v) && RoundTrip.GoodHeaderValue(v)
  {
    hide ClassOf, IsGraph, IsBlank;
    forall c | c in v ensures c != 0 && Graph(ClassOf(c)) && Print(ClassOf(c)) && !ClassOf(c).Space? {
      Chars(c);
      Apart(c);
      NulIsApart();
    }
    assert v[0] in v;
  }

  lemma NulIsApart()
    ensures !IsGraph(0)
  {
  }

  lemma HeaderIsGood(name: Text, value: Text)
    requires Word(value) && name != [] && forall c <- name :: IsNameChar(c)
    ensures RoundTrip.GoodHeader(Header(name, Some(value)))
  {
    hide IsNameChar, Word, RoundTrip.GoodHeaderValue;
    WordIsValue(value);
    ClassesOfText(name);
  }

  lemma MessageIsPrintable(v: Text, w: Text, h: Header, i: Header)
    requires Word(v) && Word(w) && RoundTrip.GoodHeader(h) && RoundTrip.GoodHeader(i)
    ensures RoundTrip.Printable(Message([v, w], [h, i]))
  {
    hide RoundTrip.GoodHeader, RoundTrip.AllGraph;
    WordIsValue(v);
    WordIsValue(w);
  }

  /** The message of the repository's own test, umtp/test_message.c. */
  lemma RepositoryMessage()
    ensures EnvelopeOf(VERIFY + [0x20] + PATH + [0x0A]
                       + (HEADER1 + [0x3A, 0x20] + VALUE1 + [0x0A] + (HEADER2 + [0x3A, 0x20] + VALUE2 + [0x0A])))
            == Some(Message([VERIFY, PATH], [Header(HEADER1, Some(VALUE1)), Header(HEADER2, Some(VALUE2))]))
  {
    hide *;
    Words();
    TextOfTwo(VERIFY, PATH, HEADER1, VALUE1, HEADER2, VALUE2);
  }

  /** Words for values and names. */
  lemma TextOfTwo(v: Text, w: Text, name: Text, value: Text, other: Text, another: Text)
    requires Word(v) && Word(w) && Word(name) && Word(value) && Word(other) && Word(another)
    requires (forall c <- name :: IsNameChar(c)) && forall c <- other :: IsNameChar(c)
    ensures EnvelopeOf(v + [0x20] + w + [0x0A]
                       + (name + [0x3A, 0x20] + value + [0x0A] + (other + [0x3A, 0x20] + another + [0x0A])))
            == Some(Message([v, w], [Header(name, Some(value)), Header(other, Some(another))]))
  {
    hide IsNameChar, EnvelopeOf, ValueLine, HeaderLines, RoundTrip.Printable, RoundTrip.GoodHeader, Word;
    var h, i := Header(name, Some(value)), Header(other, Some(another));
    WordIsValue(v);
    WordIsValue(w);
    WordIsValue(name);
    WordIsValue(value);
    WordIsValue(other);
    WordIsValue(another);
    WordsAreNotEmpty(name, other);
    HeaderIsGood(name, value);
    HeaderIsGood(other, another);
    MessageIsPrintable(v, w, h, i);
    TwoValues(v, w);
    TwoHeaders(h, i);
    assert [v, w][..2] == [v, w];
    PrintedEnvelope(Message([v, w], [h, i]));
  }

  lemma WordsAreNotEmpty(name: Text, other: Text)
    requires Word(name) && Word(other)
    ensures name != [] && other != []
  {
  }
}
