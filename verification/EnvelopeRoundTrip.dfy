/** Which messages come back when their printed envelope is parsed: exactly those that are Printable. */
module EnvelopeRoundTrip {
  import opened Bytes
  import opened Options
  import opened StringBuffer
  import opened MessageFsm
  import opened MessageBody
  import opened Message
  import opened MessagePrinter

  predicate AllGraph(v: Text) {
    forall c <- v :: Graph(ClassOf(c))
  }

  predicate AllPrint(v: Text) {
    forall c <- v :: Print(ClassOf(c))
  }

  predicate AllInline(v: Text) {
    forall c <- v :: Inline(ClassOf(c))
  }

  predicate AllNameChars(v: Text) {
    forall c <- v :: ClassOf(c).NameChar?
  }

  predicate AllTabs(v: Text) {
    forall c <- v :: ClassOf(c).Tab?
  }

  // ----- the condition -----

  /** Every value consists of graphic characters; only the first may be empty. */
  predicate GoodValues(values: seq<Text>) {
    && values != []
    && (forall v <- values :: AllGraph(v))
    && (forall i :: 1 <= i < |values| ==> values[i] != [])
  }

  /** Printable, not empty and not starting with a space; or a single space and then nothing but tabs. */
  predicate GoodHeaderValue(v: Text) {
    v != [] && if ClassOf(v[0]).Space? then AllTabs(v[1..]) else AllPrint(v)
  }

  predicate GoodHeader(h: Header) {
    h.value.Some? && h.name != [] && AllNameChars(h.name) && GoodHeaderValue(h.value.value)
  }

  predicate Printable(m: Message) {
    GoodValues(m.values) && forall h <- m.headers :: GoodHeader(h)
  }

  // ----- what every parsed message is like -----

  predicate HeaderStates(s: State) {
    s.LineStart? || s.InName? || s.AfterName? || s.AfterColon? || s.AfterSpace? || s.InHeaderValue?
  }

  predicate InlineStates(s: State) {
    s.ValueStart? || s.InValue? || s.AfterName? || s.AfterColon? || s.AfterSpace? || s.InHeaderValue?
  }

  predicate ParsedHeader(h: Header) {
    h.name != [] && AllNameChars(h.name) && (h.value.Some? ==> AllInline(h.value.value))
  }

  predicate ParsedMessage(m: Message) {
    && (forall v <- m.values :: AllInline(v))
    && (forall i :: 1 <= i < |m.values| ==> m.values[i] != [])
    && (forall h <- m.headers :: ParsedHeader(h))
  }

  predicate TokenFits(r: Reader) {
    && (InlineStates(r.cs) ==> AllInline(r.token))
    && (r.cs.InName? ==> r.token != [] && AllNameChars(r.token))
    && (r.cs.InValue? || (r.cs.ValueStart? && r.message.values != []) ==> r.token != [])
    && (HeaderStates(r.cs) || r.cs.CrSeen? || r.cs.BodyCr? || r.cs.Body? ==> r.message.values != [])
  }

  predicate ReaderInv(r: Reader) {
    ParsedMessage(r.message) && TokenFits(r)
  }

  lemma HandleKeepsParsed(m: Message, kind: EventKind, token: Text)
    requires ParsedMessage(m)
    requires kind.ProtocolValue? ==> AllInline(token) && (m.values != [] ==> token != [])
    requires kind.HeaderName? ==> token != [] && AllNameChars(token)
    requires kind.HeaderValue? ==> AllInline(token)
    ensures ParsedMessage(Handle(m, kind, token))
    ensures kind.ProtocolValue? ==> Handle(m, kind, token).values != []
    ensures m.values != [] ==> Handle(m, kind, token).values != []
  {
    hide AllInline, AllNameChars;
    if kind.HeaderValue? && m.headers != [] {
      var last := |m.headers| - 1;
      assert ParsedHeader(m.headers[last]);
      assert forall h <- m.headers[..last] :: h in m.headers;
    }
  }

  lemma StepKeepsReaderInv(r: Reader, c: byte)
    requires ReaderInv(r)
    ensures ReaderInv(ReadStep(r, c))
  {
    hide ClassOf, ParsedMessage, Handle;
    var e := Transition(r.cs, ClassOf(c));
    if !e.to.Error? && e.actions != [] && e.actions[0].Emit? {
      HandleKeepsParsed(r.message, e.actions[0].kind, r.token);
    }
  }

  lemma {:induction false} ReadKeepsInv(r: Reader, text: Text)
    requires ReaderInv(r)
    ensures ReaderInv(Read(r, text))
    decreases |text|
  {
    if text == [] {
    } else {
      StepKeepsReaderInv(r, text[0]);
      ReadKeepsInv(ReadStep(r, text[0]), text[1..]);
    }
  }

  /** Names are names and values stay on their line, whatever text is parsed. */
  lemma EveryParsedMessage(text: Text)
    ensures ParsedMessage(Read(READER, text).message)
    ensures Read(READER, text).cs.LineStart? ==> Read(READER, text).message.values != []
  {
    ReadKeepsInv(READER, text);
  }

  // ----- the protocol line -----

  /** Inside a value, graphic characters only make the token longer. */
  lemma {:induction false} ReadOn(r: Reader, v: Text)
    requires r.cs.InValue? && AllGraph(v)
    ensures Read(r, v) == r.(token := r.token + v)
    decreases |v|
  {
    hide ClassOf;
    if v == [] {
      assert r.token + v == r.token;
    } else {
      var next := ReadStep(r, v[0]);
      assert next == r.(token := r.token + [v[0]]);
      ReadOn(next, v[1..]);
      assert r.token + [v[0]] + v[1..] == r.token + v;
    }
  }

  lemma ReadValue(r: Reader, v: Text)
    requires r.cs.ValueStart? && AllGraph(v)
    ensures Read(r, v) == if v == [] then r else r.(cs := InValue, token := v)
  {
    hide ClassOf;
    if v != [] {
      ReadOn(ReadStep(r, v[0]), v[1..]);
      assert [v[0]] + v[1..] == v;
    }
  }

  /** A value and what ends it. An empty value is emitted as the token left from before. */
  lemma ReadValueAndEnd(r: Reader, v: Text, c: byte)
    requires r.cs.ValueStart? && AllGraph(v) && (c == SPACE || c == LF)
    ensures var q := Read(r, v + [c]);
            && q.cs == (if c == SPACE then ValueStart else LineStart)
            && q.message == r.message.(values := r.message.values + [if v == [] then r.token else v])
  {
    ReadValue(r, v);
    ReadSnoc(r, v, c);
    assert ClassOf(SPACE).Space? && ClassOf(LF).Lf?;
    hide ClassOf;
  }

  lemma {:induction false} NoNul(v: Text)
    requires AllInline(v)
    ensures CString(v, 0) == v
  {
    if v == [] {
    } else {
      assert Inline(ClassOf(v[0]));
      NoNul(v[1..]);
    }
  }

  lemma GraphIsInline(v: Text)
    requires AllGraph(v)
    ensures AllInline(v)
  {
    hide ClassOf;
  }

  /** The printed protocol line yields the values. */
  lemma {:induction false} ReadValueLine(r: Reader, values: seq<Text>)
    requires r.cs.ValueStart? && GoodValues(values) && (values[0] != [] || r.token == [])
    ensures var q := Read(r, ValueLine(values));
            q.cs.LineStart? && q.message == r.message.(values := r.message.values + values)
    decreases |values|
  {
    hide ClassOf, AllGraph, CString, Read;
    var v, rest := values[0], values[1..];
    GraphIsInline(v);
    NoNul(v);
    if rest == [] {
      ReadValueAndEnd(r, v, LF);
      assert values == [v];
    } else {
      ReadValueAndEnd(r, v, SPACE);
      ReadAppend(r, v + [SPACE], ValueLine(rest));
      ReadValueLine(Read(r, v + [SPACE]), rest);
      assert r.message.values + [v] + rest == r.message.values + values;
    }
  }

  // ----- counting what a protocol line emits -----

  function Blanks(v: Text): nat {
    if v == [] then 0 else (if Blank(ClassOf(v[0])) then 1 else 0) + Blanks(v[1..])
  }

  lemma {:induction false} BlanksAppend(a: Text, b: Text)
    ensures Blanks(a + b) == Blanks(a) + Blanks(b)
  {
    hide ClassOf;
    if a == [] {
      assert a + b == b;
    } else {
      assert (a + b)[1..] == a[1..] + b;
      BlanksAppend(a[1..], b);
    }
  }

  lemma {:induction false} NoBlanks(v: Text)
    requires AllInline(v)
    ensures Blanks(v) == 0 <==> AllGraph(v)
  {
    hide ClassOf;
    if v == [] {
    } else {
      NoBlanks(v[1..]);
      assert v == [v[0]] + v[1..];
    }
  }

  /** On the protocol line every blank emits a value. */
  lemma {:induction false} ReadCounts(r: Reader, v: Text)
    requires (r.cs.ValueStart? || r.cs.InValue?) && AllInline(v)
    ensures var q := Read(r, v);
            && (q.cs.ValueStart? || q.cs.InValue?)
            && |q.message.values| == |r.message.values| + Blanks(v)
    decreases |v|
  {
    hide ClassOf;
    if v == [] {
    } else {
      ReadCounts(ReadStep(r, v[0]), v[1..]);
    }
  }

  /** The values of the line without its line feed. */
  function Joined(values: seq<Text>): Text {
    if values == [] then []
    else if |values| == 1 then values[0]
    else values[0] + [SPACE] + Joined(values[1..])
  }

  function AllBlanks(values: seq<Text>): nat {
    if values == [] then 0 else Blanks(values[0]) + AllBlanks(values[1..])
  }

  lemma {:induction false} JoinedLine(values: seq<Text>)
    requires values != [] && forall v <- values :: AllInline(v)
    ensures ValueLine(values) == Joined(values) + [LF] && AllInline(Joined(values))
    ensures Blanks(Joined(values)) == |values| - 1 + AllBlanks(values)
  {
    hide ClassOf, CString, Blanks;
    NoNul(values[0]);
    if |values| == 1 {
      assert AllBlanks(values[1..]) == 0;
    } else {
      JoinedLine(values[1..]);
      SpaceIsBlank();
      BlanksAppend(values[0], [SPACE]);
      BlanksAppend(values[0] + [SPACE], Joined(values[1..]));
    }
  }

  lemma SpaceIsBlank()
    ensures Blanks([SPACE]) == 1 && AllInline([SPACE]) && ClassOf(SPACE).Space?
  {
    assert ClassOf(SPACE).Space?;
    assert Blanks([SPACE]) == 1 + Blanks([]);
  }

  lemma {:induction false} NoBlanksAnywhere(values: seq<Text>)
    requires AllBlanks(values) == 0 && forall v <- values :: AllInline(v)
    ensures forall v <- values :: AllGraph(v)
  {
    hide AllInline, AllGraph;
    if values == [] {
    } else {
      NoBlanks(values[0]);
      NoBlanksAnywhere(values[1..]);
      assert values == [values[0]] + values[1..];
    }
  }

  lemma ReadLineCounts(values: seq<Text>)
    requires values != [] && forall v <- values :: AllInline(v)
    ensures var q := Read(READER, ValueLine(values));
            q.cs.LineStart? && |q.message.values| == |values| + AllBlanks(values)
  {
    hide AllInline, AllBlanks, Blanks, Joined, ValueLine, Read;
    JoinedLine(values);
    ReadCounts(READER, Joined(values));
    ReadSnoc(READER, Joined(values), LF);
    assert ClassOf(LF).Lf?;
  }

  predicate BehindLine(s: State) {
    !s.ValueStart? && !s.InValue?
  }

  lemma StepKeepsValues(r: Reader, c: byte)
    requires BehindLine(r.cs)
    ensures BehindLine(ReadStep(r, c).cs) && ReadStep(r, c).message.values == r.message.values
  {
    hide ClassOf;
  }

  /** Behind the protocol line no value is emitted. */
  lemma {:induction false} ValuesStay(r: Reader, text: Text)
    requires BehindLine(r.cs)
    ensures Read(r, text).message.values == r.message.values
    decreases |text|
  {
    if text == [] {
    } else {
      StepKeepsValues(r, text[0]);
      ValuesStay(ReadStep(r, text[0]), text[1..]);
    }
  }

  // ----- header lines -----

  /** The token when v has been read behind the space that follows the colon; nothing if the machine has stopped.
      A space, or the first graphic character, sets the marker; a tab is counted and does not. */
  function Kept(token: Text, v: Text): Option<Text>
    decreases |v|
  {
    if v == [] then Some(token)
    else if ClassOf(v[0]).Tab? then Kept(token + [v[0]], v[1..])
    else if ClassOf(v[0]).Space? then Kept([v[0]], v[1..])
    else if AllPrint(v) then Some(v)
    else None
  }

  lemma {:induction false} KeptLength(token: Text, v: Text)
    ensures AllTabs(v) ==> Kept(token, v) == Some(token + v)
    ensures !AllTabs(v) && Kept(token, v).Some? ==> |Kept(token, v).value| <= |v|
    ensures !AllTabs(v) && Kept(token, v).Some? && ClassOf(v[0]).Tab? ==> |Kept(token, v).value| < |v|
    decreases |v|
  {
    hide ClassOf, AllPrint;
    if v == [] {
      assert token + v == token;
    } else {
      assert v == [v[0]] + v[1..];
      if ClassOf(v[0]).Tab? {
        KeptLength(token + [v[0]], v[1..]);
        assert token + [v[0]] + v[1..] == token + v;
      } else if ClassOf(v[0]).Space? {
        KeptLength([v[0]], v[1..]);
      }
    }
  }

  /** The token is the value that was printed exactly for good header values. */
  lemma KeptIsValue(v: Text)
    requires AllInline(v)
    ensures Kept([SPACE], v) == Some(v) <==> GoodHeaderValue(v)
  {
    SpaceIsBlank();
    hide ClassOf, AllPrint;
    if v != [] {
      KeptLength([SPACE], v);
      if ClassOf(v[0]).Space? {
        OnlySpace(v[0]);
        KeptLength([v[0]], v[1..]);
        assert v == [v[0]] + v[1..];
      } else if ClassOf(v[0]).Tab? {
        NotPrint(v);
      }
    }
  }

  lemma OnlySpace(c: byte)
    requires ClassOf(c).Space?
    ensures c == SPACE
  {
  }

  lemma NotPrint(v: Text)
    requires v != [] && ClassOf(v[0]).Tab?
    ensures !AllPrint(v)
  {
    assert v[0] in v;
  }

  lemma {:induction false} ReadPrint(r: Reader, v: Text)
    requires r.cs.InHeaderValue? && AllInline(v)
    ensures var q := Read(r, v);
            && q.message == r.message
            && (if AllPrint(v) then q.cs.InHeaderValue? && q.token == r.token + v else q.cs.Error?)
    decreases |v|
  {
    hide ClassOf;
    if v == [] {
      assert r.token + v == r.token;
    } else {
      var next := ReadStep(r, v[0]);
      assert v == [v[0]] + v[1..] && Inline(ClassOf(v[0]));
      if next.cs.Error? {
        ErrorReads(next, v[1..]);
      } else {
        ReadPrint(next, v[1..]);
        assert r.token + [v[0]] + v[1..] == r.token + v;
      }
    }
  }

  predicate BeforeValue(s: State) {
    s.AfterColon? || s.AfterSpace?
  }

  lemma {:induction false} ReadIsKept(r: Reader, v: Text)
    requires BeforeValue(r.cs) && AllInline(v)
    ensures var q, k := Read(r, v), Kept(r.token, v);
            && q.message == r.message
            && (k.Some? ==> (BeforeValue(q.cs) || q.cs.InHeaderValue?) && q.token == k.value)
            && (k.None? ==> q.cs.Error?)
    decreases |v|
  {
    hide ClassOf;
    if v == [] {
    } else {
      var next := ReadStep(r, v[0]);
      assert v == [v[0]] + v[1..] && Inline(ClassOf(v[0]));
      if Blank(ClassOf(v[0])) {
        ReadIsKept(next, v[1..]);
      } else {
        ReadPrint(next, v[1..]);
      }
    }
  }

  lemma {:induction false} ReadName(r: Reader, name: Text)
    requires r.cs.InName? && AllNameChars(name)
    ensures Read(r, name) == r.(token := r.token + name)
    decreases |name|
  {
    hide ClassOf;
    if name == [] {
      assert r.token + name == r.token;
    } else {
      ReadName(ReadStep(r, name[0]), name[1..]);
      assert r.token + [name[0]] + name[1..] == r.token + name;
    }
  }

  /** A printed name, colon and space. */
  lemma ReadNameAndColon(r: Reader, name: Text)
    requires r.cs.LineStart? && name != [] && AllNameChars(name)
    ensures Read(r, name + [COLON, SPACE])
            == Reader(AfterSpace, [SPACE], r.message.(headers := r.message.headers + [Header(name, None)]))
  {
    assert ClassOf(COLON).Colon? && ClassOf(SPACE).Space?;
    hide ClassOf;
    ReadName(ReadStep(r, name[0]), name[1..]);
    assert [name[0]] + name[1..] == name;
    ReadSnoc(r, name, COLON);
    ReadSnoc(r, name + [COLON], SPACE);
    assert name + [COLON] + [SPACE] == name + [COLON, SPACE];
  }

  lemma NameIsInline(name: Text)
    requires AllNameChars(name)
    ensures AllInline(name)
  {
    hide ClassOf;
  }

  lemma LineFeedEndsValue(r: Reader)
    requires BeforeValue(r.cs) || r.cs.InHeaderValue? || r.cs.Error?
    ensures var q := ReadStep(r, LF);
            if r.cs.Error? then q == r
            else q.cs.LineStart? && q.message == Handle(r.message, HeaderValue, r.token)
  {
    assert ClassOf(LF).Lf?;
    hide ClassOf, Handle;
  }

  /** A value and the line feed behind it. */
  lemma ReadValueEnd(r: Reader, v: Text)
    requires BeforeValue(r.cs) && AllInline(v)
    ensures var q, k := Read(r, v + [LF]), Kept(r.token, v);
            if k.Some? then q.cs.LineStart? && q.message == Handle(r.message, HeaderValue, k.value) else q.cs.Error?
  {
    hide ReadStep, Kept, Read, Handle, AllInline;
    ReadIsKept(r, v);
    ReadSnoc(r, v, LF);
    LineFeedEndsValue(Read(r, v));
  }

  lemma LastHeaderGetsValue(m: Message, name: Text, token: Text)
    ensures Handle(m.(headers := m.headers + [Header(name, None)]), HeaderValue, token)
            == m.(headers := m.headers + [Header(name, Some(token))])
  {
    var hs := m.headers + [Header(name, None)];
    assert hs[..|hs| - 1] == m.headers;
  }

  /** A printed header line: the header's value is the token kept, or the machine has stopped. */
  lemma ReadLine(r: Reader, name: Text, v: Text)
    requires r.cs.LineStart? && name != [] && AllNameChars(name) && AllInline(v)
    ensures var q, k := Read(r, Line(name, v)), Kept([SPACE], v);
            if k.Some? then
              q.cs.LineStart? && q.message == r.message.(headers := r.message.headers + [Header(name, k)])
            else q.cs.Error?
  {
    hide ClassOf, Kept, Read, Handle, CString, AllInline, AllNameChars;
    NameIsInline(name);
    NoNul(name);
    NoNul(v);
    ReadNameAndColon(r, name);
    ReadAppend(r, name + [COLON, SPACE], v + [LF]);
    assert Line(name, v) == name + [COLON, SPACE] + (v + [LF]);
    ReadValueEnd(Read(r, name + [COLON, SPACE]), v);
    if Kept([SPACE], v).Some? {
      LastHeaderGetsValue(r.message, name, Kept([SPACE], v).value);
    }
  }

  /** Printed header lines yield the headers. */
  lemma {:induction false} ReadHeaderLines(r: Reader, hs: seq<Header>)
    requires r.cs.LineStart? && forall h <- hs :: GoodHeader(h)
    ensures HaveValues(hs)
    ensures var q := Read(r, HeaderLines(hs));
            q.cs.LineStart? && q.message == r.message.(headers := r.message.headers + hs)
    decreases |hs|
  {
    hide Line, Read, Kept, GoodHeaderValue, AllNameChars;
    if hs == [] {
      assert Read(r, []) == r by {
        ReadNothing(r);
      }
      assert r.message.headers + hs == r.message.headers;
    } else {
      var h, rest := hs[0], hs[1..];
      assert GoodHeader(h);
      GoodIsInline(h.value.value);
      KeptIsValue(h.value.value);
      ReadLine(r, h.name, h.value.value);
      ReadHeaderLines(Read(r, Line(h.name, h.value.value)), rest);
      ReadAppend(r, Line(h.name, h.value.value), HeaderLines(rest));
      assert r.message.headers + [h] + rest == r.message.headers + hs;
    }
  }

  lemma ReadNothing(r: Reader)
    ensures Read(r, []) == r
  {
  }

  lemma GoodIsInline(v: Text)
    requires GoodHeaderValue(v)
    ensures AllInline(v)
  {
    hide ClassOf;
    assert v == [v[0]] + v[1..];
  }

  // ----- headers once read stay -----

  predicate Begins(r: Reader, headers: seq<Header>) {
    && headers <= r.message.headers
    && (r.cs.AfterName? || BeforeValue(r.cs) || r.cs.InHeaderValue? ==> |headers| < |r.message.headers|)
  }

  lemma StepKeepsHeaders(r: Reader, c: byte, headers: seq<Header>)
    requires Begins(r, headers) && BehindLine(r.cs)
    ensures Begins(ReadStep(r, c), headers) && BehindLine(ReadStep(r, c).cs)
  {
    hide ClassOf;
  }

  lemma {:induction false} HeadersStay(r: Reader, text: Text, headers: seq<Header>)
    requires Begins(r, headers) && BehindLine(r.cs)
    ensures headers <= Read(r, text).message.headers
    decreases |text|
  {
    if text == [] {
    } else {
      StepKeepsHeaders(r, text[0], headers);
      HeadersStay(ReadStep(r, text[0]), text[1..], headers);
    }
  }

  /** Headers that come back are good. */
  lemma {:induction false} OnlyGoodHeaders(r: Reader, hs: seq<Header>)
    requires r.cs.LineStart? && HaveValues(hs) && forall h <- hs :: ParsedHeader(h)
    requires Read(r, HeaderLines(hs)).cs.LineStart?
    requires Read(r, HeaderLines(hs)).message.headers == r.message.headers + hs
    ensures forall h <- hs :: GoodHeader(h)
    decreases |hs|
  {
    hide Line, Read, Kept, GoodHeaderValue, AllNameChars, AllInline;
    if hs == [] {
    } else {
      var h, rest := hs[0], hs[1..];
      assert ParsedHeader(h) && h.value.Some?;
      var q := Read(r, Line(h.name, h.value.value));
      ReadAppend(r, Line(h.name, h.value.value), HeaderLines(rest));
      ReadLine(r, h.name, h.value.value);
      if q.cs.Error? {
        ErrorReads(q, HeaderLines(rest));
      } else {
        HeadersStay(q, HeaderLines(rest), q.message.headers);
        assert q.message.headers[|r.message.headers|] == (r.message.headers + hs)[|r.message.headers|] == h;
        KeptIsValue(h.value.value);
        assert r.message.headers + [h] + rest == r.message.headers + hs;
        OnlyGoodHeaders(q, rest);
        assert hs == [h] + rest;
      }
    }
  }

  // ----- the round trip -----

  /** The printed envelope is accepted and yields the message. */
  predicate ComesBack(m: Message)
    requires HaveValues(m.headers)
  {
    Read(READER, Envelope(m)).cs.LineStart? && Read(READER, Envelope(m)).message == m
  }

  lemma GoodComesBack(m: Message)
    requires HaveValues(m.headers) && |m.values| <= UINT32_MAX && Printable(m)
    ensures ComesBack(m)
  {
    hide Read, ValueLine, HeaderLines, GoodValues, GoodHeader;
    assert m.values[..|m.values|] == m.values;
    assert m.values != [] by {
      ValuesExist(m.values);
    }
    ReadValueLine(READER, m.values);
    ReadHeaderLines(Read(READER, ValueLine(m.values)), m.headers);
    ReadAppend(READER, ValueLine(m.values), HeaderLines(m.headers));
    assert [] + m.values == m.values && [] + m.headers == m.headers;
  }

  lemma ValuesExist(values: seq<Text>)
    requires GoodValues(values)
    ensures values != []
  {
  }

  /** Values that come back are good. */
  lemma OnlyGoodValues(m: Message)
    requires HaveValues(m.headers) && |m.values| <= UINT32_MAX && ComesBack(m)
    ensures GoodValues(m.values) && forall h <- m.headers :: ParsedHeader(h)
  {
    hide Read, ValueLine, HeaderLines, AllInline, AllGraph, AllBlanks;
    assert m.values[..|m.values|] == m.values;
    EveryParsedMessage(Envelope(m));
    ReadLineCounts(m.values);
    ReadAppend(READER, ValueLine(m.values), HeaderLines(m.headers));
    ValuesStay(Read(READER, ValueLine(m.values)), HeaderLines(m.headers));
    NoBlanksAnywhere(m.values);
  }

  lemma OnlyPrintable(m: Message)
    requires HaveValues(m.headers) && |m.values| <= UINT32_MAX && ComesBack(m)
    ensures Printable(m)
  {
    hide Read, ValueLine, HeaderLines, GoodValues, GoodHeader, ParsedHeader;
    assert m.values[..|m.values|] == m.values;
    OnlyGoodValues(m);
    ValuesExist(m.values);
    ReadValueLine(READER, m.values);
    ReadAppend(READER, ValueLine(m.values), HeaderLines(m.headers));
    assert [] + m.headers == m.headers;
    OnlyGoodHeaders(Read(READER, ValueLine(m.values)), m.headers);
  }

  /** Printing a message and parsing its envelope yields the message if and only if the message is Printable. */
  lemma RoundTrip(m: Message)
    requires HaveValues(m.headers) && |m.values| <= UINT32_MAX
    ensures ComesBack(m) <==> Printable(m)
  {
    hide ComesBack, Printable;
    if Printable(m) {
      GoodComesBack(m);
    }
    if ComesBack(m) {
      OnlyPrintable(m);
    }
  }

  /** An empty header value comes back as a space. */
  lemma EmptyHeaderValue(values: seq<Text>, name: Text)
    requires GoodValues(values) && |values| <= UINT32_MAX && name != [] && AllNameChars(name)
    ensures Read(READER, Envelope(Message(values, [Header(name, Some([]))]))).message
            == Message(values, [Header(name, Some([SPACE]))])
  {
    hide Read, ValueLine, Line, GoodValues, AllNameChars, AllInline;
    var hs := [Header(name, Some([]))];
    assert HeaderLines(hs) == Line(name, []) by {
      assert HeaderLines(hs) == Line(name, []) + HeaderLines([]);
    }
    assert values[..|values|] == values;
    ValuesExist(values);
    ReadValueLine(READER, values);
    ReadAppend(READER, ValueLine(values), HeaderLines(hs));
    EmptyIsInline();
    ReadLine(Read(READER, ValueLine(values)), name, []);
    assert [] + values == values;
  }

  lemma EmptyIsInline()
    ensures AllInline([])
  {
  }

  // ----- with a body, in chunks -----

  lemma {:induction false} BodyIsNotRead(r: Reader, text: Text)
    requires r.cs.Body? || r.cs.Error?
    ensures Read(r, text).message == r.message
    decreases |text|
  {
    hide ClassOf;
    if text == [] {
    } else {
      BodyIsNotRead(ReadStep(r, text[0]), text[1..]);
    }
  }

  lemma BlankLineStartsBody(r: Reader)
    requires r.cs.LineStart?
    ensures ReadStep(r, LF).cs.Body? && ReadStep(r, LF).message == r.message
  {
    assert ClassOf(LF).Lf?;
  }

  /** A blank line and any body behind the envelope do not change the message. */
  lemma EnvelopeThenBody(m: Message, body: Option<Text>)
    requires HaveValues(m.headers) && |m.values| <= UINT32_MAX && Printable(m)
    ensures Read(READER, Printed(m, body)).message == m
  {
    hide Read, Envelope, Printable;
    GoodComesBack(m);
    var r := Read(READER, Envelope(m));
    var rest := if body.Some? then body.value else [];
    ReadAppend(READER, Envelope(m) + [LF], rest);
    ReadSnoc(READER, Envelope(m), LF);
    BlankLineStartsBody(r);
    BodyIsNotRead(ReadStep(r, LF), rest);
  }

  /** A printed message that arrives in chunks builds the message that was printed, with or without a blank line and a
      body behind it, if and only if the first parse has something to look at. */
  lemma PrintedThenStreamed(m: Message, body: Option<Text>, chunks: seq<Text>)
    requires HaveValues(m.headers) && |m.values| <= UINT32_MAX && Printable(m)
    requires Flatten(chunks) == Envelope(m) || Flatten(chunks) == Printed(m, body)
    ensures Build(FeedAll(START, 0, chunks).events, Flatten(chunks)) == m <==> StartsFull(chunks)
  {
    hide Read, Envelope, Printed, Printable, Build, FeedAll, Flatten, StartsFull, EndsAValue;
    StreamedMessage(chunks);
    GoodComesBack(m);
    EnvelopeThenBody(m, body);
    FirstValue(READER, Flatten(chunks));
    assert m != EMPTY by {
      PrintableHasValues(m);
    }
  }

  lemma PrintableHasValues(m: Message)
    requires Printable(m)
    ensures m.values != []
  {
  }

  /** The body of a printed message is recorded as it was printed, however it arrives. */
  lemma PrintedBody(m: Message, body: Option<Text>, chunks: seq<Text>)
    requires HaveValues(m.headers) && |m.values| <= UINT32_MAX && Printable(m)
    requires Flatten(chunks) == Printed(m, body) && StartsFull(chunks)
    ensures var p := FeedAll(START, 0, chunks);
            p.inBody && BodyText(p, Flatten(chunks)) == if body.Some? then body.value else []
  {
    hide Read, Run, Envelope, Printable, FeedAll, Flatten, StartsFull;
    GoodComesBack(m);
    RunSimulates(Envelope(m));
    BodyBehindLineFeed(Envelope(m), if body.Some? then body.value else [], chunks);
  }
}
