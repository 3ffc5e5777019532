/** umtp/message.c: printing a message's envelope. */
module MessagePrinter {
  import opened Bytes
  import opened Options
  import opened StringBuffer
  import opened MessageFsm
  import opened Message

  /** The protocol line: values separated by single spaces. Without values there is no line. */
  function ValueLine(values: seq<Text>): Text {
    if values == [] then []
    else if |values| == 1 then CString(values[0], 0) + [LF]
    else CString(values[0], 0) + [SPACE] + ValueLine(values[1..])
  }

  function Line(name: Text, value: Text): Text {
    CString(name, 0) + [COLON, SPACE] + CString(value, 0) + [LF]
  }

  /** A header without a value cannot be printed. */
  predicate HaveValues(headers: seq<Header>) {
    forall h <- headers :: h.value.Some?
  }

  function HeaderLines(headers: seq<Header>): Text
    requires HaveValues(headers)
  {
    if headers == [] then [] else Line(headers[0].name, headers[0].value.value) + HeaderLines(headers[1..])
  }

  /** The number of values is kept in an unsigned int. */
  function Envelope(m: Message): Text
    requires HaveValues(m.headers)
  {
    ValueLine(m.values[..|m.values| % (UINT32_MAX + 1)]) + HeaderLines(m.headers)
  }

  /** Message_print_envelope, the loop over the protocol values. */
  method PrintValues(values: seq<Text>, buffer: Buffer)
    requires buffer.Valid()
    modifies buffer, buffer.value
    ensures buffer.Valid() && (buffer.value == old(buffer.value) || fresh(buffer.value))
    ensures buffer.Contents() == old(buffer.Contents()) + ValueLine(values)
  {
    var n := 0;
    ghost var goal := buffer.Contents() + ValueLine(values);
    while n < |values|
      invariant n <= |values| && buffer.Valid() && (buffer.value == old(buffer.value) || fresh(buffer.value))
      invariant buffer.Contents() + ValueLine(values[n..]) == goal
    {
      ghost var before, rest := buffer.Contents(), ValueLine(values[n + 1..]);
      assert values[n..][1..] == values[n + 1..];
      var text := CString(values[n], 0) + if n < |values| - 1 then [SPACE] else [LF];
      var printed := buffer.Print(buffer.used, text);
      assert before[..|before|] == before;
      Regroup(before, text, rest);
      n := n + 1;
    }
  }

  /** Message_print_envelope. */
  method PrintEnvelope(m: Message, buffer: Buffer)
    requires buffer.Valid() && HaveValues(m.headers)
    modifies buffer, buffer.value
    ensures buffer.Valid() && (buffer.value == old(buffer.value) || fresh(buffer.value))
    ensures buffer.Contents() == old(buffer.Contents()) + Envelope(m)
  {
    var values := |m.values| % (UINT32_MAX + 1);
    ghost var start := buffer.Contents();
    PrintValues(m.values[..values], buffer);
    var i := 0;
    ghost var goal := buffer.Contents() + HeaderLines(m.headers);
    Regroup(start, ValueLine(m.values[..values]), HeaderLines(m.headers));
    while i < |m.headers|
      invariant i <= |m.headers| && buffer.Valid() && (buffer.value == old(buffer.value) || fresh(buffer.value))
      invariant buffer.Contents() + HeaderLines(m.headers[i..]) == goal
    {
      ghost var before, rest := buffer.Contents(), HeaderLines(m.headers[i + 1..]);
      assert m.headers[i..][1..] == m.headers[i + 1..];
      var name, value := m.headers[i].name, m.headers[i].value.value;
      var text := CString(name, 0) + [COLON, SPACE] + CString(value, 0) + [LF];
      var printed := buffer.Print(buffer.used, text);
      assert before[..|before|] == before;
      Regroup(before, text, rest);
      i := i + 1;
    }
  }

  /** What Message_print prints: an envelope, a blank line and the body, if there is one. */
  function Printed(m: Message, body: Option<Text>): Text
    requires HaveValues(m.headers)
  {
    Envelope(m) + [LF] + if body.Some? then body.value else []
  }

  /** Message_print. */
  method PrintMessage(m: Message, body: Option<Text>, buffer: Buffer)
    requires buffer.Valid() && HaveValues(m.headers)
    modifies buffer, buffer.value
    ensures buffer.Valid() && (buffer.value == old(buffer.value) || fresh(buffer.value))
    ensures buffer.Contents() == old(buffer.Contents()) + Printed(m, body)
  {
    hide Envelope;
    ghost var start := buffer.Contents();
    PrintEnvelope(m, buffer);
    buffer.Cat([LF]);
    if body.Some? {
      buffer.Cat(body.value);
    }
    assert buffer.Contents() == start + Printed(m, body);
  }

  lemma {:induction false} WithoutNul(v: Text)
    requires 0 !in v
    ensures CString(v, 0) == v
  {
    if v != [] {
      WithoutNul(v[1..]);
    }
  }

  lemma TwoValues(v: Text, w: Text)
    requires 0 !in v && 0 !in w
    ensures ValueLine([v, w]) == v + [0x20] + w + [0x0A]
  {
    hide CString;
    WithoutNul(v);
    WithoutNul(w);
    assert [v, w][1..] == [w];
    assert ValueLine([w]) == w + [0x0A];
    assert v + [0x20] + (w + [0x0A]) == v + [0x20] + w + [0x0A];
  }

  lemma TwoHeaders(h: Header, i: Header)
    requires h.value.Some? && 0 !in h.name && 0 !in h.value.value
    requires i.value.Some? && 0 !in i.name && 0 !in i.value.value
    ensures HeaderLines([h, i])
            == h.name + [0x3A, 0x20] + h.value.value + [0x0A] + (i.name + [0x3A, 0x20] + i.value.value + [0x0A])
  {
    hide CString;
    WithoutNul(h.name);
    WithoutNul(h.value.value);
    WithoutNul(i.name);
    WithoutNul(i.value.value);
    assert [h, i][1..] == [i] && [i][1..] == [];
    assert HeaderLines([i]) == Line(i.name, i.value.value) + HeaderLines([]);
  }

  /** The printed text of a message with two values, two headers and a body, in ASCII. */
  lemma PrintedText(v: Text, w: Text, h: Header, i: Header, body: Text)
    requires h.value.Some? && 0 !in h.name && 0 !in h.value.value
    requires i.value.Some? && 0 !in i.name && 0 !in i.value.value
    requires 0 !in v && 0 !in w
    ensures Printed(Message([v, w], [h, i]), Some(body))
            == v + [0x20] + w + [0x0A]
               + (h.name + [0x3A, 0x20] + h.value.value + [0x0A] + (i.name + [0x3A, 0x20] + i.value.value + [0x0A]))
               + [0x0A] + body
  {
    hide ValueLine, HeaderLines;
    TwoValues(v, w);
    TwoHeaders(h, i);
    assert [v, w][..2] == [v, w];
  }
}
