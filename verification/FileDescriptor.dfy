/** The operating system's side of read(2).

    What a descriptor will deliver is a script of outcomes, chosen freely by the
    environment. A read of n bytes takes at most n bytes from the first outcome,
    so every sequence of short reads, would-block results, end-of-file results
    and failures is some script.
 */
module FileDescriptor {
  import opened Bytes

  const EWOULDBLOCK := 11

  datatype Outcome =
    | Data(bytes: seq<byte>)
    | Eof
    | Fail(errno: int)

  type Script = seq<Outcome>

  /** What the next read of n bytes delivers; an exhausted script blocks. */
  function Next(script: Script, n: nat): Outcome {
    if script == [] then Fail(EWOULDBLOCK)
    else if script[0].Data? then
      if script[0].bytes == [] then Eof
      else if |script[0].bytes| <= n then script[0]
      else Data(script[0].bytes[..n])
    else script[0]
  }

  /** What is left of the script after that read. */
  function After(script: Script, n: nat): Script {
    if script == [] then []
    else if script[0].Data? && |script[0].bytes| > n then [Data(script[0].bytes[n..])] + script[1..]
    else script[1..]
  }

  /** All bytes that arrive before the first outcome that is not data. */
  function Ready(script: Script): seq<byte> {
    if script == [] || !script[0].Data? || script[0].bytes == [] then []
    else script[0].bytes + Ready(script[1..])
  }

  /** The first outcome that is not data. */
  function Stop(script: Script): Outcome {
    if script == [] then Fail(EWOULDBLOCK)
    else if script[0].Data? then if script[0].bytes == [] then Eof else Stop(script[1..])
    else script[0]
  }

  /** A read takes bytes off the front of what is ready and nothing else. */
  lemma ReadTakesPrefix(script: Script, n: nat)
    requires n > 0
    ensures Next(script, n).Data? ==>
              && 0 < |Next(script, n).bytes| <= n
              && Ready(script) == Next(script, n).bytes + Ready(After(script, n))
              && Stop(script) == Stop(After(script, n))
    ensures !Next(script, n).Data? ==> Ready(script) == [] && Next(script, n) == Stop(script)
  {
    if script != [] && script[0].Data? && |script[0].bytes| > n {
      var d := script[0].bytes;
      var rest := After(script, n);
      assert rest[0] == Data(d[n..]) && rest[1..] == script[1..];
      assert d[..n] + (d[n..] + Ready(script[1..])) == d + Ready(script[1..]);
    }
  }

  // ----- descriptors that deliver and block in turn -----

  /** A descriptor that delivers bytes in reads of any size and may block at any point between them. */
  predicate Flowing(script: Script) {
    forall o <- script :: Flows(o)
  }

  predicate Flows(o: Outcome) {
    (o.Data? && o.bytes != []) || o == Fail(EWOULDBLOCK)
  }

  /** All bytes that will ever arrive. */
  function Arriving(script: Script): seq<byte> {
    if script == [] then []
    else (if script[0].Data? then script[0].bytes else []) + Arriving(script[1..])
  }

  /** How often it will block before the script is exhausted. */
  function Pauses(script: Script): nat {
    if script == [] then 0 else (if script[0].Data? then 0 else 1) + Pauses(script[1..])
  }

  /** These bytes were taken, the others are still to arrive, and it flows on. */
  predicate Flowed(before: Script, taken: seq<byte>, after: Script) {
    Flowing(before) ==>
      Flowing(after) && Arriving(before) == taken + Arriving(after) && Pauses(after) <= Pauses(before)
  }

  /** A step forward: bytes were taken or a pause is over, if there is anything to wait for. */
  predicate Moved(before: Script, taken: seq<byte>, after: Script) {
    Flowing(before) ==> taken != [] || Pauses(after) < Pauses(before) || Arriving(before) == []
  }

  lemma ReadFlows(script: Script, n: nat)
    requires n > 0
    ensures var taken := if Next(script, n).Data? then Next(script, n).bytes else [];
            Flowed(script, taken, After(script, n)) && Moved(script, taken, After(script, n))
    ensures Flowing(script) ==> Next(script, n).Data? || Next(script, n) == Fail(EWOULDBLOCK)
  {
    if script != [] && Flowing(script) {
      assert Flows(script[0]) && Flowing(script[1..]);
      if script[0].Data? && |script[0].bytes| > n {
        SplitFlows(script, n);
      }
    }
  }

  lemma OneMore(o: Outcome, rest: Script)
    ensures Flowing([o] + rest) <==> Flows(o) && Flowing(rest)
    ensures Arriving([o] + rest) == (if o.Data? then o.bytes else []) + Arriving(rest)
    ensures Pauses([o] + rest) == (if o.Data? then 0 else 1) + Pauses(rest)
  {
    var script := [o] + rest;
    assert script[0] == o && script[1..] == rest;
  }

  /** Only a part of the first outcome is taken. */
  lemma SplitFlows(script: Script, n: nat)
    requires n > 0 && script != [] && Flowing(script) && script[0].Data? && |script[0].bytes| > n
    ensures var after := After(script, n);
            && Flowing(after) && Pauses(after) == Pauses(script)
            && Arriving(script) == script[0].bytes[..n] + Arriving(after)
  {
    hide Arriving, Pauses, Flowing;
    var d, rest := script[0].bytes, script[1..];
    assert script == [Data(d)] + rest;
    OneMore(Data(d), rest);
    OneMore(Data(d[n..]), rest);
    assert d[..n] + (d[n..] + Arriving(rest)) == d + Arriving(rest);
  }

  lemma FlowsTransitively(a: Script, x: seq<byte>, b: Script, y: seq<byte>, c: Script)
    requires Flowed(a, x, b) && Flowed(b, y, c)
    ensures Flowed(a, x + y, c)
    ensures Moved(a, x, b) ==> Moved(a, x + y, c)
  {
    if Flowing(a) {
      assert x + (y + Arriving(c)) == x + y + Arriving(c);
    }
  }

  lemma StaysPut(script: Script)
    ensures Flowed(script, [], script)
  {
  }

  /** What is ready arrives first. */
  lemma {:induction false} ReadyArrives(script: Script)
    ensures Ready(script) <= Arriving(script)
    ensures Flowing(script) ==> Stop(script) == Fail(EWOULDBLOCK)
  {
    if script != [] {
      assert script[0] in script;
      ReadyArrives(script[1..]);
    }
  }

  class Descriptor {
    var script: Script

    constructor (script: Script)
      ensures this.script == script
    {
      this.script := script;
    }

    /** read(2): the outcome carries the bytes written to the caller's memory. */
    method Read(n: nat) returns (outcome: Outcome)
      requires n > 0
      modifies this
      ensures outcome == Next(old(script), n) && script == After(old(script), n)
    {
      outcome := Next(script, n);
      script := After(script, n);
    }
  }
}
