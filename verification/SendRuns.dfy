/** One event loop and any number of producers that share a connection's response queue
    (socket/connection_worker.c), as a transition system. A producer queues its response in one step and notifies the
    loop in another; the loop looks for a response in one step and writes, or turns its watcher off, in another.
 */
module SendRuns {
  import opened Bytes
  import opened Options
  import opened SendSteps

  type Pid = nat

  /** Where the event loop is. */
  datatype Loop =
    | Polling       // waits for the next event
    | AsyncFired    // took the notification, has not turned the watcher on yet
    | SawEmpty      // found no response, has not turned the watcher off yet
    | Writing       // has a response, has not written yet

  /** midway: the producers that have queued a response and not notified the loop yet.
      accepted: every response queued so far. */
  datatype State = State(sending: Sending, loop: Loop, midway: set<Pid>, accepted: seq<Resp>)

  const INITIAL := State(Sending([], None, false, false, [], []), Polling, {}, [])

  datatype Step =
    | QueueResponse(pid: Pid, resp: Resp)
    | SendNotification(pid: Pid)
    | FireAsync
    | TurnOn
    | GetResponse
    | Write(n: int)
    | TurnOff

  predicate Enabled(s: State, step: Step) {
    match step
    case QueueResponse(p, _) => p !in s.midway
    case SendNotification(p) => p in s.midway
    case FireAsync => s.loop.Polling? && s.sending.notified
    case TurnOn => s.loop.AsyncFired?
    case GetResponse => s.loop.Polling? && s.sending.watcher
    case Write(n) => s.loop.Writing? && s.sending.current.Some? && -1 <= n <= |Remaining(s.sending.current.value)|
    case TurnOff => s.loop.SawEmpty?
  }

  function Apply(s: State, step: Step): State
    requires Enabled(s, step)
  {
    match step
    case QueueResponse(p, r) =>
      s.(sending := Enqueue(s.sending, r), midway := s.midway + {p}, accepted := s.accepted + [r])
    case SendNotification(p) => s.(sending := Notify(s.sending), midway := s.midway - {p})
    case FireAsync => s.(sending := TakeNotification(s.sending), loop := AsyncFired)
    case TurnOn => s.(sending := EnableWatcher(s.sending), loop := Polling)
    case GetResponse =>
      var got := Fetch(s.sending);
      s.(sending := got, loop := if got.current.None? then SawEmpty else Writing)
    case Write(n) => s.(sending := WriteSome(s.sending, n), loop := Polling)
    case TurnOff => s.(sending := DisableWatcher(s.sending), loop := Polling)
  }

  predicate IsRun(s: State, steps: seq<Step>)
    decreases |steps|
  {
    steps != [] ==> Enabled(s, steps[0]) && IsRun(Apply(s, steps[0]), steps[1..])
  }

  function After(s: State, steps: seq<Step>): State
    requires IsRun(s, steps)
    decreases |steps|
  {
    if steps == [] then s else After(Apply(s, steps[0]), steps[1..])
  }

  // ----- no response is left behind -----

  predicate Outstanding(s: Sending) {
    s.queue != [] || s.current.Some?
  }

  /** Something will make the loop look at the queue again. */
  predicate WillLook(s: State) {
    || (s.sending.watcher && !s.loop.SawEmpty?)
    || s.sending.notified
    || s.loop.AsyncFired?
    || s.midway != {}
  }

  predicate WakeInv(s: State) {
    && (Outstanding(s.sending) ==> WillLook(s))
    && (s.sending.current.Some? ==> s.sending.watcher && !s.loop.SawEmpty?)
    && (s.loop.SawEmpty? ==> s.sending.watcher)
    && (s.loop.Writing? ==> s.sending.current.Some?)
  }

  lemma StepKeepsWakeInv(s: State, step: Step)
    requires WakeInv(s) && Enabled(s, step)
    ensures WakeInv(Apply(s, step))
  {
    hide Remaining;
    match step {
      case QueueResponse(p, _) => assert p in Apply(s, step).midway;
      case _ =>
    }
  }

  // ----- no byte is lost, repeated or out of order -----

  function Concat(rs: seq<Resp>): seq<byte> {
    if rs == [] then [] else rs[0].bytes + Concat(rs[1..])
  }

  function InProgress(s: Sending): seq<Resp> {
    if s.current.Some? then [s.current.value.resp] else []
  }

  /** What is on the socket of the response in progress. */
  function Begun(s: Sending): seq<byte> {
    if s.current.Some? && s.current.value.transmitted <= |s.current.value.resp.bytes|
    then s.current.value.resp.bytes[..s.current.value.transmitted]
    else []
  }

  predicate BytesInv(s: State) {
    && s.sending.finished + InProgress(s.sending) + s.sending.queue == s.accepted
    && s.sending.socket == Concat(s.sending.finished) + Begun(s.sending)
    && (s.sending.current.Some? ==> s.sending.current.value.transmitted <= |s.sending.current.value.resp.bytes|)
  }

  lemma {:induction false} ConcatAppend(a: seq<Resp>, b: seq<Resp>)
    ensures Concat(a + b) == Concat(a) + Concat(b)
  {
    if a == [] {
      assert a + b == b;
    } else {
      assert (a + b)[0] == a[0] && (a + b)[1..] == a[1..] + b;
      ConcatAppend(a[1..], b);
    }
  }

  lemma ConcatOne(a: seq<Resp>, r: Resp)
    ensures Concat(a + [r]) == Concat(a) + r.bytes
  {
    ConcatAppend(a, [r]);
    assert Concat([r]) == r.bytes + Concat([]);
  }

  lemma FetchKeepsBytesInv(s: State)
    requires BytesInv(s)
    ensures BytesInv(s.(sending := Fetch(s.sending)))
  {
    hide Concat, Remaining;
    var d := s.sending;
    if d.current.None? && d.queue != [] {
      assert d.queue == [d.queue[0]] + d.queue[1..];
    }
  }

  lemma TransmitKeepsBytesInv(s: State, n: nat)
    requires BytesInv(s) && s.sending.current.Some? && n <= |Remaining(s.sending.current.value)|
    ensures BytesInv(s.(sending := Transmit(s.sending, n)))
  {
    hide Concat;
    var p := s.sending.current.value;
    assert p.resp.bytes[..p.transmitted + n] == p.resp.bytes[..p.transmitted] + Remaining(p)[..n];
  }

  lemma FinishKeepsBytesInv(s: State)
    requires BytesInv(s)
    ensures BytesInv(s.(sending := Finish(s.sending)))
  {
    hide Concat;
    var d := s.sending;
    if d.current.Some? && Remaining(d.current.value) == [] {
      var p := d.current.value;
      assert p.resp.bytes[..p.transmitted] == p.resp.bytes;
      ConcatOne(d.finished, p.resp);
    }
  }

  lemma StepKeepsBytesInv(s: State, step: Step)
    requires BytesInv(s) && Enabled(s, step)
    ensures BytesInv(Apply(s, step))
  {
    hide Concat, Remaining, Transmit, Finish, Fetch;
    match step {
      case GetResponse => FetchKeepsBytesInv(s);
      case Write(n) =>
        var sent := if n >= 0 then s.(sending := Transmit(s.sending, n)) else s;
        if n >= 0 {
          TransmitKeepsBytesInv(s, n);
        }
        FinishKeepsBytesInv(sent);
      case _ =>
    }
  }

  lemma {:induction false} RunKeepsInv(s: State, steps: seq<Step>)
    requires WakeInv(s) && BytesInv(s) && IsRun(s, steps)
    ensures WakeInv(After(s, steps)) && BytesInv(After(s, steps))
    decreases |steps|
  {
    hide WakeInv, BytesInv, Apply, Enabled;
    if steps == [] {
    } else {
      StepKeepsWakeInv(s, steps[0]);
      StepKeepsBytesInv(s, steps[0]);
      RunKeepsInv(Apply(s, steps[0]), steps[1..]);
    }
  }

  lemma InitiallyInv()
    ensures WakeInv(INITIAL) && BytesInv(INITIAL)
  {
  }

  // ----- what holds in every run -----

  /** In every interleaving, at every point: a response that is queued or in progress will be looked at. The watcher is
      on, or a notification is pending or being handled, or some producer has yet to notify; a watcher that the loop is
      about to turn off, having seen an empty queue, is not needed for this. */
  lemma NoStrandedResponse(steps: seq<Step>)
    requires IsRun(INITIAL, steps)
    ensures var s := After(INITIAL, steps);
            && (Outstanding(s.sending) ==> WillLook(s))
            && (s.sending.current.Some? ==> s.sending.watcher)
  {
    InitiallyInv();
    RunKeepsInv(INITIAL, steps);
  }

  /** What is still to be written. */
  function Left(s: Sending): seq<byte> {
    (if s.current.Some? then Remaining(s.current.value) else []) + Concat(s.queue)
  }

  lemma Rejoin(written: seq<byte>, bytes: seq<byte>, k: nat, rest: seq<byte>)
    requires k <= |bytes|
    ensures written + bytes[..k] + (bytes[k..] + rest) == written + bytes + rest
  {
  }

  lemma SocketAndLeft(s: State)
    requires BytesInv(s)
    ensures s.sending.socket + Left(s.sending) == Concat(s.accepted)
  {
    hide Concat;
    var d := s.sending;
    ConcatAppend(d.finished + InProgress(d), d.queue);
    if d.current.Some? {
      var p := d.current.value;
      ConcatOne(d.finished, p.resp);
      Rejoin(Concat(d.finished), p.resp.bytes, p.transmitted, Concat(d.queue));
    } else {
      assert d.finished + InProgress(d) == d.finished;
    }
  }

  /** At every point the bytes on the socket, then those left, are the responses' bytes in queue order. */
  lemma BytesConserved(steps: seq<Step>)
    requires IsRun(INITIAL, steps)
    ensures var s := After(INITIAL, steps);
            s.sending.socket + Left(s.sending) == Concat(s.accepted)
  {
    hide Apply, Enabled, Left, Concat;
    InitiallyInv();
    RunKeepsInv(INITIAL, steps);
    SocketAndLeft(After(INITIAL, steps));
  }

  /** Responses finish once each and in queue order, and not before all their bytes are on the socket. */
  lemma FinishesOnceInOrder(steps: seq<Step>)
    requires IsRun(INITIAL, steps)
    ensures var s := After(INITIAL, steps).sending;
            && s.finished + InProgress(s) + s.queue == After(INITIAL, steps).accepted
            && Concat(s.finished) <= s.socket
            && (s.current.None? ==> s.socket == Concat(s.finished))
  {
    hide Apply, Enabled;
    InitiallyInv();
    RunKeepsInv(INITIAL, steps);
  }

  // ----- the loop gets everything out -----

  predicate LoopStep(step: Step) {
    !step.QueueResponse? && !step.SendNotification?
  }

  /** A write that succeeds takes at least a byte, if there is one. */
  predicate Progresses(s: State, step: Step)
    requires Enabled(s, step)
  {
    step.Write? ==> step.n > 0 || Remaining(s.sending.current.value) == []
  }

  function LoopWeight(l: Loop): nat {
    match l case Polling => 1 case AsyncFired => 8 case SawEmpty => 0 case Writing => 0
  }

  /** Bounds the steps the loop can still take on its own. */
  function Work(s: State): nat {
    var d := s.sending;
    (if d.notified then 10 else 0) + LoopWeight(s.loop) + (if d.watcher then 4 else 0)
    + 3 * (|Left(d)| + 2 * |d.queue| + if d.current.Some? then 1 else 0)
  }

  lemma FetchLeft(d: Sending)
    ensures Left(Fetch(d)) == Left(d)
  {
    if d.current.None? && d.queue != [] {
      assert Concat(d.queue) == d.queue[0].bytes + Concat(d.queue[1..]);
    }
  }

  lemma WriteLeft(d: Sending, n: int)
    requires d.current.Some? && n <= |Remaining(d.current.value)| && (n > 0 || Remaining(d.current.value) == [])
    ensures |Left(WriteSome(d, n))| + (if WriteSome(d, n).current.Some? then 1 else 0) <= |Left(d)|
    ensures WriteSome(d, n).queue == d.queue
    ensures WriteSome(d, n).notified == d.notified && WriteSome(d, n).watcher == d.watcher
  {
    hide Concat;
  }

  lemma LoopStepWorks(s: State, step: Step)
    requires WakeInv(s) && Enabled(s, step) && LoopStep(step) && Progresses(s, step)
    ensures Work(Apply(s, step)) < Work(s)
  {
    hide Concat, WriteSome, Remaining, Fetch;
    match step {
      case GetResponse =>
        hide Left;
        FetchLeft(s.sending);
        FetchTakesOne(s.sending);
      case Write(n) =>
        hide Left;
        WriteLeft(s.sending, n);
      case _ =>
    }
  }

  lemma FetchTakesOne(d: Sending)
    ensures var f := Fetch(d);
            && f.notified == d.notified && f.watcher == d.watcher
            && 2 * |f.queue| + (if f.current.Some? then 1 else 0) <= 2 * |d.queue| + if d.current.Some? then 1 else 0
  {
  }

  predicate LoopAlone(s: State, steps: seq<Step>)
    requires IsRun(s, steps)
    decreases |steps|
  {
    steps != [] ==>
      LoopStep(steps[0]) && Progresses(s, steps[0]) && LoopAlone(Apply(s, steps[0]), steps[1..])
  }

  lemma {:induction false} LoopRunWorks(s: State, steps: seq<Step>)
    requires WakeInv(s) && IsRun(s, steps) && LoopAlone(s, steps)
    ensures |steps| + Work(After(s, steps)) <= Work(s)
    ensures After(s, steps).midway == s.midway && After(s, steps).accepted == s.accepted
    decreases |steps|
  {
    if steps == [] {
    } else {
      hide WakeInv, Work, Progresses, Enabled;
      StepKeepsWakeInv(s, steps[0]);
      LoopStepWorks(s, steps[0]);
      LoopRunWorks(Apply(s, steps[0]), steps[1..]);
    }
  }

  /** The loop has nothing to do. */
  ghost predicate Stopped(s: State) {
    forall step: Step :: LoopStep(step) ==> !Enabled(s, step)
  }

  lemma StoppedHasNothingLeft(s: State)
    requires WakeInv(s) && s.midway == {}
    ensures Stopped(s) ==> !Outstanding(s.sending)
  {
    if Stopped(s) {
      assert !Enabled(s, FireAsync) && !Enabled(s, TurnOn) && !Enabled(s, GetResponse) && !Enabled(s, TurnOff);
      assert !Enabled(s, Write(-1));
    }
  }

  /** A step that the loop can take, with a write that takes all that remains. */
  function NextStep(s: State): Step
    requires WakeInv(s)
  {
    match s.loop
    case Polling => if s.sending.notified then FireAsync else GetResponse
    case AsyncFired => TurnOn
    case SawEmpty => TurnOff
    case Writing => Write(|Remaining(s.sending.current.value)|)
  }

  /** The loop has stopped exactly if it waits without a watcher or a notification; otherwise it has a step that makes
      progress. */
  lemma StopsOnlyWhenIdle(s: State)
    requires WakeInv(s)
    ensures Stopped(s) <==> s.loop.Polling? && !s.sending.notified && !s.sending.watcher
    ensures !Stopped(s) ==> LoopStep(NextStep(s)) && Enabled(s, NextStep(s)) && Progresses(s, NextStep(s))
  {
    if s.loop.Polling? && !s.sending.notified && !s.sending.watcher {
    } else {
      assert LoopStep(NextStep(s)) && Enabled(s, NextStep(s));
    }
  }

  /** So there is a run of the loop alone to where it has stopped. */
  lemma LoopCanStop(s: State) returns (steps: seq<Step>)
    requires WakeInv(s)
    ensures IsRun(s, steps) && LoopAlone(s, steps) && Stopped(After(s, steps))
    decreases Work(s)
  {
    hide WakeInv, Work, Stopped, Progresses, Enabled, LoopStep;
    StopsOnlyWhenIdle(s);
    if Stopped(s) {
      steps := [];
    } else {
      var step := NextStep(s);
      LoopStepWorks(s, step);
      StepKeepsWakeInv(s, step);
      var rest := LoopCanStop(Apply(s, step));
      steps := [step] + rest;
      assert steps[1..] == rest;
    }
  }

  /** From every reachable state in which no producer is between its two steps, the loop by itself stops after a
      bounded number of steps; when it has stopped every response has finished and every byte is on the socket. */
  lemma LoopDeliversEverything(steps: seq<Step>, more: seq<Step>)
    requires IsRun(INITIAL, steps) && After(INITIAL, steps).midway == {}
    requires IsRun(After(INITIAL, steps), more) && LoopAlone(After(INITIAL, steps), more)
    ensures var s, t := After(INITIAL, steps), After(After(INITIAL, steps), more);
            && |more| <= Work(s)
            && (Stopped(t) ==> t.sending.finished == s.accepted && t.sending.socket == Concat(s.accepted))
  {
    hide Apply, Enabled, Progresses, Work, WakeInv, Concat;
    var s, t := After(INITIAL, steps), After(After(INITIAL, steps), more);
    InitiallyInv();
    RunKeepsInv(INITIAL, steps);
    LoopRunWorks(s, more);
    RunKeepsInv(s, more);
    StoppedHasNothingLeft(t);
  }

  /** And from every such state there is such a run. */
  lemma EverythingCanBeDelivered(steps: seq<Step>) returns (more: seq<Step>)
    requires IsRun(INITIAL, steps) && After(INITIAL, steps).midway == {}
    ensures var s := After(INITIAL, steps);
            && IsRun(s, more) && LoopAlone(s, more)
            && After(s, more).sending.finished == s.accepted && After(s, more).sending.socket == Concat(s.accepted)
  {
    hide Apply, Enabled, Progresses, Work, WakeInv, Concat, Stopped;
    InitiallyInv();
    RunKeepsInv(INITIAL, steps);
    more := LoopCanStop(After(INITIAL, steps));
    LoopDeliversEverything(steps, more);
  }
}
