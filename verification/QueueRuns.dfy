/** Threads that push to and get from one active queue (list/queue.c), as a transition system. Each step is one
    critical section, one check of the active flag, or one step of waiting on the condition; any number of threads may
    take them in any order. Waking up needs no cause, so timeouts and spurious wake-ups are runs too.
 */
module QueueRuns {
  import opened LinkedList
  import opened Queue
  import opened Options

  type Tid = nat

  /** Where a thread is in Queue_push, Queue_get or Queue_get_timedwait. */
  datatype Pc =
    | Idle
    | Pushing(item: Pointer)       // saw the queue active, has not locked it yet
    | Signalling                   // has queued its item, has not signalled yet
    | FirstTry(waits: bool)        // saw the queue active, will try to get an item, and wait for one or not
    | WantsMutex                   // found nothing
    | BeforeWait                   // holds the mutex
    | Waiting                      // waits on the condition, the mutex is free
    | SecondTry                    // woke up, holds the mutex again
    | Done(code: int, data: Pointer)

  /** What happened under the write lock, in lock order. */
  datatype Event =
    | Pushed(item: Pointer)
    | Taken(tid: Tid, item: Pointer)

  /** A get that has returned. */
  datatype Call = Call(tid: Tid, code: int, data: Pointer)

  datatype State = State(
    items: seq<Pointer>,
    mutex: Option<Tid>,
    threads: map<Tid, Pc>,
    log: seq<Event>,
    calls: seq<Call>)

  const INITIAL := State([], None, map[], [], [])

  function PcOf(s: State, t: Tid): Pc {
    if t in s.threads then s.threads[t] else Idle
  }

  datatype Step =
    | StartPush(tid: Tid, item: Pointer)
    | LockAndPush(tid: Tid)
    | Signal(tid: Tid)
    | StartGet(tid: Tid, waits: bool)
    | Try(tid: Tid)
    | LockMutex(tid: Tid)
    | Wait(tid: Tid)
    | WakeUp(tid: Tid)
    | Return(tid: Tid)

  predicate Enabled(s: State, step: Step) {
    var pc := PcOf(s, step.tid);
    match step
    case StartPush(_, _) => pc.Idle?
    case LockAndPush(_) => pc.Pushing?
    case Signal(_) => pc.Signalling?
    case StartGet(_, _) => pc.Idle?
    case Try(_) => pc.FirstTry? || pc.SecondTry?
    case LockMutex(_) => pc.WantsMutex? && s.mutex.None?
    case Wait(_) => pc.BeforeWait?
    case WakeUp(_) => pc.Waiting? && s.mutex.None?
    case Return(_) => pc.Done?
  }

  function Move(s: State, t: Tid, pc: Pc): State {
    s.(threads := s.threads[t := pc])
  }

  /** One try to get an item: the section of Queue_shift, logged if it took something. */
  function TryToGet(s: State, t: Tid): State {
    var (code, rest) := ShiftSection(s.items);
    var pc := PcOf(s, t);
    var second, waits := pc.SecondTry?, pc.FirstTry? && pc.waits;
    var after := s.(items := rest,
                    log := if s.items == [] then s.log else s.log + [Taken(t, s.items[0])],
                    mutex := if second then None else s.mutex);
    if code == 1 then Move(after, t, Done(1, s.items[0]))
    else if waits then Move(after, t, WantsMutex)
    else Move(after, t, Done(0, NULL))
  }

  function Apply(s: State, step: Step): State
    requires Enabled(s, step)
  {
    var t := step.tid;
    match step
    case StartPush(_, item) => Move(s, t, Pushing(item))
    case LockAndPush(_) =>
      var item := PcOf(s, t).item;
      Move(s.(items := PushSection(s.items, item), log := s.log + [Pushed(item)]), t, Signalling)
    case Signal(_) => Move(s, t, Idle)
    case StartGet(_, waits) => Move(s, t, FirstTry(waits))
    case Try(_) => TryToGet(s, t)
    case LockMutex(_) => Move(s.(mutex := Some(t)), t, BeforeWait)
    case Wait(_) => Move(s.(mutex := None), t, Waiting)
    case WakeUp(_) => Move(s.(mutex := Some(t)), t, SecondTry)
    case Return(_) =>
      var pc := PcOf(s, t);
      Move(s.(calls := s.calls + [Call(t, pc.code, pc.data)]), t, Idle)
  }

  predicate IsRun(s: State, steps: seq<Step>)
    decreases |steps|
  {
    steps != [] ==> Enabled(s, steps[0]) && IsRun(Apply(s, steps[0]), steps[1..])
  }

  function After(s: State, steps: seq<Step>): State
    requires IsRun(s, steps)
    decreases |steps|
  {
    if steps == [] then s else After(Apply(s, steps[0]), steps[1..])
  }

  // ----- what the log says -----

  function AllPushed(log: seq<Event>): seq<Pointer> {
    if log == [] then []
    else
      var e, before := log[|log| - 1], AllPushed(log[..|log| - 1]);
      if e.Pushed? then before + [e.item] else before
  }

  function AllTaken(log: seq<Event>): seq<Pointer> {
    if log == [] then []
    else
      var e, before := log[|log| - 1], AllTaken(log[..|log| - 1]);
      if e.Taken? then before + [e.item] else before
  }

  /** The items handed out to callers: a NULL that is taken off the queue is reported as nothing. */
  function Delivered(log: seq<Event>): seq<Pointer> {
    if log == [] then []
    else
      var e, before := log[|log| - 1], Delivered(log[..|log| - 1]);
      if e.Taken? && e.item != NULL then before + [e.item] else before
  }

  function DeliveredTo(log: seq<Event>, t: Tid): seq<Pointer> {
    if log == [] then []
    else
      var e, before := log[|log| - 1], DeliveredTo(log[..|log| - 1], t);
      if e.Taken? && e.tid == t && e.item != NULL then before + [e.item] else before
  }

  /** What the gets of a thread have returned with code 1. */
  function ReturnedTo(calls: seq<Call>, t: Tid): seq<Pointer> {
    if calls == [] then []
    else
      var c, before := calls[|calls| - 1], ReturnedTo(calls[..|calls| - 1], t);
      if c.tid == t && c.code == 1 then before + [c.data] else before
  }

  function InHand(pc: Pc): seq<Pointer> {
    if pc.Done? && pc.code == 1 then [pc.data] else []
  }

  predicate HoldsMutex(pc: Pc) {
    pc.BeforeWait? || pc.SecondTry?
  }

  /** A thread has been delivered what its gets have returned and what it is about to return, in this order. */
  predicate ThreadInv(s: State, t: Tid) {
    var pc := PcOf(s, t);
    && DeliveredTo(s.log, t) == ReturnedTo(s.calls, t) + InHand(pc)
    && (HoldsMutex(pc) <==> s.mutex == Some(t))
    && (pc.Done? ==> pc.code == if pc.data != NULL then 1 else 0)
  }

  predicate Balanced(log: seq<Event>, items: seq<Pointer>) {
    AllTaken(log) + items == AllPushed(log)
  }

  /** Nothing is lost and nothing is duplicated: what was taken, then what is queued, is what was pushed. */
  predicate QueueInv(s: State) {
    && Balanced(s.log, s.items)
    && forall c <- s.calls :: c.code == if c.data != NULL then 1 else 0
  }

  ghost predicate Inv(s: State) {
    QueueInv(s) && forall t: Tid :: ThreadInv(s, t)
  }

  // ----- every step keeps the invariant -----

  lemma Snoc(log: seq<Event>, e: Event, t: Tid)
    ensures AllPushed(log + [e]) == AllPushed(log) + if e.Pushed? then [e.item] else []
    ensures AllTaken(log + [e]) == AllTaken(log) + if e.Taken? then [e.item] else []
    ensures Delivered(log + [e]) == Delivered(log) + if e.Taken? && e.item != NULL then [e.item] else []
    ensures DeliveredTo(log + [e], t)
            == DeliveredTo(log, t) + if e.Taken? && e.tid == t && e.item != NULL then [e.item] else []
  {
    assert (log + [e])[..|log|] == log;
  }

  lemma SnocCall(calls: seq<Call>, c: Call, t: Tid)
    ensures ReturnedTo(calls + [c], t) == ReturnedTo(calls, t) + if c.tid == t && c.code == 1 then [c.data] else []
  {
    assert (calls + [c])[..|calls|] == calls;
  }

  lemma OtherThreads(s: State, step: Step, u: Tid)
    requires Enabled(s, step) && u != step.tid
    ensures PcOf(Apply(s, step), u) == PcOf(s, u)
  {
    hide ShiftSection;
  }

  lemma StepKeepsThreadInv(s: State, step: Step, u: Tid)
    requires Enabled(s, step) && ThreadInv(s, u) && ThreadInv(s, step.tid)
    ensures ThreadInv(Apply(s, step), u)
  {
    hide DeliveredTo, ReturnedTo, AllPushed, AllTaken, Delivered;
    var t := step.tid;
    match step {
      case LockAndPush(_) =>
        Snoc(s.log, Pushed(PcOf(s, t).item), u);
      case Try(_) =>
        if s.items != [] {
          Snoc(s.log, Taken(t, s.items[0]), u);
        }
      case Return(_) =>
        SnocCall(s.calls, Call(t, PcOf(s, t).code, PcOf(s, t).data), u);
      case _ =>
    }
    if u != t {
      OtherThreads(s, step, u);
    }
  }

  /** What one step adds to the log. */
  function Logged(s: State, step: Step): seq<Event>
    requires Enabled(s, step)
  {
    match step
    case LockAndPush(t) => [Pushed(PcOf(s, t).item)]
    case Try(t) => if s.items == [] then [] else [Taken(t, s.items[0])]
    case _ => []
  }

  lemma StepLogs(s: State, step: Step)
    requires Enabled(s, step)
    ensures Apply(s, step).log == s.log + Logged(s, step)
    ensures Apply(s, step).items
            == match step
               case LockAndPush(t) => s.items + [PcOf(s, t).item]
               case Try(_) => if s.items == [] then [] else s.items[1..]
               case _ => s.items
    ensures Apply(s, step).calls == s.calls
            || (step.Return? && Apply(s, step).calls
                                == s.calls + [Call(step.tid, PcOf(s, step.tid).code, PcOf(s, step.tid).data)])
  {
  }

  lemma PushBalances(log: seq<Event>, items: seq<Pointer>, item: Pointer)
    requires Balanced(log, items)
    ensures Balanced(log + [Pushed(item)], items + [item])
  {
    hide AllPushed, AllTaken;
    Snoc(log, Pushed(item), 0);
    assert AllTaken(log) + (items + [item]) == AllTaken(log) + items + [item];
  }

  lemma TakeBalances(log: seq<Event>, items: seq<Pointer>, t: Tid)
    requires Balanced(log, items) && items != []
    ensures Balanced(log + [Taken(t, items[0])], items[1..])
  {
    hide AllPushed, AllTaken;
    Snoc(log, Taken(t, items[0]), 0);
    assert AllTaken(log) + [items[0]] + items[1..] == AllTaken(log) + items;
  }

  lemma StepKeepsQueueInv(s: State, step: Step)
    requires Enabled(s, step) && QueueInv(s) && ThreadInv(s, step.tid)
    ensures QueueInv(Apply(s, step))
  {
    hide Balanced, Apply, DeliveredTo, ReturnedTo;
    StepLogs(s, step);
    assert s.log + [] == s.log;
    match step {
      case LockAndPush(t) => PushBalances(s.log, s.items, PcOf(s, t).item);
      case Try(t) =>
        if s.items != [] {
          TakeBalances(s.log, s.items, t);
        }
      case _ =>
    }
  }

  lemma StepKeepsInv(s: State, step: Step)
    requires Inv(s) && Enabled(s, step)
    ensures Inv(Apply(s, step))
  {
    hide ThreadInv, QueueInv, Apply, Enabled;
    StepKeepsQueueInv(s, step);
    forall u: Tid ensures ThreadInv(Apply(s, step), u) {
      StepKeepsThreadInv(s, step, u);
    }
  }

  lemma {:induction false} RunKeepsInv(s: State, steps: seq<Step>)
    requires Inv(s) && IsRun(s, steps)
    ensures Inv(After(s, steps))
    decreases |steps|
  {
    if steps == [] {
    } else {
      StepKeepsInv(s, steps[0]);
      RunKeepsInv(Apply(s, steps[0]), steps[1..]);
    }
  }

  lemma InitiallyInv()
    ensures Inv(INITIAL)
  {
  }

  // ----- what callers see -----

  /** No NULL is among the items. */
  predicate NoNull(items: seq<Pointer>) {
    NULL !in items
  }

  lemma {:induction false} DeliveredWithoutNull(log: seq<Event>)
    ensures |Delivered(log)| <= |AllTaken(log)|
    ensures Delivered(log) == AllTaken(log) <==> NoNull(AllTaken(log))
  {
    if log == [] {
    } else {
      var before, e := log[..|log| - 1], log[|log| - 1];
      DeliveredWithoutNull(before);
      if e.Taken? {
        var d, a := Delivered(before), AllTaken(before);
        assert NoNull(a + [e.item]) <==> NoNull(a) && e.item != NULL;
        assert d + [e.item] == a + [e.item] ==> (d + [e.item])[..|d|] == (a + [e.item])[..|a|];
      }
    }
  }

  lemma SameTail(x: seq<Pointer>, y: seq<Pointer>, items: seq<Pointer>)
    ensures x + items == y + items <==> x == y
  {
    if x + items == y + items {
      assert |x| == |y|;
      assert x == (x + items)[..|x|] && y == (y + items)[..|y|];
    }
  }

  /** In every run, at every point: the items delivered so far, then the items still queued, are the items pushed, in
      lock order, if and only if no NULL has been taken off the queue. */
  lemma FirstInFirstOut(steps: seq<Step>)
    requires IsRun(INITIAL, steps)
    ensures var s := After(INITIAL, steps);
            Delivered(s.log) + s.items == AllPushed(s.log) <==> NoNull(AllTaken(s.log))
  {
    hide Apply, Enabled, Delivered, AllTaken, AllPushed;
    InitiallyInv();
    RunKeepsInv(INITIAL, steps);
    var s := After(INITIAL, steps);
    DeliveredWithoutNull(s.log);
    SameTail(Delivered(s.log), AllTaken(s.log), s.items);
  }

  /** Pushing no NULL is enough. */
  predicate PushesNoNull(steps: seq<Step>) {
    forall step <- steps :: step.StartPush? ==> step.item != NULL
  }

  predicate CarriesNoNull(s: State) {
    NoNull(AllPushed(s.log)) && forall t <- s.threads :: s.threads[t].Pushing? ==> s.threads[t].item != NULL
  }

  lemma {:induction false} NothingNullIsPushed(s: State, steps: seq<Step>)
    requires IsRun(s, steps) && PushesNoNull(steps) && CarriesNoNull(s)
    ensures CarriesNoNull(After(s, steps))
    decreases |steps|
  {
    if steps == [] {
    } else {
      OneStepNoNull(s, steps[0]);
      NothingNullIsPushed(Apply(s, steps[0]), steps[1..]);
    }
  }

  lemma OneStepNoNull(s: State, step: Step)
    requires Enabled(s, step) && CarriesNoNull(s) && (step.StartPush? ==> step.item != NULL)
    ensures CarriesNoNull(Apply(s, step))
  {
    hide AllPushed;
    var t := step.tid;
    match step {
      case LockAndPush(_) =>
        Snoc(s.log, Pushed(PcOf(s, t).item), t);
      case Try(_) =>
        if s.items != [] {
          Snoc(s.log, Taken(t, s.items[0]), t);
        }
      case _ =>
    }
  }

  lemma InitiallyNoNull()
    ensures CarriesNoNull(INITIAL)
  {
  }

  lemma ItemsPushedAreDelivered(steps: seq<Step>)
    requires IsRun(INITIAL, steps) && PushesNoNull(steps)
    ensures var s := After(INITIAL, steps);
            Delivered(s.log) + s.items == AllPushed(s.log)
  {
    hide Apply, Enabled, Delivered, AllTaken, AllPushed;
    var s := After(INITIAL, steps);
    InitiallyNoNull();
    NothingNullIsPushed(INITIAL, steps);
    InitiallyInv();
    RunKeepsInv(INITIAL, steps);
    assert forall x <- AllTaken(s.log) :: x in AllTaken(s.log) + s.items;
    FirstInFirstOut(steps);
  }

  /** In every run a get returns 1 exactly when it took an item: every thread's gets have returned the items
      delivered to it, each once and in the order taken, but for the one it is about to return. */
  lemma GetsReturnWhatTheyTook(steps: seq<Step>, t: Tid)
    requires IsRun(INITIAL, steps)
    ensures var s := After(INITIAL, steps);
            && DeliveredTo(s.log, t) == ReturnedTo(s.calls, t) + InHand(PcOf(s, t))
            && forall c <- s.calls :: c.code == 1 <==> c.data != NULL
  {
    InitiallyInv();
    RunKeepsInv(INITIAL, steps);
    assert ThreadInv(After(INITIAL, steps), t);
  }
}
