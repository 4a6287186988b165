/**
 Threads posting to, getting from, waiting on and flushing one message queue, step by
 step. A post signals the semaphore after it has left the lock, a get takes a signal
 before it enters the lock, a wait takes a signal and gives it back.
 */
module QueueProtocol {
  import opened Common
  import opened MessageQueue

  /**
   posting: posts that have not signalled yet; getting and waiting: getters and waiters that
   hold a signal; flushing: a flush holds the lock and is draining the semaphore. `posted`
   and `taken` are the messages posted and handed out since the queue was last flushed.
   */
  datatype System = System(queue: seq<Message>, max: nat, sem: nat, posting: nat, getting: nat, waiting: nat,
                           flushing: bool, posted: seq<Message>, taken: seq<Message>)

  datatype Step =
    | Post(m: Message) | Signal
    | TakeSignal | Get
    | WaitBegin | WaitEnd
    | FlushClear | FlushDrain | FlushEnd

  predicate Enabled(s: System, e: Step) {
    match e
    case Post(_) => !s.flushing
    case Signal => s.posting > 0
    case TakeSignal => s.sem > 0
    case Get => s.getting > 0 && !s.flushing
    case WaitBegin => s.sem > 0
    case WaitEnd => s.waiting > 0
    case FlushClear => !s.flushing
    case FlushDrain => s.flushing && s.sem > 0
    case FlushEnd => s.flushing && s.sem == 0
  }

  function Next(s: System, e: Step): System
    requires Enabled(s, e)
  {
    match e
    case Post(m) =>
      var t := s.(queue := Posted(s.queue, s.max, m));
      if |s.queue| >= s.max then t else t.(posting := t.posting + 1, posted := t.posted + [m])
    case Signal => s.(posting := s.posting - 1, sem := s.sem + 1)
    case TakeSignal => s.(sem := s.sem - 1, getting := s.getting + 1)
    case Get =>
      var t := s.(getting := s.getting - 1, queue := Taken(s.queue));
      if s.queue == [] then t else t.(taken := t.taken + [s.queue[0]])
    case WaitBegin => s.(sem := s.sem - 1, waiting := s.waiting + 1)
    case WaitEnd => s.(waiting := s.waiting - 1, sem := s.sem + 1)
    case FlushClear => s.(queue := [], flushing := true, posted := [], taken := [])
    case FlushDrain => s.(sem := s.sem - 1)
    case FlushEnd => s.(flushing := false)
  }

  /** Every queued message has a signal somewhere on its way, and messages leave in the order they came. */
  predicate Signalled(s: System) {
    && |s.queue| <= s.sem + s.posting + s.getting + s.waiting
    && |s.queue| <= s.max
    && (s.flushing ==> s.queue == [])
    && s.posted == s.taken + s.queue
  }

  predicate Run(s: System, es: seq<Step>, t: System)
    decreases |es|
  {
    if es == [] then t == s else Enabled(s, es[0]) && Run(Next(s, es[0]), es[1..], t)
  }

  lemma {:induction false} RunsStaySignalled(s: System, es: seq<Step>, t: System)
    requires Signalled(s) && Run(s, es, t)
    ensures Signalled(t)
    decreases |es|
  {
    if es != [] {
      RunsStaySignalled(Next(s, es[0]), es[1..], t);
    }
  }

  function Start(max: nat): System {
    System([], max, 0, 0, 0, 0, false, [], [])
  }

  /**
   No lost wake-up: once nothing is in flight, a getter facing a non-empty queue is not
   blocked, and what it gets is the oldest message.
   */
  lemma NoLostWakeup(max: nat, es: seq<Step>, t: System)
    requires Run(Start(max), es, t) && t.queue != []
    requires t.posting == 0 && t.getting == 0 && t.waiting == 0
    ensures Enabled(t, TakeSignal)
    ensures var u := Next(t, TakeSignal); Enabled(u, Get) && Next(u, Get).taken == t.taken + [t.queue[0]]
    ensures t.posted == t.taken + t.queue
  {
    RunsStaySignalled(Start(max), es, t);
  }

  /** Until the queue is flushed there are no more signals than messages either, and every getter finds a message. */
  lemma {:induction false} SignalsAreMessages(s: System, es: seq<Step>, t: System)
    requires |s.queue| == s.sem + s.posting + s.getting + s.waiting && !s.flushing
    requires Run(s, es, t) && forall i :: 0 <= i < |es| ==> !es[i].FlushClear?
    ensures |t.queue| == t.sem + t.posting + t.getting + t.waiting && !t.flushing
    ensures t.getting > 0 ==> t.queue != []
    decreases |es|
  {
    if es != [] {
      assert forall i :: 0 <= i < |es| - 1 ==> es[1..][i] == es[i + 1];
      SignalsAreMessages(Next(s, es[0]), es[1..], t);
    }
  }
}
