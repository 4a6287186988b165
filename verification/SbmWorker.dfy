/**
 The stream buffer manager's worker thread and a client that resets it. The worker keeps
 itself going by posting a READ to its own queue; a reset is a message it answers through
 a semaphore, after which the client posts the next READ.
 */
module SbmWorker {
  import opened MessageQueue

  datatype Command = READ | RESET | QUIT

  /** The queue the manager creates holds this many messages; posts to it are not checked. */
  const QUEUE_SIZE := 32

  /** Fetching; a READ done and the queue to be looked at; the queue found empty; a RESET taken; all cleared. */
  datatype Worker = Fetch | Detected | Repost | Resetting | Cleared | Gone

  /** The client between resets; waiting for the answer; about to post the next READ. */
  datatype Client = Ready | Waiting | Restarting

  /** `cleared` says whether all cursors and counts were zeroed since the client last asked. */
  datatype System = System(queue: seq<Command>, worker: Worker, client: Client, resetSem: nat, cleared: bool,
                           lost: bool)

  datatype Step = GetMessage | LookAtQueue | PostRead | Clear | Answer | AskReset | WakeUp | PostNextRead | Quit

  function Post(s: System, c: Command): System {
    s.(queue := Posted(s.queue, QUEUE_SIZE, c), lost := s.lost || |s.queue| >= QUEUE_SIZE)
  }

  predicate Enabled(s: System, e: Step) {
    match e
    case GetMessage => s.worker == Fetch && s.queue != []
    case LookAtQueue => s.worker == Detected
    case PostRead => s.worker == Repost
    case Clear => s.worker == Resetting
    case Answer => s.worker == Cleared
    case AskReset => s.client == Ready
    case WakeUp => s.client == Waiting && s.resetSem > 0
    case PostNextRead => s.client == Restarting
    case Quit => QUIT !in s.queue && s.worker != Gone
  }

  function Next(s: System, e: Step): System
    requires Enabled(s, e)
  {
    match e
    case GetMessage =>
      var t := s.(queue := Taken(s.queue));
      (match s.queue[0]
       case READ => t.(worker := Detected)
       case RESET => t.(worker := Resetting)
       case QUIT => t.(worker := Gone))
    case LookAtQueue => s.(worker := if |s.queue| <= 0 then Repost else Fetch)
    case PostRead => Post(s.(worker := Fetch), READ)
    case Clear => s.(worker := Cleared, cleared := true)
    case Answer => s.(worker := Fetch, resetSem := s.resetSem + 1)
    case AskReset => Post(s.(client := Waiting, cleared := false), RESET)
    case WakeUp => s.(client := Restarting, resetSem := s.resetSem - 1)
    case PostNextRead => Post(s.(client := Ready), READ)
    case Quit => Post(s, QUIT)
  }

  function Start(): System {
    System([READ], Fetch, Ready, 0, false, false)
  }

  // ----- counting messages

  function Count(q: seq<Command>, c: Command): nat {
    if q == [] then 0 else (if q[0] == c then 1 else 0) + Count(q[1..], c)
  }

  /** READs behind the first RESET. */
  function ReadsAfter(q: seq<Command>): nat {
    if q == [] then 0 else if q[0] == RESET then Count(q[1..], READ) else ReadsAfter(q[1..])
  }

  lemma {:induction false} CountAppend(q: seq<Command>, x: Command, c: Command)
    ensures Count(q + [x], c) == Count(q, c) + if x == c then 1 else 0
  {
    if q == [] {
      assert q + [x] == [x];
    } else {
      CountAppend(q[1..], x, c);
      assert (q + [x])[1..] == q[1..] + [x];
    }
  }

  lemma {:induction false} ReadsAfterAppend(q: seq<Command>, x: Command)
    ensures ReadsAfter(q + [x]) == ReadsAfter(q) + if x == READ && Count(q, RESET) > 0 then 1 else 0
  {
    if q == [] {
      assert q + [x] == [x];
    } else if q[0] == RESET {
      CountAppend(q[1..], x, READ);
      assert (q + [x])[1..] == q[1..] + [x];
    } else {
      ReadsAfterAppend(q[1..], x);
      assert (q + [x])[1..] == q[1..] + [x];
    }
  }

  lemma {:induction false} ReadsAfterBound(q: seq<Command>)
    ensures ReadsAfter(q) <= Count(q, READ)
    ensures Count(q, RESET) == 0 ==> ReadsAfter(q) == 0
    ensures |q| == Count(q, READ) + Count(q, RESET) + Count(q, QUIT)
    ensures QUIT in q <==> Count(q, QUIT) > 0
  {
    if q != [] {
      ReadsAfterBound(q[1..]);
      assert q == [q[0]] + q[1..];
    }
  }

  // ----- the protocol's invariant

  /** READs that are queued or being handled. */
  function Reads(s: System): nat {
    Count(s.queue, READ) + if s.worker == Detected || s.worker == Repost then 1 else 0
  }

  predicate Invariant(s: System) {
    && !s.lost
    && Count(s.queue, QUIT) <= 1 && (s.worker == Gone ==> Count(s.queue, QUIT) == 0)
    // a reset asked for is queued, being handled, or answered
    && Count(s.queue, RESET) + (if s.worker == Resetting || s.worker == Cleared then 1 else 0) + s.resetSem
       == (if s.client == Waiting then 1 else 0)
    // the worker has something to go on
    && (s.client == Ready && QUIT !in s.queue && s.worker != Gone ==> Reads(s) >= 1)
    // and never too much of it
    && Reads(s) <= 2
    && (Count(s.queue, RESET) > 0 ==> ReadsAfter(s.queue) + (if s.worker == Repost then 1 else 0) <= 1)
    && (s.client != Ready && Count(s.queue, RESET) == 0 ==> Reads(s) <= 1)
    // the answer comes after the clearing
    && (s.worker == Cleared || s.resetSem > 0 || s.client == Restarting ==> s.cleared)
  }

  /** What the counts of a queue become when its head is taken. */
  lemma PopFacts(q: seq<Command>)
    requires q != []
    ensures forall c :: Count(q, c) == Count(q[1..], c) + if q[0] == c then 1 else 0
    ensures ReadsAfter(q) == if q[0] == RESET then Count(q[1..], READ) else ReadsAfter(q[1..])
    ensures ReadsAfter(q[1..]) <= Count(q[1..], READ)
    ensures QUIT in q[1..] <==> Count(q[1..], QUIT) > 0
    ensures QUIT in q <==> Count(q, QUIT) > 0
    ensures q[1..] == [] <==> Count(q[1..], READ) + Count(q[1..], RESET) + Count(q[1..], QUIT) == 0
  {
    ReadsAfterBound(q);
    ReadsAfterBound(q[1..]);
  }

  /** And when a message is posted behind it. */
  lemma PushFacts(q: seq<Command>, x: Command)
    ensures Count(q + [x], READ) == Count(q, READ) + if x == READ then 1 else 0
    ensures Count(q + [x], RESET) == Count(q, RESET) + if x == RESET then 1 else 0
    ensures Count(q + [x], QUIT) == Count(q, QUIT) + if x == QUIT then 1 else 0
    ensures ReadsAfter(q + [x]) == ReadsAfter(q) + if x == READ && Count(q, RESET) > 0 then 1 else 0
    ensures Count(q, RESET) == 0 ==> ReadsAfter(q) == 0
    ensures |q| == Count(q, READ) + Count(q, RESET) + Count(q, QUIT)
    ensures QUIT in q <==> Count(q, QUIT) > 0
    ensures QUIT in q + [x] <==> QUIT in q || x == QUIT
  {
    CountAppend(q, x, READ);
    CountAppend(q, x, RESET);
    CountAppend(q, x, QUIT);
    ReadsAfterAppend(q, x);
    ReadsAfterBound(q);
  }

  lemma StepKeeps(s: System, e: Step)
    requires Invariant(s) && Enabled(s, e)
    ensures Invariant(Next(s, e))
  {
    hide Count, ReadsAfter;
    match e
    case GetMessage => PopFacts(s.queue);
    case LookAtQueue => ReadsAfterBound(s.queue);
    case PostRead => PushFacts(s.queue, READ);
    case AskReset => PushFacts(s.queue, RESET);
    case PostNextRead => PushFacts(s.queue, READ);
    case Quit => PushFacts(s.queue, QUIT);
    case _ =>
  }

  predicate Run(s: System, es: seq<Step>, t: System)
    decreases |es|
  {
    if es == [] then t == s else Enabled(s, es[0]) && Run(Next(s, es[0]), es[1..], t)
  }

  lemma {:induction false} RunsKeep(s: System, es: seq<Step>, t: System)
    requires Invariant(s) && Run(s, es, t)
    ensures Invariant(t)
    decreases |es|
  {
    if es != [] {
      StepKeeps(s, es[0]);
      RunsKeep(Next(s, es[0]), es[1..], t);
    }
  }

  /**
   At every moment until QUIT a READ is queued or handled or a reset is in progress; at most
   three messages other than QUIT are queued and no post is ever lost; and when the client
   goes on after its reset, everything has been cleared since it asked.
   */
  lemma WorkerNeverStarves(es: seq<Step>, t: System)
    requires Run(Start(), es, t)
    ensures QUIT !in t.queue && t.worker != Gone ==>
              READ in t.queue || t.worker == Detected || t.worker == Repost || t.client != Ready
    ensures |t.queue| - Count(t.queue, QUIT) <= 3 && !t.lost
    ensures t.client == Restarting ==> t.cleared
    ensures t.client == Waiting ==>
              RESET in t.queue || t.worker == Resetting || t.worker == Cleared || Enabled(t, WakeUp)
  {
    var q := Start().queue;
    assert q[1..] == [];
    RunsKeep(Start(), es, t);
    ReadsAfterBound(t.queue);
    Present(t.queue, READ);
    Present(t.queue, RESET);
  }

  /** While nobody resets or quits, there is one READ, queued or being handled, and nothing else. */
  lemma {:induction false} OneRead(s: System, es: seq<Step>, t: System)
    requires Run(s, es, t) && forall i :: 0 <= i < |es| ==> es[i] != AskReset && es[i] != Quit
    requires s.client == Ready && s.worker in {Fetch, Detected, Repost}
    requires s.queue == if s.worker == Fetch then [READ] else []
    ensures t.client == Ready && t.worker in {Fetch, Detected, Repost}
    ensures t.queue == if t.worker == Fetch then [READ] else []
    decreases |es|
  {
    if es != [] {
      assert forall i :: 0 <= i < |es| - 1 ==> es[1..][i] == es[i + 1];
      OneRead(Next(s, es[0]), es[1..], t);
    }
  }

  lemma {:induction false} Present(q: seq<Command>, c: Command)
    ensures c in q <==> Count(q, c) > 0
  {
    if q != [] {
      Present(q[1..], c);
      assert q == [q[0]] + q[1..];
    }
  }
}
