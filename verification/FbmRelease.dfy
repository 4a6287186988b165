/**
 A release: every frame with an outside buffer is marked, enters the release queue when its last user lets go
 of it, is given away, and gets a new buffer. Over any run of the clients each of these happens once, unless the
 frame is left behind by a share that the release call has overtaken.
 */
module FbmRelease {
  import opened Common
  import opened NodeList
  import opened FbmPool
  import opened FbmProofs

  /** Where a frame stands in its release: in use, queued, given away, done. */
  function Stage(p: Pool, i: nat): nat
    requires i < |p.frames|
  {
    if !p.frames[i].needRelease then 3
    else if Tagged(p.frames[i]) then 2
    else if i in p.release then 1
    else 0
  }

  // ----- what a client can see of it

  predicate Enters(p: Pool, op: Op, i: nat)
    requires InRange(p) && InOrder(p, op)
  {
    i !in p.release && i in Apply(p, op).release
  }

  /** The frame is given away. */
  predicate GivesAway(p: Pool, op: Op, i: nat)
    requires InRange(p)
  {
    op.OpRequestRelease? && RequestRelease(p).1 == Some(i)
  }

  /** The frame takes a new buffer. */
  predicate TakesBuffer(p: Pool, op: Op, i: nat)
    requires InRange(p)
  {
    op.OpReturnRelease? && ReturnRelease(p, op.nBufId).1 == Some(i)
  }

  // ----- one step

  /** Between two marks a frame goes through the stages one by one, and each is passed by what a client sees. */
  ghost predicate Advances(p: Pool, op: Op, q: Pool, i: nat)
    requires InRange(p) && InOrder(p, op) && i < |p.frames|
  {
    && |q.frames| == |p.frames| && Stage(p, i) <= Stage(q, i) <= Stage(p, i) + 1
    && (Enters(p, op, i) <==> Stage(p, i) == 0 && Stage(q, i) == 1)
    && (GivesAway(p, op, i) <==> Stage(p, i) == 1 && Stage(q, i) == 2)
    && (TakesBuffer(p, op, i) <==> Stage(p, i) == 2 && Stage(q, i) == 3)
  }

  /** Release is not touched, nor what the frame says about it. */
  predicate Untouched(p: Pool, q: Pool, i: nat)
    requires i < |p.frames|
  {
    && |q.frames| == |p.frames| && q.release == p.release
    && q.frames[i].needRelease == p.frames[i].needRelease && q.frames[i].nID == p.frames[i].nID
  }

  lemma {:induction false} FlushUntouched(p: Pool, i: nat)
    requires Legal(p) && i < |p.frames|
    ensures Untouched(p, FlushQueue(p), i)
    decreases |p.valid|
  {
    if p.valid != [] {
      FlushOneLegal(p);
      FlushUntouched(FlushOne(p), i);
    }
  }

  /** A frame leaves for the release queue only from the empty queue. */
  lemma {:induction false} DrainMoves(p: Pool, i: nat)
    requires Legal(p) && p.phase == Flushed && i < |p.frames|
    ensures var q := DrainQueue(p); q.frames == p.frames && (i in q.release <==> i in p.release || i in p.empty)
    decreases |p.empty|
  {
    if p.empty != [] {
      DrainOneLegal(p);
      assert p.empty == [p.empty[0]] + p.empty[1..];
      DrainMoves(DrainOne(p), i);
    }
  }

  lemma {:induction false} ReturnReleaseTakes(p: Pool, from: nat, b: int, i: nat)
    requires Legal(p) && from <= |p.frames| && i < |p.frames|
    ensures var (q, taken) := ReturnReleaseFrom(p, from, b);
            && |q.frames| == |p.frames| && q.release == p.release && q.phase == p.phase
            && (i in q.empty <==> i in p.empty || taken == Some(i))
            && (taken == Some(i) ==>
                  AwaitsBuffer(p, i) && !q.frames[i].needRelease && i in q.empty && q.frames[i].nID == i)
            && (taken != Some(i) ==> q.frames[i] == p.frames[i])
    decreases |p.frames| - from
  {
    if from < |p.frames| && !AwaitsBuffer(p, from) {
      ReturnReleaseTakes(p, from + 1, b, i);
    }
  }

  lemma DrainAdvances(p: Pool, i: nat)
    requires Legal(p) && p.phase == Flushed && i < |p.frames|
    ensures Advances(p, OpDrain, Drain(p), i)
  {
    assert FrameOk(p, i);
    DrainMoves(p, i);
    hide Legal, DrainQueue;
  }

  lemma RequestReleaseAdvances(p: Pool, i: nat)
    requires Legal(p) && i < |p.frames|
    ensures Advances(p, OpRequestRelease, RequestRelease(p).0, i)
  {
    assert FrameOk(p, i);
    if p.release != [] {
      assert p.release[0] in p.release && FrameOk(p, p.release[0]);
      FbmProofs.Pop(p.release);
    }
  }

  lemma ReturnReleaseAdvances(p: Pool, b: int, i: nat)
    requires Legal(p) && i < |p.frames| && InOrder(p, OpReturnRelease(b))
    ensures Advances(p, OpReturnRelease(b), ReturnRelease(p, b).0, i)
  {
    assert FrameOk(p, i);
    ReturnReleaseTakes(p, 0, b, i);
  }

  lemma ReturnBufferAdvances(p: Pool, j: nat, b: bool, i: nat)
    requires Legal(p) && i < |p.frames| && InOrder(p, OpReturnBuffer(j, b)) && Disciplined(p, OpReturnBuffer(j, b))
    ensures Advances(p, OpReturnBuffer(j, b), ReturnBuffer(p, j, b), i)
  {
    var q := ReturnBuffer(p, j, b);
    if q.release == p.release {
      assert Untouched(p, q, i);
      UntouchedAdvances(p, OpReturnBuffer(j, b), i);
    } else {
      assert FrameOk(p, i) && FrameOk(p, j);
      hide Legal, FrameOk, ReturnBuffer;
      Enlisted(p, q, j, b);
      Joins(p.release, j, i);
    }
  }

  /** The decoder returns a frame that is to be released. */
  lemma Enlisted(p: Pool, q: Pool, j: nat, b: bool)
    requires j < |p.frames| && q == ReturnBuffer(p, j, b) && q.release != p.release
    ensures q.release == p.release + [j] && |q.frames| == |p.frames| && p.frames[j].usedByDecoder
    ensures p.frames[j].nID == j && p.frames[j].needRelease
    ensures forall i :: 0 <= i < |p.frames| ==>
              q.frames[i].needRelease == p.frames[i].needRelease && q.frames[i].nID == p.frames[i].nID
  {
  }

  lemma Joins(s: seq<nat>, j: nat, i: nat)
    ensures i in s + [j] <==> i in s || i == j
  {
  }

  lemma ReturnPictureAdvances(p: Pool, j: nat, i: nat)
    requires Legal(p) && i < |p.frames| && j < |p.frames|
    ensures Advances(p, OpReturnPicture(j), ReturnPicture(p, j), i)
  {
    assert FrameOk(p, i) && FrameOk(p, j);
    hide Legal, FrameOk;
  }

  lemma BindAdvances(p: Pool, b: int, i: nat)
    requires Legal(p) && i < |p.frames| && InOrder(p, OpBind(b))
    ensures Advances(p, OpBind(b), Bind(p, b), i)
  {
    assert FrameOk(p, i) && FrameOk(p, p.bound);
    hide Legal;
  }

  lemma UntouchedAdvances(p: Pool, op: Op, i: nat)
    requires Legal(p) && i < |p.frames| && InOrder(p, op) && !op.OpRequestRelease? && !op.OpReturnRelease?
    requires Untouched(p, Apply(p, op), i)
    ensures Advances(p, op, Apply(p, op), i)
  {
    hide Legal, Apply;
  }

  lemma StepAdvances(p: Pool, op: Op, i: nat)
    requires Legal(p) && InOrder(p, op) && Disciplined(p, op) && !op.OpMarkRelease? && i < |p.frames|
    ensures Advances(p, op, Apply(p, op), i)
  {
    hide FrameOk, Counted, NoDup, Advances;
    match op
    case OpFlush =>
      FlushUntouched(p, i);
      UntouchedAdvances(p, op, i);
    case OpDrain => DrainAdvances(p, i);
    case OpRequestRelease => RequestReleaseAdvances(p, i);
    case OpReturnRelease(b) => ReturnReleaseAdvances(p, b, i);
    case OpReturnBuffer(j, b) => ReturnBufferAdvances(p, j, b, i);
    case OpReturnPicture(j) => ReturnPictureAdvances(p, j, i);
    case OpBind(b) => BindAdvances(p, b, i);
    case _ => UntouchedAdvances(p, op, i);
  }

  // ----- runs

  datatype Count = Count(entered: nat, givenAway: nat, rebound: nat)

  function Add(c: Count, d: Count): Count {
    Count(c.entered + d.entered, c.givenAway + d.givenAway, c.rebound + d.rebound)
  }

  function CountStep(p: Pool, op: Op, i: nat): Count
    requires InRange(p) && InOrder(p, op)
  {
    Count(if Enters(p, op, i) then 1 else 0, if GivesAway(p, op, i) then 1 else 0,
          if TakesBuffer(p, op, i) then 1 else 0)
  }

  /** How often frame i enters the release queue, is given away and takes a new buffer in a run. */
  ghost function CountRun(p: Pool, ops: seq<Op>, q: Pool, i: nat): Count
    requires Legal(p) && Run(p, ops, q)
    decreases |ops|
  {
    if ops == [] then Count(0, 0, 0)
    else
      ApplyLegal(p, ops[0]);
      Add(CountStep(p, ops[0], i), CountRun(Apply(p, ops[0]), ops[1..], q, i))
  }

  /** No other release is started. */
  predicate NoMark(ops: seq<Op>) {
    forall k :: 0 <= k < |ops| ==> !ops[k].OpMarkRelease?
  }

  function Passed(a: nat, b: nat): Count {
    Count(Crosses(a, b, 1), Crosses(a, b, 2), Crosses(a, b, 3))
  }

  function Crosses(a: nat, b: nat, k: nat): nat {
    if a < k <= b then 1 else 0
  }

  lemma CrossesAdds(a: nat, b: nat, c: nat, k: nat)
    requires a <= b <= c
    ensures Crosses(a, b, k) + Crosses(b, c, k) == Crosses(a, c, k)
  {
  }

  lemma StepCounts(p: Pool, op: Op, i: nat)
    requires Legal(p) && InOrder(p, op) && Disciplined(p, op) && !op.OpMarkRelease? && i < |p.frames|
    ensures var q := Apply(p, op);
            && |q.frames| == |p.frames| && Stage(p, i) <= Stage(q, i) <= Stage(p, i) + 1
            && CountStep(p, op, i) == Passed(Stage(p, i), Stage(q, i))
  {
    StepAdvances(p, op, i);
    hide FrameOk, Counted, NoDup, Apply, Stage, Enters, GivesAway, TakesBuffer;
  }

  lemma PassedAdds(a: nat, b: nat, c: nat)
    requires a <= b <= c
    ensures Add(Passed(a, b), Passed(b, c)) == Passed(a, c)
  {
    CrossesAdds(a, b, c, 1);
    CrossesAdds(a, b, c, 2);
    CrossesAdds(a, b, c, 3);
    hide Crosses;
    var l, r := Add(Passed(a, b), Passed(b, c)), Passed(a, c);
    assert l.entered == r.entered && l.givenAway == r.givenAway && l.rebound == r.rebound;
  }

  lemma NoneMarked(ops: seq<Op>)
    requires ops != [] && NoMark(ops)
    ensures !ops[0].OpMarkRelease? && NoMark(ops[1..])
  {
  }

  /** Over any run each stage is passed once or not at all, as the stages before and after say. */
  lemma {:induction false} RunCounts(p: Pool, ops: seq<Op>, q: Pool, i: nat)
    requires Legal(p) && Run(p, ops, q) && NoMark(ops) && i < |p.frames|
    ensures |q.frames| == |p.frames| && Stage(p, i) <= Stage(q, i)
    ensures CountRun(p, ops, q, i) == Passed(Stage(p, i), Stage(q, i))
    decreases |ops|
  {
    hide FrameOk, Counted, NoDup, Apply, Stage, CountStep, NoMark, Passed, Add;
    if ops == [] {
      NothingPassed(Stage(p, i));
    } else {
      NoneMarked(ops);
      ApplyLegal(p, ops[0]);
      StepCounts(p, ops[0], i);
      var next := Apply(p, ops[0]);
      RunCounts(next, ops[1..], q, i);
      PassedAdds(Stage(p, i), Stage(next, i), Stage(q, i));
    }
  }

  lemma NothingPassed(a: nat)
    ensures Passed(a, a) == Count(0, 0, 0)
  {
  }

  /** Nobody holds a frame, nothing waits, and every frame given away has its new buffer. */
  predicate Settled(q: Pool) {
    && q.valid == [] && q.release == [] && q.phase == Idle
    && forall j :: 0 <= j < |q.frames| ==>
         !q.frames[j].usedByDecoder && !q.frames[j].usedByRender && !Tagged(q.frames[j])
  }

  // ----- frames shared behind their marking

  /**
   The frame is to be released and empty, with no draining to come: nothing but the decoder can bring it
   to the release queue.
   */
  predicate Stray(p: Pool, i: nat)
    requires i < |p.frames|
  {
    p.phase == Idle && p.frames[i].needRelease && i in p.empty
  }

  /** A flush takes back a picture that is to be released, behind the draining. */
  predicate TakesBack(p: Pool, op: Op, i: nat)
    requires i < |p.frames|
  {
    op.OpFlush? && p.phase == Idle && i in p.valid && p.frames[i].needRelease && !p.frames[i].usedByDecoder
  }

  /** The decoder gets the frame. */
  predicate TakesOut(p: Pool, op: Op, i: nat)
    requires InRange(p)
  {
    op.OpRequestBuffer? && RequestBuffer(p).1 == Some(i)
  }

  /** The decoder does not get the frame in this run. */
  ghost predicate NeverOut(p: Pool, ops: seq<Op>, q: Pool, i: nat)
    requires Legal(p) && Run(p, ops, q)
    decreases |ops|
  {
    ops == [] || (!TakesOut(p, ops[0], i) && (ApplyLegal(p, ops[0]); NeverOut(Apply(p, ops[0]), ops[1..], q, i)))
  }

  /** A flush in this run takes it back, and the decoder does not get it again. */
  ghost predicate LeftBehind(p: Pool, ops: seq<Op>, q: Pool, i: nat)
    requires Legal(p) && Run(p, ops, q) && i < |p.frames|
    decreases |ops|
  {
    ops != [] &&
    (ApplyLegal(p, ops[0]); ApplyBound(p, ops[0]);
     var next := Apply(p, ops[0]);
     LeftBehind(next, ops[1..], q, i) || (TakesBack(p, ops[0], i) && NeverOut(next, ops[1..], q, i)))
  }

  lemma {:induction false} FlushEmpties(p: Pool, i: nat)
    requires Legal(p) && i < |p.frames|
    ensures var q := FlushQueue(p);
            && |q.frames| == |p.frames| && q.frames[i].needRelease == p.frames[i].needRelease && q.phase == p.phase
            && (i in q.empty <==> i in p.empty || (i in p.valid && !p.frames[i].usedByDecoder))
    decreases |p.valid|
  {
    if p.valid != [] {
      assert p.valid == [p.valid[0]] + p.valid[1..];
      FlushOneLegal(p);
      FlushEmpties(FlushOne(p), i);
    }
  }

  lemma ReturnReleaseStrays(p: Pool, b: int, i: nat)
    requires Legal(p) && InOrder(p, OpReturnRelease(b)) && i < |p.frames|
    ensures var q := ReturnRelease(p, b).0; |q.frames| == |p.frames| && (Stray(q, i) <==> Stray(p, i))
  {
    assert FrameOk(p, i);
    ReturnReleaseTakes(p, 0, b, i);
    hide Legal, FrameOk, ReturnReleaseFrom;
  }

  lemma RequestBufferStrays(p: Pool, i: nat)
    requires Legal(p) && i < |p.frames|
    ensures var q := RequestBuffer(p).0;
            && |q.frames| == |p.frames|
            && (Stray(q, i) <==> Stray(p, i) && RequestBuffer(p).1 != Some(i))
  {
    if p.empty != [] {
      assert p.empty[0] in p.empty && FrameOk(p, p.empty[0]);
      FbmProofs.Pop(p.empty);
      hide Legal, FrameOk;
    }
  }

  lemma ReturnBufferStrays(p: Pool, j: nat, b: bool, i: nat)
    requires Legal(p) && i < |p.frames| && j < |p.frames|
    ensures var q := ReturnBuffer(p, j, b); |q.frames| == |p.frames| && (Stray(q, i) <==> Stray(p, i))
  {
    assert FrameOk(p, i) && FrameOk(p, j);
    hide Legal, FrameOk;
  }

  lemma ReturnPictureStrays(p: Pool, j: nat, i: nat)
    requires Legal(p) && i < |p.frames| && j < |p.frames|
    ensures var q := ReturnPicture(p, j); |q.frames| == |p.frames| && (Stray(q, i) <==> Stray(p, i))
  {
    assert FrameOk(p, i) && FrameOk(p, j);
    hide Legal, FrameOk;
  }

  lemma BindStrays(p: Pool, b: int, i: nat)
    requires Legal(p) && i < |p.frames| && InOrder(p, OpBind(b))
    ensures var q := Bind(p, b); |q.frames| == |p.frames| && (Stray(q, i) <==> Stray(p, i))
  {
    assert FrameOk(p, i) && FrameOk(p, p.bound);
    hide Legal, FrameOk;
  }

  /** A step leaves a frame stray exactly if it takes it back, or finds it stray and does not give it to the decoder. */
  lemma StepStrays(p: Pool, op: Op, i: nat)
    requires Legal(p) && InOrder(p, op) && Disciplined(p, op) && !op.OpMarkRelease? && i < |p.frames|
    ensures |Apply(p, op).frames| == |p.frames|
    ensures Stray(Apply(p, op), i) <==> TakesBack(p, op, i) || (Stray(p, i) && !TakesOut(p, op, i))
  {
    hide FrameOk, Counted, NoDup;
    match op
    case OpFlush =>
      FlushEmpties(p, i);
      hide FlushQueue;
    case OpDrain =>
      DrainQueueLegal(p);
      hide DrainQueue;
    case OpReturnRelease(b) => ReturnReleaseStrays(p, b, i);
    case OpRequestBuffer => RequestBufferStrays(p, i);
    case OpReturnBuffer(j, b) => ReturnBufferStrays(p, j, b, i);
    case OpReturnPicture(j) => ReturnPictureStrays(p, j, i);
    case OpBind(b) => BindStrays(p, b, i);
    case _ =>
  }

  /** A frame is stray after a run exactly if it is left behind in it, or was stray and the decoder never gets it. */
  lemma {:induction false} RunStrays(p: Pool, ops: seq<Op>, q: Pool, i: nat)
    requires Legal(p) && Run(p, ops, q) && NoMark(ops) && i < |p.frames|
    ensures |q.frames| == |p.frames|
    ensures Stray(q, i) <==> LeftBehind(p, ops, q, i) || (Stray(p, i) && NeverOut(p, ops, q, i))
    decreases |ops|
  {
    hide FrameOk, Counted, NoDup, Apply, Stray, TakesBack, TakesOut, NoMark;
    if ops != [] {
      NoneMarked(ops);
      ApplyLegal(p, ops[0]);
      StepStrays(p, ops[0], i);
      RunStrays(Apply(p, ops[0]), ops[1..], q, i);
    }
  }

  /** The frame has not been shared behind its marking, and is not about to be. */
  predicate Punctual(p: Pool, i: nat)
    requires i < |p.frames|
  {
    i !in p.late && (p.sharing == Some(i) ==> !p.frames[i].needRelease)
  }

  lemma {:induction false} FlushPunctual(p: Pool, i: nat)
    requires Legal(p) && i < |p.frames|
    ensures var q := FlushQueue(p); q.late == p.late && q.sharing == p.sharing
    decreases |p.valid|
  {
    if p.valid != [] {
      FlushOneLegal(p);
      FlushPunctual(FlushOne(p), i);
    }
  }

  lemma {:induction false} DrainPunctual(p: Pool, i: nat)
    requires Legal(p) && p.phase == Flushed && i < |p.frames|
    ensures var q := DrainQueue(p); q.late == p.late && q.sharing == p.sharing && q.frames == p.frames
    decreases |p.empty|
  {
    if p.empty != [] {
      DrainOneLegal(p);
      DrainPunctual(DrainOne(p), i);
    }
  }

  lemma {:induction false} ReturnPunctual(p: Pool, from: nat, b: int, i: nat)
    requires from <= |p.frames| && i < |p.frames| && Punctual(p, i)
    ensures var q := ReturnReleaseFrom(p, from, b).0; |q.frames| == |p.frames| && Punctual(q, i)
    decreases |p.frames| - from
  {
    if from < |p.frames| && !AwaitsBuffer(p, from) {
      ReturnPunctual(p, from + 1, b, i);
    }
  }

  lemma StepPunctual(p: Pool, op: Op, i: nat)
    requires Legal(p) && InOrder(p, op) && !op.OpMarkRelease? && i < |p.frames| && Punctual(p, i)
    ensures |Apply(p, op).frames| == |p.frames| && Punctual(Apply(p, op), i)
  {
    hide FrameOk, Counted, NoDup, FlushQueue, DrainQueue, ReturnReleaseFrom;
    match op
    case OpFlush =>
      FlushPunctual(p, i);
      FlushEmpties(p, i);
    case OpDrain => DrainPunctual(p, i);
    case OpReturnRelease(b) => ReturnPunctual(p, 0, b, i);
    case _ =>
  }

  /** Only a frame shared behind its marking is taken back. */
  lemma TakesBackLate(p: Pool, op: Op, i: nat)
    requires Legal(p) && i < |p.frames| && TakesBack(p, op, i)
    ensures i in p.late && !Punctual(p, i)
  {
    assert FrameOk(p, i);
  }

  lemma {:induction false} RunPunctual(p: Pool, ops: seq<Op>, q: Pool, i: nat)
    requires Legal(p) && Run(p, ops, q) && NoMark(ops) && i < |p.frames| && Punctual(p, i)
    ensures !LeftBehind(p, ops, q, i)
    decreases |ops|
  {
    hide FrameOk, Counted, NoDup, Apply, TakesBack, TakesOut, NoMark, NeverOut, Punctual;
    if ops != [] {
      NoneMarked(ops);
      ApplyLegal(p, ops[0]);
      StepPunctual(p, ops[0], i);
      RunPunctual(Apply(p, ops[0]), ops[1..], q, i);
      if TakesBack(p, ops[0], i) {
        TakesBackLate(p, ops[0], i);
      }
    }
  }

  // ----- the result

  lemma MarkStarts(p: Pool, i: nat)
    requires Legal(p) && InOrder(p, OpMarkRelease) && i < p.bound && !p.frames[i].needRelease
    ensures var m := MarkRelease(p);
            && Legal(m) && |m.frames| == |p.frames| && m.bound == p.bound && m.sharing == p.sharing
            && Stage(m, i) == 0 && !Stray(m, i) && (p.sharing != Some(i) ==> Punctual(m, i))
  {
    MarkReleaseLegal(p);
    assert FrameOk(p, i);
  }

  lemma SettledIs(q: Pool, i: nat)
    requires Legal(q) && Settled(q) && i < q.bound
    ensures i in q.empty && (q.frames[i].needRelease <==> Stray(q, i))
    ensures Stage(q, i) == if Stray(q, i) then 0 else 3
  {
    assert FrameOk(q, i);
  }

  /**
   From the marking on, whatever the clients do until all is settled, each frame that was not already on its
   way enters the release queue exactly once, is given away exactly once, takes a new buffer exactly once and
   is empty again, if and only if it is not left behind. That can only happen to a frame the decoder has
   tested before the marking and locks after it: it is queued although it is to be released, and a flush
   takes it back into the empty queue, where it stays with its old buffer.
   */
  lemma ReleasedExactlyOnce(p: Pool, ops: seq<Op>, q: Pool, i: nat)
    requires Legal(p) && InOrder(p, OpMarkRelease) && i < p.bound && !p.frames[i].needRelease
    requires Legal(MarkRelease(p)) ==> Run(MarkRelease(p), ops, q)
    requires NoMark(ops) && Settled(q)
    ensures Legal(MarkRelease(p)) && i < |MarkRelease(p).frames| && i < |q.frames| && i in q.empty
    ensures var c := CountRun(MarkRelease(p), ops, q, i); var behind := LeftBehind(MarkRelease(p), ops, q, i);
            && (c == Count(1, 1, 1) <==> !behind) && (q.frames[i].needRelease <==> behind)
            && (behind ==> c == Count(0, 0, 0) && p.sharing == Some(i))
  {
    MarkStarts(p, i);
    var m := MarkRelease(p);
    RunCounts(m, ops, q, i);
    RunStrays(m, ops, q, i);
    RunLegal(m, ops, q);
    RunBound(m, ops, q);
    SettledIs(q, i);
    if p.sharing != Some(i) {
      RunPunctual(m, ops, q, i);
    }
    hide Legal, Run, Stray, Settled, MarkRelease;
  }

  // ----- a run that leaves a frame behind

  lemma RunCons(p: Pool, op: Op, ops: seq<Op>, q: Pool)
    requires Legal(p) && InOrder(p, op) && Disciplined(p, op)
    requires Legal(Apply(p, op)) && Run(Apply(p, op), ops, q)
    ensures Run(p, [op] + ops, q)
  {
    hide Legal, Apply;
    assert ([op] + ops)[1..] == ops;
  }

  /** A pool whose one frame has a buffer from outside; the renderer has never had it. */
  function One(f: Frame, phase: Phase, sharing: Option<nat>): Pool {
    var valid: seq<nat> := if f.inValidQueue then [0] else [];
    var empty: seq<nat> := if Unused(f) then [0] else [];
    var late: set<nat> := if f.needRelease && phase == Idle && sharing.None? then {0} else {};
    var dropped := if late != {} && Unused(f) then 1 else 0;
    Pool([f], empty, valid, [], |empty|, |valid|, 0, if f.usedByDecoder then 1 else 0, 0, |valid| + dropped,
         true, 1, phase, sharing, 0, dropped, valid, [], late)
  }

  const HELD := Frame(true, false, false, false, false, 0, 7)

  /** The decoder gets the one frame and passes the test of a share. */
  lemma ShareIsTested(p: Pool)
    requires p == One(HELD, Idle, Some(0))
    ensures Legal(Create(1, true)) && Run(Create(1, true), [OpBind(7), OpRequestBuffer, OpShareTest(0)], p)
  {
    var p0, p1 := Create(1, true), One(HELD.(usedByDecoder := false), Idle, None);
    var p2 := One(HELD, Idle, None);
    CreateLegal(1, true);
    assert Apply(p0, OpBind(7)) == p1 by { assert p1.frames == p0.frames[0 := p1.frames[0]]; }
    assert Apply(p1, OpRequestBuffer) == p2 by { assert p2.frames == p1.frames[0 := HELD]; }
    assert Apply(p2, OpShareTest(0)) == p;
    hide Apply, One, Legal;
    RunOfThree(p0, OpBind(7), p1, OpRequestBuffer, p2, OpShareTest(0), p);
  }

  lemma RunOfThree(p0: Pool, op0: Op, p1: Pool, op1: Op, p2: Pool, op2: Op, p3: Pool)
    requires Legal(p0) && InOrder(p0, op0) && Disciplined(p0, op0) && Apply(p0, op0) == p1
    requires Legal(p1) ==> InOrder(p1, op1) && Disciplined(p1, op1) && Apply(p1, op1) == p2
    requires Legal(p2) ==> InOrder(p2, op2) && Disciplined(p2, op2) && Apply(p2, op2) == p3
    ensures Run(p0, [op0, op1, op2], p3)
  {
    ApplyLegal(p0, op0);
    ApplyLegal(p1, op1);
    ApplyLegal(p2, op2);
    hide FrameOk, Counted, NoDup, Apply;
    assert Run(p3, [], p3);
    RunCons(p2, op2, [], p3);
    RunCons(p1, op1, [op2] + [], p3);
    RunCons(p0, op0, [op1] + ([op2] + []), p3);
    assert [op0] + ([op1] + ([op2] + [])) == [op0, op1, op2];
  }

  const LATE_SHARE := [OpFlush, OpDrain, OpShareLocked, OpReturnBuffer(0, true), OpFlush]

  /** The frame after the locked half of the share, and after the decoder has returned it. */
  const QUEUED := HELD.(needRelease := true, inValidQueue := true)
  const WAITING := QUEUED.(usedByDecoder := false)
  const LEFT := WAITING.(inValidQueue := false)

  lemma ReleaseOfOne(m: Pool)
    requires m == One(HELD.(needRelease := true), Marked, Some(0))
    ensures InRange(m) && Flush(m) == One(HELD.(needRelease := true), Flushed, Some(0))
    ensures InRange(Flush(m)) && Drain(Flush(m)) == One(HELD.(needRelease := true), Idle, Some(0))
  {
  }

  lemma ShareOfOne(s: Pool)
    requires s == One(HELD.(needRelease := true), Idle, Some(0))
    ensures ShareLocked(s, 0) == One(QUEUED, Idle, None)
    ensures ReturnBuffer(One(QUEUED, Idle, None), 0, true) == One(WAITING, Idle, None)
  {
    assert [QUEUED] == s.frames[0 := QUEUED];
    assert [WAITING] == [QUEUED][0 := WAITING];
  }

  lemma SharedSteps(s: Pool, t: Pool, u: Pool, q: Pool)
    requires s == One(HELD.(needRelease := true), Idle, Some(0)) && q == One(LEFT, Idle, None)
    requires t == One(QUEUED, Idle, None) && u == One(WAITING, Idle, None)
    ensures InRange(s) && InOrder(s, OpShareLocked) && Disciplined(s, OpShareLocked) && Apply(s, OpShareLocked) == t
    ensures var op := OpReturnBuffer(0, true); InRange(t) && InOrder(t, op) && Disciplined(t, op) && Apply(t, op) == u
    ensures InRange(u) && InOrder(u, OpFlush) && Disciplined(u, OpFlush) && Apply(u, OpFlush) == q
  {
    ShareOfOne(s);
    FlushOfOne(u, q);
    hide Flush, ShareLocked, ReturnBuffer;
  }

  /** The locked half of the share, the return, and a flush. */
  lemma SharedRuns(s: Pool, q: Pool)
    requires s == One(HELD.(needRelease := true), Idle, Some(0)) && Legal(s) && q == One(LEFT, Idle, None)
    ensures Run(s, [OpShareLocked, OpReturnBuffer(0, true), OpFlush], q)
  {
    hide *;
    var t, u := One(QUEUED, Idle, None), One(WAITING, Idle, None);
    SharedSteps(s, t, u, q);
    RunOfThree(s, OpShareLocked, t, OpReturnBuffer(0, true), u, OpFlush, q);
  }

  lemma LateShareRuns(m: Pool, q: Pool)
    requires m == One(HELD.(needRelease := true), Marked, Some(0)) && Legal(m)
    requires q == One(LEFT, Idle, None)
    ensures Run(m, LATE_SHARE, q)
  {
    var s1, s2 := Flush(m), One(HELD.(needRelease := true), Idle, Some(0));
    ReleaseOfOne(m);
    FlushLegal(m);
    DrainLegal(s1);
    hide Legal, Flush, Drain, ShareLocked, ReturnBuffer, FrameOk, Counted, NoDup;
    var shared := [OpShareLocked, OpReturnBuffer(0, true), OpFlush];
    SharedRuns(s2, q);
    RunCons(s1, OpDrain, shared, q);
    RunCons(m, OpFlush, [OpDrain] + shared, q);
    assert [OpFlush] + ([OpDrain] + shared) == LATE_SHARE;
  }

  lemma FlushOfOne(s: Pool, q: Pool)
    requires s == One(WAITING, Idle, None) && q == One(LEFT, Idle, None)
    ensures InRange(s) && Flush(s) == q
  {
    assert q.frames == s.frames[0 := q.frames[0]];
    var t := ToEmpty(s.(valid := s.valid[1..], nValidPictureNum := 0, sent := s.shown + s.valid[1..], dropped := 1,
                        frames := s.frames[0 := q.frames[0]]), 0);
    assert InRange(t) && FlushQueue(s) == FlushQueue(t);
    assert FlushQueue(t) == t;
  }

  /**
   From a new pool: the decoder gets the one frame and passes the test of a share, the release call runs whole,
   the share goes on, the decoder returns the frame, and the pictures waiting are flushed. The frame is then
   empty with its old buffer; it was never in the release queue.
   */
  lemma LateShareIsLeftBehind(p: Pool, q: Pool)
    requires p == One(HELD, Idle, Some(0)) && q == One(LEFT, Idle, None)
    ensures Legal(Create(1, true)) && Run(Create(1, true), [OpBind(7), OpRequestBuffer, OpShareTest(0)], p)
    ensures Legal(p) && InOrder(p, OpMarkRelease) && Legal(MarkRelease(p)) && Run(MarkRelease(p), LATE_SHARE, q)
    ensures Settled(q) && LeftBehind(MarkRelease(p), LATE_SHARE, q, 0)
    ensures CountRun(MarkRelease(p), LATE_SHARE, q, 0) == Count(0, 0, 0)
  {
    hide Legal, Run, LeftBehind;
    ShareIsTested(p);
    RunLegal(Create(1, true), [OpBind(7), OpRequestBuffer, OpShareTest(0)], p);
    MarkReleaseLegal(p);
    var m := One(HELD.(needRelease := true), Marked, Some(0));
    assert MarkRelease(p) == m by { assert MarkRelease(p).frames == m.frames; }
    assert NoMark(LATE_SHARE) && q.frames[0].needRelease && Settled(q);
    LateShareRuns(m, q);
    hide MarkRelease, One, Settled, NoMark;
    ReleasedExactlyOnce(p, LATE_SHARE, q, 0);
  }

  lemma {:induction false} RunBound(p: Pool, ops: seq<Op>, q: Pool)
    requires Legal(p) && Run(p, ops, q)
    ensures p.bound <= q.bound && |q.frames| == |p.frames|
    decreases |ops|
  {
    hide FrameOk, Counted, NoDup, Apply;
    if ops != [] {
      ApplyLegal(p, ops[0]);
      ApplyBound(p, ops[0]);
      RunBound(Apply(p, ops[0]), ops[1..], q);
    }
  }

  lemma ApplyBound(p: Pool, op: Op)
    requires Legal(p) && InOrder(p, op)
    ensures p.bound <= Apply(p, op).bound && |Apply(p, op).frames| == |p.frames|
  {
    match op
    case OpFlush => FlushBound(p);
    case OpDrain => DrainBound(p);
    case OpReturnRelease(b) => ReturnBound(p, 0, b);
    case _ =>
  }

  lemma {:induction false} FlushBound(p: Pool)
    requires Legal(p)
    ensures FlushQueue(p).bound == p.bound && |FlushQueue(p).frames| == |p.frames|
    decreases |p.valid|
  {
    if p.valid != [] {
      FlushOneLegal(p);
      FlushBound(FlushOne(p));
    }
  }

  lemma {:induction false} DrainBound(p: Pool)
    requires Legal(p) && p.phase == Flushed
    ensures DrainQueue(p).bound == p.bound && |DrainQueue(p).frames| == |p.frames|
    decreases |p.empty|
  {
    if p.empty != [] {
      DrainOneLegal(p);
      DrainBound(DrainOne(p));
    }
  }

  lemma {:induction false} ReturnBound(p: Pool, from: nat, b: int)
    requires from <= |p.frames|
    ensures var q := ReturnReleaseFrom(p, from, b).0; q.bound == p.bound && |q.frames| == |p.frames|
    decreases |p.frames| - from
  {
    if from < |p.frames| && !AwaitsBuffer(p, from) {
      ReturnBound(p, from + 1, b);
    }
  }

  // ----- the whole call

  /** The three locked regions of a release call, with no other client between them. */
  ghost function ReleaseAll(p: Pool): (q: Pool)
    requires Legal(p) && InOrder(p, OpMarkRelease)
    ensures Legal(q)
  {
    MarkReleaseLegal(p);
    FlushQueueLegal(MarkRelease(p));
    FlushLegal(MarkRelease(p));
    DrainLegal(Flush(MarkRelease(p)));
    Drain(Flush(MarkRelease(p)))
  }

  /**
   After it every bound frame is to be released, and is in the release queue or given away unless somebody uses
   it.
   */
  lemma ReleaseAllStarts(p: Pool, i: nat)
    requires Legal(p) && InOrder(p, OpMarkRelease) && i < p.bound
    ensures var q := ReleaseAll(p);
            && q.bound == p.bound && |q.frames| == |p.frames| && q.frames[i].needRelease
            && (Stage(q, i) >= 1 <==> Unused(q.frames[i]))
            && q.empty == [] && q.valid == []
  {
    MarkReleaseLegal(p);
    var m := MarkRelease(p);
    FlushQueueLegal(m);
    FlushLegal(m);
    FlushUntouched(m, i);
    FlushBound(m);
    var f := Flush(m);
    DrainQueueLegal(f);
    DrainBound(f);
    DrainShown(f);
    DrainLegal(f);
    assert FrameOk(p, i);
    assert FrameOk(Drain(f), i);
    hide Legal, FlushQueue, DrainQueue, FrameOk;
  }
}
