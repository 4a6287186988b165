/** The frame buffer manager stays legal over every run of its two clients. */
module FbmProofs {
  import opened Common
  import opened NodeList
  import opened FbmPool

  // ----- counting, and queues without duplicates

  /** Two sets that differ at most in i differ in size by i's part. */
  lemma Exchange(a: set<int>, b: set<int>, i: int)
    requires forall j :: j != i ==> (j in a <==> j in b)
    ensures |b| == |a| + (if i in b then 1 else 0) - (if i in a then 1 else 0)
  {
    assert forall j :: j in a - {i} <==> j in b - {i};
    assert a - {i} == b - {i};
    assert |a| == |a - {i}| + if i in a then 1 else 0;
    assert |b| == |b - {i}| + if i in b then 1 else 0;
  }

  lemma DecodersUpdate(fs: seq<Frame>, i: nat, f: Frame)
    requires i < |fs|
    ensures |Decoders(fs[i := f])| ==
            |Decoders(fs)| + (if f.usedByDecoder then 1 else 0) - (if fs[i].usedByDecoder then 1 else 0)
  {
    Exchange(Decoders(fs), Decoders(fs[i := f]), i);
  }

  lemma RenderersUpdate(fs: seq<Frame>, i: nat, f: Frame)
    requires i < |fs|
    ensures |Renderers(fs[i := f])| ==
            |Renderers(fs)| + (if f.usedByRender then 1 else 0) - (if fs[i].usedByRender then 1 else 0)
  {
    Exchange(Renderers(fs), Renderers(fs[i := f]), i);
  }

  lemma Push(s: seq<nat>, x: nat)
    requires NoDup(s) && x !in s
    ensures NoDup(s + [x]) && forall y :: y in s + [x] <==> y in s || y == x
  {
  }

  lemma Pop(s: seq<nat>)
    requires NoDup(s) && s != []
    ensures NoDup(s[1..]) && forall y :: y in s[1..] <==> y in s && y != s[0]
  {
    assert s == [s[0]] + s[1..];
  }

  // ----- each operation keeps the pool legal

  lemma CreateLegal(n: nat, external: bool)
    requires n < FRM_RELEASE_TAG
    ensures Legal(Create(n, external))
  {
    var p := Create(n, external);
    assert Decoders(p.frames) == {} && Renderers(p.frames) == {};
    forall i | 0 <= i < n ensures FrameOk(p, i) {
      assert !external ==> p.empty[i] == i;
    }
  }

  lemma RequestBufferLegal(p: Pool)
    requires Legal(p)
    ensures Legal(RequestBuffer(p).0)
    ensures p.empty != [] ==> RequestBuffer(p).1 == Some(p.empty[0])
  {
    if p.empty != [] {
      var i := p.empty[0];
      assert i in p.empty && FrameOk(p, i);
      Pop(p.empty);
      var f := p.frames[i].(usedByDecoder := true);
      DecodersUpdate(p.frames, i, f);
      RenderersUpdate(p.frames, i, f);
      var q := RequestBuffer(p).0;
      forall j | 0 <= j < |q.frames| ensures FrameOk(q, j) {
        assert FrameOk(p, j);
      }
    }
  }

  /** The decoder lets go of a frame that is to be released. */
  lemma ReturnMarkedLegal(p: Pool, i: nat, b: bool)
    requires Legal(p) && InOrder(p, OpReturnBuffer(i, b)) && Disciplined(p, OpReturnBuffer(i, b))
    requires p.frames[i].needRelease && !p.frames[i].inValidQueue
    ensures Legal(ReturnBuffer(p, i, b))
  {
    hide Decoders, Renderers;
    var q := ReturnBuffer(p, i, b);
    assert FrameOk(p, i);
    if q != p {
      assert q.frames == p.frames[i := q.frames[i]];
      DecodersUpdate(p.frames, i, q.frames[i]);
      RenderersUpdate(p.frames, i, q.frames[i]);
      Push(p.release, i);
      forall j | 0 <= j < |q.frames| ensures FrameOk(q, j) {
        assert FrameOk(p, j);
      }
    }
  }

  lemma ReturnUnmarkedCounted(p: Pool, i: nat, b: bool)
    requires Legal(p) && InOrder(p, OpReturnBuffer(i, b)) && Disciplined(p, OpReturnBuffer(i, b))
    requires !p.frames[i].needRelease || p.frames[i].inValidQueue
    ensures Counted(ReturnBuffer(p, i, b))
  {
    assert FrameOk(p, i);
    hide Decoders, Renderers, FrameOk, NoDup;
    var q := ReturnBuffer(p, i, b);
    if q != p {
      assert q.frames == p.frames[i := q.frames[i]];
      DecodersUpdate(p.frames, i, q.frames[i]);
      RenderersUpdate(p.frames, i, q.frames[i]);
    }
  }

  lemma ReturnUnmarkedLegal(p: Pool, i: nat, b: bool)
    requires Legal(p) && InOrder(p, OpReturnBuffer(i, b)) && Disciplined(p, OpReturnBuffer(i, b))
    requires !p.frames[i].needRelease || p.frames[i].inValidQueue
    ensures Legal(ReturnBuffer(p, i, b))
  {
    ReturnUnmarkedCounted(p, i, b);
    hide Counted;
    var q := ReturnBuffer(p, i, b);
    assert FrameOk(p, i);
    if q != p {
      Push(p.empty, i);
      if !p.frames[i].inValidQueue {
        Push(p.valid, i);
      }
      forall j | 0 <= j < |q.frames| ensures FrameOk(q, j) {
        assert FrameOk(p, j);
      }
    }
  }

  lemma ReturnBufferLegal(p: Pool, i: nat, b: bool)
    requires Legal(p) && InOrder(p, OpReturnBuffer(i, b)) && Disciplined(p, OpReturnBuffer(i, b))
    ensures Legal(ReturnBuffer(p, i, b))
  {
    if p.frames[i].needRelease && !p.frames[i].inValidQueue {
      ReturnMarkedLegal(p, i, b);
    } else {
      ReturnUnmarkedLegal(p, i, b);
    }
  }

  lemma ShareTestLegal(p: Pool, i: nat)
    requires Legal(p) && i < |p.frames|
    ensures Legal(ShareTest(p, i).0)
  {
    var q := ShareTest(p, i).0;
    forall j | 0 <= j < |q.frames| ensures FrameOk(q, j) {
      assert FrameOk(p, j);
    }
  }

  lemma ShareLockedLegal(p: Pool)
    requires Legal(p) && InOrder(p, OpShareLocked) && Disciplined(p, OpShareLocked)
    ensures Legal(ShareLocked(p, p.sharing.value))
  {
    var i := p.sharing.value;
    var q := ShareLocked(p, i);
    assert FrameOk(p, i);
    if q == p.(sharing := None) {
      forall j | 0 <= j < |q.frames| ensures FrameOk(q, j) {
        assert FrameOk(p, j);
      }
    } else {
      assert q.frames == p.frames[i := q.frames[i]];
      DecodersUpdate(p.frames, i, q.frames[i]);
      RenderersUpdate(p.frames, i, q.frames[i]);
      Push(p.valid, i);
      forall j | 0 <= j < |q.frames| ensures FrameOk(q, j) {
        assert FrameOk(p, j);
      }
    }
  }

  lemma RequestPictureLegal(p: Pool)
    requires Legal(p)
    ensures Legal(RequestPicture(p).0)
    ensures p.valid != [] ==> RequestPicture(p).1 == Some(p.valid[0])
  {
    if p.valid != [] {
      var i := p.valid[0];
      assert i in p.valid && FrameOk(p, i);
      Pop(p.valid);
      var q := RequestPicture(p).0;
      DecodersUpdate(p.frames, i, q.frames[i]);
      RenderersUpdate(p.frames, i, q.frames[i]);
      forall j | 0 <= j < |q.frames| ensures FrameOk(q, j) {
        assert FrameOk(p, j);
      }
      assert p.shown + p.valid == q.shown + q.valid;
    }
  }

  lemma ReturnPictureLegal(p: Pool, i: nat)
    requires Legal(p) && i < |p.frames|
    ensures Legal(ReturnPicture(p, i))
  {
    var q := ReturnPicture(p, i);
    assert FrameOk(p, i);
    if q != p {
      assert q.frames == p.frames[i := q.frames[i]];
      DecodersUpdate(p.frames, i, q.frames[i]);
      RenderersUpdate(p.frames, i, q.frames[i]);
      Push(p.empty, i);
      Push(p.release, i);
      forall j | 0 <= j < |q.frames| ensures FrameOk(q, j) {
        assert FrameOk(p, j);
      }
    }
  }

  lemma BindLegal(p: Pool, b: int)
    requires Legal(p) && InOrder(p, OpBind(b))
    ensures Legal(Bind(p, b))
  {
    var i := p.bound;
    var q := Bind(p, b);
    assert FrameOk(p, i);
    DecodersUpdate(p.frames, i, q.frames[i]);
    RenderersUpdate(p.frames, i, q.frames[i]);
    Push(p.empty, i);
    forall j | 0 <= j < |q.frames| ensures FrameOk(q, j) {
      assert FrameOk(p, j);
    }
  }

  lemma MarkReleaseLegal(p: Pool)
    requires Legal(p) && InOrder(p, OpMarkRelease)
    ensures Legal(MarkRelease(p))
  {
    var q := MarkRelease(p);
    assert Decoders(q.frames) == Decoders(p.frames) && Renderers(q.frames) == Renderers(p.frames);
    forall j | 0 <= j < |q.frames| ensures FrameOk(q, j) {
      assert FrameOk(p, j);
    }
  }

  lemma RequestReleaseLegal(p: Pool)
    requires Legal(p)
    ensures Legal(RequestRelease(p).0)
  {
    if p.release != [] {
      var i := p.release[0];
      assert i in p.release && FrameOk(p, i);
      Pop(p.release);
      var q := RequestRelease(p).0;
      DecodersUpdate(p.frames, i, q.frames[i]);
      RenderersUpdate(p.frames, i, q.frames[i]);
      forall j | 0 <= j < |q.frames| ensures FrameOk(q, j) {
        assert FrameOk(p, j);
      }
    }
  }

  lemma ReturnReleaseLegal(p: Pool, from: nat, b: int)
    requires Legal(p) && from <= |p.frames| && InOrder(p, OpReturnRelease(b))
    ensures Legal(ReturnReleaseFrom(p, from, b).0)
    decreases |p.frames| - from
  {
    if from < |p.frames| && AwaitsBuffer(p, from) {
      assert FrameOk(p, from);
      var q := ReturnReleaseFrom(p, from, b).0;
      DecodersUpdate(p.frames, from, q.frames[from]);
      RenderersUpdate(p.frames, from, q.frames[from]);
      Push(p.empty, from);
      forall j | 0 <= j < |q.frames| ensures FrameOk(q, j) {
        assert FrameOk(p, j);
      }
    } else if from < |p.frames| {
      ReturnReleaseLegal(p, from + 1, b);
    }
  }

  /** One picture taken back by a flush. */
  function FlushOne(p: Pool): Pool
    requires InRange(p) && p.valid != []
  {
    var i := p.valid[0];
    var f := p.frames[i];
    var q := p.(valid := p.valid[1..], nValidPictureNum := p.nValidPictureNum - 1,
                sent := p.shown + p.valid[1..], dropped := p.dropped + 1);
    if f.usedByDecoder then q.(frames := q.frames[i := f.(inValidQueue := false, alreadyDisplayed := true)])
    else ToEmpty(q.(frames := q.frames[i := f.(inValidQueue := false)]), i)
  }

  lemma FlushOneLegal(p: Pool)
    requires Legal(p) && p.valid != []
    ensures Legal(FlushOne(p)) && FlushQueue(p) == FlushQueue(FlushOne(p))
  {
    hide Decoders, Renderers;
    var i := p.valid[0];
    assert i in p.valid && FrameOk(p, i);
    Pop(p.valid);
    Push(p.empty, i);
    var q := FlushOne(p);
    DecodersUpdate(p.frames, i, q.frames[i]);
    RenderersUpdate(p.frames, i, q.frames[i]);
    forall j | 0 <= j < |q.frames| ensures FrameOk(q, j) {
      assert FrameOk(p, j);
    }
  }

  lemma {:induction false} FlushQueueLegal(p: Pool)
    requires Legal(p)
    ensures var q := FlushQueue(p);
            && Legal(q) && q.valid == [] && q.phase == p.phase
            && q.shown == p.shown && q.release == p.release && |q.frames| == |p.frames|
    decreases |p.valid|
  {
    if p.valid != [] {
      FlushOneLegal(p);
      FlushQueueLegal(FlushOne(p));
    }
  }

  /** A flush leaves nothing waiting for display, and nothing shown is forgotten. */
  lemma FlushLegal(p: Pool)
    requires Legal(p)
    ensures var q := Flush(p); Legal(q) && q.valid == [] && q.sent == q.shown == p.shown
  {
    FlushQueueLegal(p);
    var q := FlushQueue(p);
    var r := Flush(p);
    forall j | 0 <= j < |r.frames| ensures FrameOk(r, j) {
      assert FrameOk(q, j);
    }
  }

  function DrainOne(p: Pool): Pool
    requires InRange(p) && p.empty != []
  {
    ToRelease(p.(empty := p.empty[1..], nEmptyBufferNum := p.nEmptyBufferNum - 1), p.empty[0])
  }

  lemma DrainOneLegal(p: Pool)
    requires Legal(p) && p.phase == Flushed && p.empty != []
    ensures Legal(DrainOne(p)) && DrainQueue(p) == DrainQueue(DrainOne(p))
  {
    var i := p.empty[0];
    assert i in p.empty && FrameOk(p, i);
    Pop(p.empty);
    Push(p.release, i);
    var q := DrainOne(p);
    forall j | 0 <= j < |q.frames| ensures FrameOk(q, j) {
      assert FrameOk(p, j);
    }
  }

  lemma {:induction false} DrainQueueLegal(p: Pool)
    requires Legal(p) && p.phase == Flushed
    ensures var q := DrainQueue(p); Legal(q) && q.empty == [] && q.phase == Flushed && q.frames == p.frames
    decreases |p.empty|
  {
    if p.empty != [] {
      DrainOneLegal(p);
      DrainQueueLegal(DrainOne(p));
    }
  }

  lemma DrainLegal(p: Pool)
    requires Legal(p) && p.phase == Flushed
    ensures Legal(Drain(p))
  {
    DrainQueueLegal(p);
    var q := DrainQueue(p);
    var r := Drain(p);
    forall j | 0 <= j < |r.frames| ensures FrameOk(r, j) {
      assert FrameOk(q, j);
    }
  }

  // ----- whole runs

  /** Every disciplined step, by whichever client, keeps the pool legal. */
  lemma ApplyLegal(p: Pool, op: Op)
    requires Legal(p) && InOrder(p, op) && Disciplined(p, op)
    ensures Legal(Apply(p, op))
  {
    hide Legal, RequestBuffer, ReturnBuffer, ShareTest, ShareLocked, RequestPicture, ReturnPicture, Flush, Bind;
    hide MarkRelease;
    hide Drain, RequestRelease;
    match op
    case OpRequestBuffer => RequestBufferLegal(p);
    case OpReturnBuffer(i, b) => ReturnBufferLegal(p, i, b);
    case OpShareTest(i) => ShareTestLegal(p, i);
    case OpShareLocked => ShareLockedLegal(p);
    case OpRequestPicture => RequestPictureLegal(p);
    case OpReturnPicture(i) => ReturnPictureLegal(p, i);
    case OpFlush => FlushLegal(p);
    case OpBind(b) => BindLegal(p, b);
    case OpMarkRelease => MarkReleaseLegal(p);
    case OpDrain => DrainLegal(p);
    case OpRequestRelease => RequestReleaseLegal(p);
    case OpReturnRelease(b) => ReturnReleaseLegal(p, 0, b);
  }

  /** The discipline is exactly what is needed: one undisciplined call, and the pool is no longer legal. */
  lemma DisciplineIsExact(p: Pool, op: Op)
    requires Legal(p) && InOrder(p, op)
    ensures Legal(Apply(p, op)) <==> Disciplined(p, op)
  {
    if Disciplined(p, op) {
      ApplyLegal(p, op);
    } else {
      var i := if op.OpShareLocked? then p.sharing.value else op.i;
      var q := Apply(p, op);
      assert FrameOk(p, i);
      if op.OpShareLocked? {
        assert q.frames[i].inValidQueue && q.frames[i].usedByRender;
      } else {
        assert q.release[|p.release|] == i;
        assert i in q.release && q.frames[i].usedByRender;
      }
      assert !FrameOk(q, i);
    }
  }

  ghost predicate Run(p: Pool, ops: seq<Op>, q: Pool)
    requires Legal(p)
    decreases |ops|
  {
    if ops == [] then q == p
    else InOrder(p, ops[0]) && Disciplined(p, ops[0])
         && (ApplyLegal(p, ops[0]); Run(Apply(p, ops[0]), ops[1..], q))
  }

  /** Over every run: seven states, queues that are what the flags say, exact counts. */
  lemma {:induction false} RunLegal(p: Pool, ops: seq<Op>, q: Pool)
    requires Legal(p) && Run(p, ops, q)
    ensures Legal(q)
    decreases |ops|
  {
    if ops != [] {
      ApplyLegal(p, ops[0]);
      RunLegal(Apply(p, ops[0]), ops[1..], q);
    }
  }

  /** The status checks that only log an error never fire. */
  lemma ChecksNeverFire(p: Pool, i: nat)
    requires Legal(p) && i < |p.frames|
    ensures p.empty != [] ==> !AnyFlag(p.frames[p.empty[0]])
    ensures p.valid != [] ==> var f := p.frames[p.valid[0]]; f.inValidQueue && !f.usedByRender && !f.alreadyDisplayed
    ensures var f := p.frames[i];
            && (f.usedByDecoder ==> IdMatches(p, i) && !(f.inValidQueue && (f.usedByRender || f.alreadyDisplayed)))
            && (f.usedByRender ==> IdMatches(p, i) && !f.inValidQueue && !f.alreadyDisplayed)
  {
    assert FrameOk(p, i);
    if p.empty != [] {
      assert p.empty[0] in p.empty && FrameOk(p, p.empty[0]);
    }
    if p.valid != [] {
      assert p.valid[0] in p.valid && FrameOk(p, p.valid[0]);
    }
  }

  // ----- display order

  /** No step takes back or reorders what the renderer was shown; what it is shown next is the oldest picture sent. */
  lemma ShownGrows(p: Pool, op: Op)
    requires Legal(p) && InOrder(p, op) && Disciplined(p, op)
    ensures var q := Apply(p, op);
            && p.shown <= q.shown <= p.shown + p.valid
            && (q.shown != p.shown ==>
                  && op == OpRequestPicture && RequestPicture(p).1 == Some(p.valid[0])
                  && q.shown == p.shown + [p.valid[0]])
            && (op != OpFlush ==> p.sent <= q.sent)
  {
    match op
    case OpRequestPicture => RequestPictureLegal(p);
    case OpFlush => FlushLegal(p);
    case OpDrain => DrainShown(p);
    case OpReturnRelease(b) => ReturnReleaseShown(p, 0, b);
    case _ =>
  }

  lemma {:induction false} DrainShown(p: Pool)
    requires InRange(p)
    ensures var q := DrainQueue(p); q.shown == p.shown && q.sent == p.sent && q.frames == p.frames && q.valid == p.valid
    decreases |p.empty|
  {
    if p.empty != [] && !AnyFlag(p.frames[p.empty[0]]) {
      DrainShown(DrainOne(p));
    }
  }

  lemma ReturnReleaseShown(p: Pool, from: nat, b: int)
    requires from <= |p.frames|
    ensures var q := ReturnReleaseFrom(p, from, b).0; q.shown == p.shown && q.sent == p.sent && q.valid == p.valid
    decreases |p.frames| - from
  {
    if from < |p.frames| && !AwaitsBuffer(p, from) {
      ReturnReleaseShown(p, from + 1, b);
    }
  }

  // ----- reclamation

  /** When the clients hold nothing and nothing waits for display, every frame is back. */
  lemma AllReclaimed(p: Pool, i: nat)
    requires Legal(p) && p.valid == [] && i < p.bound
    requires forall j :: 0 <= j < |p.frames| ==> !p.frames[j].usedByDecoder && !p.frames[j].usedByRender
    ensures !p.frames[i].needRelease ==> i in p.empty && Unused(p.frames[i])
    ensures p.frames[i].needRelease && p.phase == Idle ==>
              i in p.release || Tagged(p.frames[i]) || (i in p.empty && i in p.late)
    ensures p.nDecoderHoldingNum == p.leaks && p.nRenderHoldingNum == 0
  {
    assert FrameOk(p, i);
    assert Decoders(p.frames) == {} && Renderers(p.frames) == {};
  }

  // ----- what one call does, flag by flag

  /** Where a frame goes that the decoder gives back. */
  lemma ReturnBufferExactly(p: Pool, i: nat, validPicture: bool)
    requires Legal(p) && i < |p.frames|
    ensures var f := p.frames[i]; var q := ReturnBuffer(p, i, validPicture);
            if !f.usedByDecoder then q == p
            else
              && q.frames == p.frames[i := q.frames[i]] && q.shown == p.shown
              && if f.needRelease && !f.inValidQueue then
                   && q.frames[i] == f.(usedByDecoder := false, alreadyDisplayed := false)
                   && q.release == p.release + [i] && q.empty == p.empty && q.valid == p.valid && q.sent == p.sent
                   && q.nDecoderHoldingNum == p.nDecoderHoldingNum
                 else
                   && q.nDecoderHoldingNum == p.nDecoderHoldingNum - 1 && q.release == p.release
                   && if f.inValidQueue || f.usedByRender then
                        && q.frames[i] == f.(usedByDecoder := false)
                        && q.empty == p.empty && q.valid == p.valid && q.sent == p.sent
                      else if validPicture && !f.alreadyDisplayed then
                        && q.frames[i] == f.(usedByDecoder := false, inValidQueue := true)
                        && q.valid == p.valid + [i] && q.sent == p.sent + [i] && q.empty == p.empty
                      else
                        && q.frames[i] == f.(usedByDecoder := false, alreadyDisplayed := false)
                        && q.empty == p.empty + [i] && q.valid == p.valid && q.sent == p.sent
  {
    assert FrameOk(p, i);
    hide Legal, FrameOk, Decoders, Renderers;
  }

  /** A client gets the frame at the front of a queue; the renderer's getting it is noted. */
  lemma RequestsExactly(p: Pool)
    requires Legal(p)
    ensures p.empty != [] ==>
              var i := p.empty[0]; var (q, frame) := RequestBuffer(p);
              && frame == Some(i) && q.frames == p.frames[i := p.frames[i].(usedByDecoder := true)]
              && q.empty == p.empty[1..] && q.nDecoderHoldingNum == p.nDecoderHoldingNum + 1
    ensures p.valid != [] ==>
              var i := p.valid[0]; var (q, frame) := RequestPicture(p);
              && frame == Some(i) && q.valid == p.valid[1..] && q.shown == p.shown + [i]
              && q.frames == p.frames[i := p.frames[i].(inValidQueue := false, usedByRender := true)]
              && q.nRenderHoldingNum == p.nRenderHoldingNum + 1
    ensures p.release != [] ==>
              var i := p.release[0]; var (q, frame) := RequestRelease(p);
              && frame == Some(i) && q.release == p.release[1..]
              && q.frames == p.frames[i := p.frames[i].(nID := 0xee)]
    ensures p.empty == [] ==> RequestBuffer(p) == (p, None)
    ensures p.valid == [] ==> RequestPicture(p) == (p, None)
    ensures p.release == [] ==> RequestRelease(p) == (p, None)
  {
    RequestBufferLegal(p);
    RequestPictureLegal(p);
    hide Legal;
  }

  /** The locked half of a share queues the frame, once; the decoder keeps it. */
  lemma ShareLockedExactly(p: Pool, i: nat)
    requires Legal(p) && i < |p.frames|
    ensures var f := p.frames[i]; var q := ShareLocked(p, i);
            && q.empty == p.empty && q.release == p.release && q.nDecoderHoldingNum == p.nDecoderHoldingNum
            && if f.usedByDecoder && !f.inValidQueue && !f.alreadyDisplayed then
                 q.valid == p.valid + [i] && q.sent == p.sent + [i] && q.frames == p.frames[i := q.frames[i]]
                 && q.frames[i] == f.(inValidQueue := true)
               else q.valid == p.valid && q.sent == p.sent && q.frames == p.frames
  {
  }

  /** Where a frame goes that the renderer gives back. */
  lemma ReturnPictureExactly(p: Pool, i: nat)
    requires Legal(p) && i < |p.frames|
    ensures var f := p.frames[i]; var q := ReturnPicture(p, i);
            if !f.usedByRender then q == p
            else
              && q.frames == p.frames[i := f.(usedByRender := false, alreadyDisplayed := f.usedByDecoder)]
              && q.valid == p.valid && q.shown == p.shown && q.nRenderHoldingNum == p.nRenderHoldingNum - 1
              && if f.usedByDecoder then q.empty == p.empty && q.release == p.release
                 else if f.needRelease then q.release == p.release + [i] && q.empty == p.empty
                 else q.empty == p.empty + [i] && q.release == p.release
  {
    assert FrameOk(p, i);
    hide Legal, FrameOk, Decoders, Renderers;
  }

  /** A buffer from outside is bound to the next slot, which is then empty. */
  lemma BindExactly(p: Pool, b: int)
    requires p.bound < |p.frames|
    ensures var q := Bind(p, b); var i := p.bound;
            && q.bound == i + 1 && q.empty == p.empty + [i]
            && q.frames == p.frames[i := p.frames[i].(nBufId := b, nID := i)]
  {
  }

  /** The first slot whose buffer was given away takes the new one and is empty; without such a slot nothing happens. */
  lemma {:induction false} ReturnReleaseExactly(p: Pool, from: nat, b: int)
    requires from <= |p.frames|
    ensures var (q, taken) := ReturnReleaseFrom(p, from, b);
            match taken {
              case Some(i) =>
                && from <= i < |p.frames| == |q.frames| && p.frames[i].needRelease && p.frames[i].nID == 0xee
                && (forall j :: from <= j < i ==> !(p.frames[j].needRelease && p.frames[j].nID == 0xee))
                && q.frames == p.frames[i := p.frames[i].(nBufId := b, needRelease := false, nID := i)]
                && q.empty == p.empty + [i]
              case None =>
                q == p && forall j :: from <= j < |p.frames| ==> !(p.frames[j].needRelease && p.frames[j].nID == 0xee)
            }
    decreases |p.frames| - from
  {
    if from < |p.frames| && !AwaitsBuffer(p, from) {
      ReturnReleaseExactly(p, from + 1, b);
    }
  }

  // ----- the renderer is shown what was shared or returned as valid

  /** The frame a call of the decoder puts up for display, as its flags say. */
  function PutUp(p: Pool, op: Op): seq<nat>
    requires InOrder(p, op)
  {
    match op
    case OpShareLocked =>
      var f := p.frames[p.sharing.value];
      if f.usedByDecoder && !f.inValidQueue && !f.alreadyDisplayed then [p.sharing.value] else []
    case OpReturnBuffer(i, validPicture) =>
      var f := p.frames[i];
      if validPicture && f.usedByDecoder && !f.inValidQueue && !f.usedByRender && !f.alreadyDisplayed && !f.needRelease
      then [i] else []
    case _ => []
  }

  /** The frame a call hands to the renderer. */
  function HandedOut(p: Pool, op: Op): seq<nat>
    requires InRange(p)
  {
    if op.OpRequestPicture? && RequestPicture(p).1.Some? then [RequestPicture(p).1.value] else []
  }

  lemma StepShows(p: Pool, op: Op)
    requires Legal(p) && InOrder(p, op) && !op.OpFlush?
    ensures var q := Apply(p, op);
            HandedOut(p, op) + q.valid == p.valid + PutUp(p, op) && q.sent == p.sent + PutUp(p, op)
  {
    hide FrameOk, Counted, NoDup;
    match op
    case OpReturnBuffer(i, b) =>
      ReturnBufferExactly(p, i, b);
      hide ReturnBuffer, Legal;
    case OpShareLocked =>
      ShareLockedExactly(p, p.sharing.value);
      hide ShareLocked, Legal;
    case OpRequestPicture =>
      RequestPictureLegal(p);
      if p.valid != [] {
        assert [p.valid[0]] + p.valid[1..] == p.valid;
      }
    case OpDrain => DrainShown(p);
    case OpReturnRelease(b) => ReturnReleaseShown(p, 0, b);
    case _ =>
  }

  // ----- runs between flushes

  predicate NoFlush(ops: seq<Op>) {
    forall k :: 0 <= k < |ops| ==> !ops[k].OpFlush?
  }

  ghost function AllPutUp(p: Pool, ops: seq<Op>, q: Pool): seq<nat>
    requires Legal(p) && Run(p, ops, q)
    decreases |ops|
  {
    if ops == [] then [] else
      ApplyLegal(p, ops[0]);
      PutUp(p, ops[0]) + AllPutUp(Apply(p, ops[0]), ops[1..], q)
  }

  ghost function AllHandedOut(p: Pool, ops: seq<Op>, q: Pool): seq<nat>
    requires Legal(p) && Run(p, ops, q)
    decreases |ops|
  {
    if ops == [] then [] else
      ApplyLegal(p, ops[0]);
      HandedOut(p, ops[0]) + AllHandedOut(Apply(p, ops[0]), ops[1..], q)
  }

  /**
   Between flushes the renderer is handed exactly the frames that were shared, or returned as valid without having
   been shared, in that order; what it has not been handed yet waits.
   */
  lemma {:induction false} RunShows(p: Pool, ops: seq<Op>, q: Pool)
    requires Legal(p) && Run(p, ops, q) && NoFlush(ops)
    ensures AllHandedOut(p, ops, q) + q.valid == p.valid + AllPutUp(p, ops, q)
    decreases |ops|
  {
    hide FrameOk, Counted, NoDup, Apply, PutUp, HandedOut;
    if ops == [] {
      var none: seq<nat> := [];
      assert none + q.valid == p.valid + none;
    } else {
      var op, next := ops[0], Apply(p, ops[0]);
      ApplyLegal(p, op);
      StepShows(p, op);
      assert NoFlush(ops[1..]);
      RunShows(next, ops[1..], q);
      Append(HandedOut(p, op), AllHandedOut(next, ops[1..], q), q.valid);
      Append(HandedOut(p, op), next.valid, AllPutUp(next, ops[1..], q));
      Append(p.valid, PutUp(p, op), AllPutUp(next, ops[1..], q));
    }
  }

  // ----- each picture is shown once

  /** The frame waits for display, or the decoder holds it and has not put it up. */
  predicate ToBeShown(p: Pool, i: nat)
    requires i < |p.frames|
  {
    var f := p.frames[i];
    f.inValidQueue || (f.usedByDecoder && !f.usedByRender && !f.alreadyDisplayed)
  }

  function AsNat(b: bool): nat {
    if b then 1 else 0
  }

  lemma {:induction false} FlushShows(p: Pool, i: nat)
    requires Legal(p) && i < |p.frames|
    ensures var q := FlushQueue(p); |q.frames| == |p.frames| && (ToBeShown(q, i) ==> ToBeShown(p, i))
    decreases |p.valid|
  {
    if p.valid != [] {
      assert p.valid[0] in p.valid && FrameOk(p, p.valid[0]);
      FlushOneLegal(p);
      FlushShows(FlushOne(p), i);
    }
  }

  lemma {:induction false} ReturnReleaseKeeps(p: Pool, from: nat, b: int, i: nat)
    requires from <= |p.frames| && i < |p.frames|
    ensures var q := ReturnReleaseFrom(p, from, b).0; |q.frames| == |p.frames| && ToBeShown(q, i) == ToBeShown(p, i)
    decreases |p.frames| - from
  {
    if from < |p.frames| && !AwaitsBuffer(p, from) {
      ReturnReleaseKeeps(p, from + 1, b, i);
    }
  }

  lemma ReturnBufferShows(p: Pool, j: nat, b: bool, i: nat)
    requires Legal(p) && i < |p.frames| && j < |p.frames|
    ensures var q := ReturnBuffer(p, j, b); |q.frames| == |p.frames| && (ToBeShown(q, i) ==> ToBeShown(p, i))
  {
    assert FrameOk(p, j);
    hide Legal, FrameOk;
  }

  lemma ReturnPictureShows(p: Pool, j: nat, i: nat)
    requires Legal(p) && i < |p.frames| && j < |p.frames|
    ensures var q := ReturnPicture(p, j); |q.frames| == |p.frames| && (ToBeShown(q, i) ==> ToBeShown(p, i))
  {
    assert FrameOk(p, j);
    hide Legal, FrameOk;
  }

  lemma RequestPictureShows(p: Pool, i: nat)
    requires Legal(p) && i < |p.frames|
    ensures var q := RequestPicture(p).0;
            && |q.frames| == |p.frames|
            && AsNat(i in HandedOut(p, OpRequestPicture)) + AsNat(ToBeShown(q, i)) <= AsNat(ToBeShown(p, i))
  {
    if p.valid != [] {
      assert p.valid[0] in p.valid && FrameOk(p, p.valid[0]);
      hide Legal, FrameOk;
    }
  }

  lemma RequestBufferShows(p: Pool, i: nat)
    requires Legal(p) && i < |p.frames|
    ensures var (q, frame) := RequestBuffer(p);
            |q.frames| == |p.frames| && (ToBeShown(q, i) ==> ToBeShown(p, i) || frame == Some(i))
  {
    if p.empty != [] {
      assert p.empty[0] in p.empty && FrameOk(p, p.empty[0]);
      hide Legal, FrameOk;
    }
  }

  /** The frame a call gives to the decoder. */
  function GivenOut(p: Pool, op: Op): seq<nat>
    requires InRange(p)
  {
    if op.OpRequestBuffer? && RequestBuffer(p).1.Some? then [RequestBuffer(p).1.value] else []
  }

  lemma StepShowsOnce(p: Pool, op: Op, i: nat)
    requires Legal(p) && InOrder(p, op) && Disciplined(p, op) && i < |p.frames|
    ensures var q := Apply(p, op);
            && |q.frames| == |p.frames|
            && AsNat(i in HandedOut(p, op)) + AsNat(ToBeShown(q, i)) <=
               AsNat(ToBeShown(p, i)) + AsNat(i in GivenOut(p, op))
  {
    hide FrameOk, Counted, NoDup;
    match op
    case OpRequestBuffer =>
      RequestBufferShows(p, i);
      hide ToBeShown, Legal;
    case OpReturnBuffer(j, b) =>
      ReturnBufferShows(p, j, b, i);
      hide ToBeShown, Legal;
    case OpReturnPicture(j) =>
      ReturnPictureShows(p, j, i);
      hide ToBeShown, Legal;
    case OpRequestPicture =>
      RequestPictureShows(p, i);
      hide ToBeShown, Legal;
    case OpFlush =>
      FlushShows(p, i);
    case OpDrain => DrainShown(p);
    case OpReturnRelease(b) => ReturnReleaseKeeps(p, 0, b, i);
    case _ =>
  }

  ghost function AllGivenOut(p: Pool, ops: seq<Op>, q: Pool): seq<nat>
    requires Legal(p) && Run(p, ops, q)
    decreases |ops|
  {
    if ops == [] then [] else
      ApplyLegal(p, ops[0]);
      GivenOut(p, ops[0]) + AllGivenOut(Apply(p, ops[0]), ops[1..], q)
  }

  /** Over any run, flushes included, the renderer gets a frame at most once each time the decoder has got it. */
  lemma {:induction false} RunShowsOnce(p: Pool, ops: seq<Op>, q: Pool, i: nat)
    requires Legal(p) && Run(p, ops, q) && i < |p.frames|
    ensures |q.frames| == |p.frames|
    ensures multiset(AllHandedOut(p, ops, q))[i] + AsNat(ToBeShown(q, i)) <=
            AsNat(ToBeShown(p, i)) + multiset(AllGivenOut(p, ops, q))[i]
    decreases |ops|
  {
    hide FrameOk, Counted, NoDup, Apply, ToBeShown;
    if ops != [] {
      var op, next := ops[0], Apply(p, ops[0]);
      ApplyLegal(p, op);
      StepShowsOnce(p, op, i);
      RunShowsOnce(next, ops[1..], q, i);
      CountHead(HandedOut(p, op), AllHandedOut(next, ops[1..], q), i);
      CountHead(GivenOut(p, op), AllGivenOut(next, ops[1..], q), i);
    }
  }

  lemma CountHead(a: seq<nat>, b: seq<nat>, i: nat)
    requires |a| <= 1
    ensures multiset(a + b)[i] == AsNat(i in a) + multiset(b)[i]
  {
    assert a == [] || a == [a[0]];
  }

  // ----- queues are served in order

  /** Frames leave each queue at its front only and join it behind the others; a draining moves them as they are. */
  lemma QueuesAreServedInOrder(p: Pool, op: Op)
    requires Legal(p) && InOrder(p, op)
    ensures var q := Apply(p, op);
            && p.empty[if op.OpRequestBuffer? && p.empty != [] then 1 else if op.OpDrain? then |p.empty| else 0..]
               <= q.empty
            && p.release[if op.OpRequestRelease? && p.release != [] then 1 else 0..] <= q.release
            && (op.OpDrain? ==> q.release == p.release + p.empty)
            && (op.OpRequestBuffer? && p.empty != [] ==> RequestBuffer(p).1 == Some(p.empty[0]))
            && (op.OpRequestRelease? && p.release != [] ==> RequestRelease(p).1 == Some(p.release[0]))
  {
    match op
    case OpRequestBuffer => RequestBufferLegal(p);
    case OpReturnBuffer(i, b) => ReturnBufferExactly(p, i, b);
    case OpFlush => FlushServes(p);
    case OpDrain => DrainServes(p);
    case OpReturnRelease(b) => ReturnReleaseServes(p, 0, b);
    case _ =>
  }

  lemma {:induction false} FlushServes(p: Pool)
    requires Legal(p)
    ensures p.empty <= FlushQueue(p).empty && FlushQueue(p).release == p.release
    decreases |p.valid|
  {
    if p.valid != [] {
      FlushOneLegal(p);
      FlushServes(FlushOne(p));
    }
  }

  /** The frames of a list that the decoder does not hold. */
  function LetGo(fs: seq<Frame>, v: seq<nat>): seq<nat>
    requires forall k :: 0 <= k < |v| ==> v[k] < |fs|
  {
    if v == [] then [] else (if fs[v[0]].usedByDecoder then [] else [v[0]]) + LetGo(fs, v[1..])
  }

  lemma {:induction false} SameLetGo(fs: seq<Frame>, gs: seq<Frame>, v: seq<nat>)
    requires |gs| == |fs| && forall i :: 0 <= i < |fs| ==> gs[i].usedByDecoder == fs[i].usedByDecoder
    requires forall k :: 0 <= k < |v| ==> v[k] < |fs|
    ensures LetGo(fs, v) == LetGo(gs, v)
    decreases |v|
  {
    if v != [] {
      SameLetGo(fs, gs, v[1..]);
    }
  }

  /** A frame taken back by a flush: one the decoder holds is not to be displayed when it comes back. */
  function TakenBack(f: Frame): Frame {
    f.(inValidQueue := false, alreadyDisplayed := f.usedByDecoder)
  }

  /** A flush empties the valid queue: frames nobody uses are empty, in their order, the others count as displayed. */
  lemma {:induction false} FlushExactly(p: Pool)
    requires Legal(p)
    ensures var q := FlushQueue(p);
            && q.valid == [] && q.empty == p.empty + LetGo(p.frames, p.valid) && q.release == p.release
            && q.shown == p.shown == q.sent && |q.frames| == |p.frames|
            && forall i :: 0 <= i < |p.frames| ==>
                             q.frames[i] == if i in p.valid then TakenBack(p.frames[i]) else p.frames[i]
    decreases |p.valid|
  {
    if p.valid == [] {
      NothingSent(p);
    } else {
      var i, next := p.valid[0], FlushOne(p);
      FlushOneIs(p, next);
      FlushOneLegal(p);
      FlushExactly(next);
      hide Legal, FlushOne, FlushQueue;
      SameLetGo(p.frames, next.frames, p.valid[1..]);
      Append(p.empty, if p.frames[i].usedByDecoder then [] else [i], LetGo(p.frames, p.valid[1..]));
    }
  }

  lemma NothingSent(p: Pool)
    requires Legal(p) && p.valid == []
    ensures p.sent == p.shown
  {
  }

  lemma FlushOneIs(p: Pool, q: Pool)
    requires Legal(p) && p.valid != [] && q == FlushOne(p)
    ensures var i := p.valid[0];
            && i < |p.frames| && q.valid == p.valid[1..] && q.release == p.release && q.shown == p.shown
            && q.frames == p.frames[i := TakenBack(p.frames[i])] && i !in p.valid[1..]
            && q.empty == p.empty + if p.frames[i].usedByDecoder then [] else [i]
  {
    assert p.valid[0] in p.valid && FrameOk(p, p.valid[0]);
    Pop(p.valid);
  }

  lemma {:induction false} DrainServes(p: Pool)
    requires Legal(p) && p.phase == Flushed
    ensures DrainQueue(p).release == p.release + p.empty && DrainQueue(p).frames == p.frames
    decreases |p.empty|
  {
    if p.empty != [] {
      DrainOneLegal(p);
      DrainServes(DrainOne(p));
      assert p.release + p.empty == p.release + [p.empty[0]] + p.empty[1..];
    }
  }

  lemma {:induction false} ReturnReleaseServes(p: Pool, from: nat, b: int)
    requires from <= |p.frames|
    ensures var q := ReturnReleaseFrom(p, from, b).0; p.empty <= q.empty && q.release == p.release
    decreases |p.frames| - from
  {
    if from < |p.frames| && !AwaitsBuffer(p, from) {
      ReturnReleaseServes(p, from + 1, b);
    }
  }

  // ----- what the counters leave out

  /** A flush takes pictures off the valid queue without counting them down from those waiting for display. */
  lemma FlushCounts(p: Pool)
    requires Legal(p)
    ensures var q := Flush(p);
            && q.nWaitForDispNum == p.nWaitForDispNum && q.nValidPictureNum == p.nValidPictureNum - |p.valid| == 0
            && q.nDecoderHoldingNum == p.nDecoderHoldingNum && q.nRenderHoldingNum == p.nRenderHoldingNum
  {
    FlushQueueLegal(p);
    FlushKeepsCounts(p);
  }

  lemma {:induction false} FlushKeepsCounts(p: Pool)
    requires Legal(p)
    ensures var q := FlushQueue(p);
            && q.nWaitForDispNum == p.nWaitForDispNum
            && q.nDecoderHoldingNum == p.nDecoderHoldingNum && q.nRenderHoldingNum == p.nRenderHoldingNum
    decreases |p.valid|
  {
    if p.valid != [] {
      FlushOneLegal(p);
      FlushKeepsCounts(FlushOne(p));
    }
  }
}
