/**
 The frame buffer manager between two locked regions, as a value. A decoder and a
 renderer drive it independently and may hold the same frame at once.
 */
module FbmPool {
  import opened Common
  import opened NodeList

  const FRM_RELEASE_TAG := 0xee
  const FBM_NEW_DISP_INVALID_TAG := 0xdd

  datatype Frame = Frame(usedByDecoder: bool, usedByRender: bool, inValidQueue: bool, alreadyDisplayed: bool,
                         needRelease: bool, nID: int, nBufId: int)

  /** Where a call of FbmSetNewDispRelease is: it marks, flushes and drains in three locked regions. */
  datatype Phase = Idle | Marked | Flushed

  /**
   The three queues hold frame indices. `bound` frames have a buffer. `sharing` is the frame with which the
   decoder has passed the test FbmShareBuffer makes before it takes the lock. The last five fields are
   history: early release exits of the decoder, pictures flushed unseen, pictures ever queued for display and
   not flushed, pictures handed to the renderer, and frames shared although a marking came between that test
   and the lock, until they get a new buffer.
   */
  datatype Pool = Pool(frames: seq<Frame>, empty: seq<nat>, valid: seq<nat>, release: seq<nat>,
                       nEmptyBufferNum: int, nValidPictureNum: int, nReleaseBufferNum: int,
                       nDecoderHoldingNum: int, nRenderHoldingNum: int, nWaitForDispNum: int,
                       external: bool, bound: nat, phase: Phase, sharing: Option<nat>,
                       leaks: nat, dropped: nat, sent: seq<nat>, shown: seq<nat>, late: set<nat>)

  function Clear(i: nat): Frame {
    Frame(false, false, false, false, false, i, FBM_NEW_DISP_INVALID_TAG)
  }

  /** n frames: their buffers either come with the pool or are bound one by one from outside. */
  function Create(n: nat, external: bool): Pool {
    var fs := seq(n, i requires 0 <= i < n => Clear(i));
    var ids: seq<nat> := if external then [] else seq(n, i requires 0 <= i < n => i as nat);
    Pool(fs, ids, [], [], |ids|, 0, 0, 0, 0, 0, external, |ids|, Idle, None, 0, 0, [], [], {})
  }

  // ----- the operations, branch by branch

  predicate AnyFlag(f: Frame) {
    f.usedByDecoder || f.inValidQueue || f.usedByRender || f.alreadyDisplayed
  }

  function RequestBuffer(p: Pool): (Pool, Option<nat>)
    requires InRange(p)
  {
    if p.empty == [] then (p, None)
    else
      var i := p.empty[0];
      var q := p.(empty := p.empty[1..]);
      if AnyFlag(p.frames[i]) then (q, None)
      else (q.(nEmptyBufferNum := q.nEmptyBufferNum - 1, nDecoderHoldingNum := q.nDecoderHoldingNum + 1,
               frames := q.frames[i := q.frames[i].(usedByDecoder := true)]), Some(i))
  }

  /** The picture a client passes is frame i; its nID must name frame i too. */
  predicate IdMatches(p: Pool, i: nat)
    requires i < |p.frames|
  {
    p.frames[i].nID == i
  }

  function ToEmpty(p: Pool, i: nat): Pool {
    p.(empty := p.empty + [i], nEmptyBufferNum := p.nEmptyBufferNum + 1)
  }

  function ToValid(p: Pool, i: nat): Pool
    requires i < |p.frames|
  {
    p.(valid := p.valid + [i], nValidPictureNum := p.nValidPictureNum + 1, nWaitForDispNum := p.nWaitForDispNum + 1,
       sent := p.sent + [i], frames := p.frames[i := p.frames[i].(inValidQueue := true)])
  }

  function ToRelease(p: Pool, i: nat): Pool {
    p.(release := p.release + [i], nReleaseBufferNum := p.nReleaseBufferNum + 1)
  }

  function ReturnBuffer(p: Pool, i: nat, validPicture: bool): Pool
    requires i < |p.frames|
  {
    var f := p.frames[i];
    if !IdMatches(p, i) || !f.usedByDecoder then p
    else
      var g := f.(usedByDecoder := false);
      var q := p.(frames := p.frames[i := g]);
      if g.needRelease && !g.inValidQueue then
        ToRelease(q.(frames := q.frames[i := g.(alreadyDisplayed := false, inValidQueue := false)],
                     leaks := q.leaks + 1), i)
      else if g.inValidQueue && (g.usedByRender || g.alreadyDisplayed) then q
      else
        var r :=
          if g.inValidQueue || g.usedByRender then q
          else if g.alreadyDisplayed then ToEmpty(q.(frames := q.frames[i := g.(alreadyDisplayed := false)]), i)
          else if validPicture then ToValid(q, i)
          else ToEmpty(q, i);
        r.(nDecoderHoldingNum := r.nDecoderHoldingNum - 1)
  }

  /** What FbmShareBuffer tests before it takes the lock. */
  function ShareTest(p: Pool, i: nat): (Pool, bool)
    requires i < |p.frames|
  {
    if !IdMatches(p, i) || p.frames[i].needRelease then (p, false) else (p.(sharing := Some(i)), true)
  }

  /** And what it does under the lock. */
  function ShareLocked(p: Pool, i: nat): Pool
    requires i < |p.frames|
  {
    var f := p.frames[i];
    var q := p.(sharing := None);
    if !f.usedByDecoder || f.inValidQueue || f.alreadyDisplayed then q
    else ToValid(if f.needRelease then q.(late := q.late + {i}) else q, i)
  }

  /** The two with no other client between them. */
  function ShareBuffer(p: Pool, i: nat): Pool
    requires i < |p.frames|
  {
    var (q, go) := ShareTest(p, i);
    if go then ShareLocked(q, i) else q
  }

  function RequestPicture(p: Pool): (Pool, Option<nat>)
    requires InRange(p)
  {
    if p.valid == [] then (p, None)
    else
      var i := p.valid[0];
      var f := p.frames[i];
      var q := p.(valid := p.valid[1..]);
      if !f.inValidQueue || f.usedByRender || f.alreadyDisplayed then (q, None)
      else (q.(nValidPictureNum := q.nValidPictureNum - 1, nWaitForDispNum := q.nWaitForDispNum - 1,
               nRenderHoldingNum := q.nRenderHoldingNum + 1, shown := q.shown + [i],
               frames := q.frames[i := f.(inValidQueue := false, usedByRender := true)]), Some(i))
  }

  function ReturnPicture(p: Pool, i: nat): Pool
    requires i < |p.frames|
  {
    var f := p.frames[i];
    if !IdMatches(p, i) || !f.usedByRender || f.inValidQueue || f.alreadyDisplayed then p
    else
      var q := p.(frames := p.frames[i := f.(usedByRender := false)], nRenderHoldingNum := p.nRenderHoldingNum - 1);
      if f.usedByDecoder then q.(frames := p.frames[i := f.(usedByRender := false, alreadyDisplayed := true)])
      else if !f.needRelease then ToEmpty(q, i)
      else ToRelease(q, i)
  }

  /** Pictures queued for display are taken back, those the decoder still holds are marked displayed. */
  function FlushQueue(p: Pool): Pool
    requires InRange(p)
    decreases |p.valid|
  {
    if p.valid == [] then p
    else
      var i := p.valid[0];
      var f := p.frames[i];
      var q := p.(valid := p.valid[1..], nValidPictureNum := p.nValidPictureNum - 1,
                  sent := p.shown + p.valid[1..], dropped := p.dropped + 1);
      if f.usedByRender || f.alreadyDisplayed then q
      else if !f.usedByDecoder then
        FlushQueue(ToEmpty(q.(frames := q.frames[i := f.(inValidQueue := false)]), i))
      else
        FlushQueue(q.(frames := q.frames[i := f.(inValidQueue := false, alreadyDisplayed := true)]))
  }

  function Flush(p: Pool): Pool
    requires InRange(p)
  {
    var q := FlushQueue(p);
    q.(phase := if q.phase == Marked then Flushed else q.phase)
  }

  /** A buffer from outside is bound to the next slot (FbmSetFbmBufAddress). */
  function Bind(p: Pool, nBufId: int): Pool
    requires p.bound < |p.frames|
  {
    var i := p.bound;
    ToEmpty(p.(frames := p.frames[i := p.frames[i].(nBufId := nBufId, nID := i)], bound := p.bound + 1), i)
  }

  function MarkRelease(p: Pool): Pool {
    p.(frames := seq(|p.frames|, i requires 0 <= i < |p.frames| =>
                   if p.frames[i].nBufId == FBM_NEW_DISP_INVALID_TAG then p.frames[i]
                   else p.frames[i].(needRelease := true)),
       phase := Marked)
  }

  /** Every empty frame moves to the release queue. */
  function DrainQueue(p: Pool): Pool
    requires InRange(p)
    decreases |p.empty|
  {
    if p.empty == [] then p
    else
      var i := p.empty[0];
      var q := p.(empty := p.empty[1..]);
      if AnyFlag(p.frames[i]) then q
      else DrainQueue(ToRelease(q.(nEmptyBufferNum := q.nEmptyBufferNum - 1), i))
  }

  function Drain(p: Pool): Pool
    requires InRange(p)
  {
    DrainQueue(p).(phase := Idle)
  }

  function RequestRelease(p: Pool): (Pool, Option<nat>)
    requires InRange(p)
  {
    if p.release == [] then (p, None)
    else
      var i := p.release[0];
      (p.(release := p.release[1..], nReleaseBufferNum := p.nReleaseBufferNum - 1,
          frames := p.frames[i := p.frames[i].(nID := FRM_RELEASE_TAG)]), Some(i))
  }

  predicate AwaitsBuffer(p: Pool, i: nat)
    requires i < |p.frames|
  {
    p.frames[i].needRelease && p.frames[i].nID == FRM_RELEASE_TAG
  }

  /** The first slot from `from` on whose buffer was given away takes the new one. */
  function ReturnReleaseFrom(p: Pool, from: nat, nBufId: int): (Pool, Option<nat>)
    requires from <= |p.frames|
    decreases |p.frames| - from
  {
    if from == |p.frames| then (p, None)
    else if AwaitsBuffer(p, from) then
      var f := p.frames[from].(nBufId := nBufId, needRelease := false, nID := from);
      (ToEmpty(p.(frames := p.frames[from := f], late := p.late - {from}), from), Some(from))
    else ReturnReleaseFrom(p, from + 1, nBufId)
  }

  function ReturnRelease(p: Pool, nBufId: int): (Pool, Option<nat>) {
    ReturnReleaseFrom(p, 0, nBufId)
  }

  // ----- what is legal

  ghost predicate InRange(p: Pool) {
    && (forall k :: 0 <= k < |p.empty| ==> p.empty[k] < |p.frames|)
    && (forall k :: 0 <= k < |p.valid| ==> p.valid[k] < |p.frames|)
    && (forall k :: 0 <= k < |p.release| ==> p.release[k] < |p.frames|)
  }

  predicate Tagged(f: Frame) {
    f.nID == FRM_RELEASE_TAG
  }

  predicate Unused(f: Frame) {
    !f.usedByDecoder && !f.usedByRender && !f.inValidQueue && !f.alreadyDisplayed
  }

  /**
   The seven ways a frame may be used: not at all; by the decoder, alone or with the frame
   queued, with the renderer holding it, or already displayed; queued; with the renderer.
   */
  predicate SevenStates(f: Frame) {
    && (f.inValidQueue ==> !f.usedByRender && !f.alreadyDisplayed)
    && (f.alreadyDisplayed ==> f.usedByDecoder && !f.usedByRender)
  }

  /** How a bound frame lies in the queues; `e`, `v` and `r` say whether it is in each. */
  predicate Placed(f: Frame, i: nat, e: bool, v: bool, r: bool) {
    && SevenStates(f)
    && (v <==> f.inValidQueue)
    && (r ==> f.needRelease && Unused(f) && !Tagged(f))
    && (Tagged(f) ==> f.needRelease && Unused(f))
    && (e <==> Unused(f) && !r && !Tagged(f))
    && (Tagged(f) || f.nID == i)
  }

  /** Whether the frame may wait for display, or be empty, although it is to be released: only if shared late. */
  predicate Timely(f: Frame, e: bool, late: bool, phase: Phase) {
    && (late ==> f.needRelease)
    && match phase {
         case Idle => f.needRelease && (f.inValidQueue || e) ==> late
         case Marked => f.needRelease
         case Flushed => f.needRelease && (f.inValidQueue ==> late)
       }
  }

  ghost predicate FrameOk(p: Pool, i: nat)
    requires i < |p.frames|
  {
    var f := p.frames[i];
    var e, v, r := i in p.empty, i in p.valid, i in p.release;
    if i < p.bound then
      && Placed(f, i, e, v, r) && Timely(f, e, i in p.late, p.phase)
      && (p.external <==> f.nBufId != FBM_NEW_DISP_INVALID_TAG) && (!p.external ==> !f.needRelease)
    else f == Clear(i) && !e && !v && !r && i !in p.late
  }

  function Decoders(fs: seq<Frame>): set<int> {
    set i | 0 <= i < |fs| && fs[i].usedByDecoder
  }

  function Renderers(fs: seq<Frame>): set<int> {
    set i | 0 <= i < |fs| && fs[i].usedByRender
  }

  ghost predicate Counted(p: Pool) {
    && p.nEmptyBufferNum == |p.empty| && p.nValidPictureNum == |p.valid| && p.nReleaseBufferNum == |p.release|
    && p.nDecoderHoldingNum == |Decoders(p.frames)| + p.leaks
    && p.nRenderHoldingNum == |Renderers(p.frames)|
    && p.nWaitForDispNum == |p.valid| + p.dropped
  }

  ghost predicate Legal(p: Pool) {
    && InRange(p) && NoDup(p.empty) && NoDup(p.valid) && NoDup(p.release)
    && p.bound <= |p.frames| < FRM_RELEASE_TAG
    && (p.phase != Idle ==> p.external)
    && (forall i :: 0 <= i < |p.frames| ==> FrameOk(p, i))
    && Counted(p)
    && p.sent == p.shown + p.valid
    && (p.sharing.Some? ==> p.sharing.value < |p.frames|)
  }

  // ----- the clients

  datatype Op =
    | OpRequestBuffer | OpReturnBuffer(i: nat, validPicture: bool) | OpShareTest(i: nat) | OpShareLocked
    | OpRequestPicture | OpReturnPicture(i: nat)
    | OpFlush
    | OpBind(nBufId: int) | OpMarkRelease | OpDrain | OpRequestRelease | OpReturnRelease(nBufId: int)

  /**
   A call that names a frame names one of the pool, and the decoder shares one frame at a time; buffers are
   bound and handed back outside a release call.
   */
  predicate InOrder(p: Pool, op: Op) {
    match op
    case OpReturnBuffer(i, _) => i < |p.frames|
    case OpShareTest(i) => i < |p.frames| && p.sharing.None?
    case OpShareLocked => p.sharing.Some? && p.sharing.value < |p.frames|
    case OpReturnPicture(i) => i < |p.frames|
    case OpBind(b) => p.external && p.phase == Idle && p.bound < |p.frames| && b != FBM_NEW_DISP_INVALID_TAG
    case OpMarkRelease => p.external && p.phase == Idle
    case OpDrain => p.phase == Flushed
    case OpReturnRelease(b) => p.phase == Idle && b != FBM_NEW_DISP_INVALID_TAG
    case _ => true
  }

  /**
   The two things no guard checks: a frame in the renderer's hands is not shared again, and a
   frame to be released that both hold goes back through the renderer first.
   */
  predicate Disciplined(p: Pool, op: Op)
    requires InOrder(p, op)
  {
    match op
    case OpShareLocked => var i := p.sharing.value; !(p.frames[i].usedByDecoder && p.frames[i].usedByRender)
    case OpReturnBuffer(i, _) => !(p.frames[i].usedByDecoder && p.frames[i].usedByRender && p.frames[i].needRelease)
    case _ => true
  }

  function Apply(p: Pool, op: Op): Pool
    requires InRange(p) && InOrder(p, op)
  {
    match op
    case OpRequestBuffer => RequestBuffer(p).0
    case OpReturnBuffer(i, b) => ReturnBuffer(p, i, b)
    case OpShareTest(i) => ShareTest(p, i).0
    case OpShareLocked => ShareLocked(p, p.sharing.value)
    case OpRequestPicture => RequestPicture(p).0
    case OpReturnPicture(i) => ReturnPicture(p, i)
    case OpFlush => Flush(p)
    case OpBind(b) => Bind(p, b)
    case OpMarkRelease => MarkRelease(p)
    case OpDrain => Drain(p)
    case OpRequestRelease => RequestRelease(p).0
    case OpReturnRelease(b) => ReturnRelease(p, b).0
  }
}
