/**
 The frame buffer manager itself: flags in a frame array, three queues threaded through
 one link array, and counters. Each method is one locked region, or a test made before
 the lock, and is specified by the operation of the same name on the pool.
 */
module Fbm {
  import opened Common
  import opened NodeList
  import opened FbmPool
  import opened FbmProofs
  import opened FbmRelease

  class Fbm {
    const pFrames: array<Frame>
    const pNext: array<int>
    const external: bool
    var pEmptyBufferQueue: int
    var pValidPictureQueue: int
    var pReleaseBufferQueue: int
    var nEmptyBufferNum: int
    var nValidPictureNum: int
    var nReleaseBufferNum: int
    var nDecoderHoldingNum: int
    var nRenderHoldingNum: int
    var nWaitForDispNum: int
    var nValidBufNum: nat
    // what the links spell, and history
    ghost var empty: seq<nat>
    ghost var valid: seq<nat>
    ghost var release: seq<nat>
    ghost var phase: Phase
    ghost var sharing: Option<nat>
    ghost var leaks: nat
    ghost var dropped: nat
    ghost var sent: seq<nat>
    ghost var shown: seq<nat>
    ghost var late: set<nat>

    /** The three queues are proper lists and share no node. */
    ghost predicate Lists()
      reads this`pEmptyBufferQueue, this`pValidPictureQueue, this`pReleaseBufferQueue
      reads this`empty, this`valid, this`release, pNext
    {
      && pNext.Length == pFrames.Length
      && Linked(pNext[..], pEmptyBufferQueue, empty)
      && Linked(pNext[..], pValidPictureQueue, valid)
      && Linked(pNext[..], pReleaseBufferQueue, release)
      && (forall i :: i in empty ==> i !in valid && i !in release)
      && (forall i :: i in valid ==> i !in release)
    }

    ghost function Snapshot(): Pool
      reads this, pFrames
    {
      Pool(pFrames[..], empty, valid, release, nEmptyBufferNum, nValidPictureNum, nReleaseBufferNum,
           nDecoderHoldingNum, nRenderHoldingNum, nWaitForDispNum, external, nValidBufNum, phase,
           sharing, leaks, dropped, sent, shown, late)
    }

    ghost predicate Valid()
      reads this, pNext, pFrames
    {
      Lists() && Legal(Snapshot())
    }

    lemma NoLists()
      requires pNext.Length == pFrames.Length && empty == [] && valid == [] && release == []
      requires pEmptyBufferQueue == NONE && pValidPictureQueue == NONE && pReleaseBufferQueue == NONE
      ensures Lists()
    {
    }

    // ----- the queues

    method PutEmpty(i: nat)
      requires Lists() && i < pNext.Length && i !in empty && i !in valid && i !in release
      modifies this`pEmptyBufferQueue, this`empty, this`nEmptyBufferNum, pNext
      ensures Lists() && Snapshot() == ToEmpty(old(Snapshot()), i)
    {
      ghost var links := pNext[..];
      pEmptyBufferQueue := Enqueue(pNext, pEmptyBufferQueue, i, empty);
      empty := empty + [i];
      nEmptyBufferNum := nEmptyBufferNum + 1;
      LinkedElsewhere(links, pNext[..], pValidPictureQueue, valid);
      LinkedElsewhere(links, pNext[..], pReleaseBufferQueue, release);
    }

    method PutValid(i: nat)
      requires Lists() && i < pNext.Length && i !in empty && i !in valid && i !in release
      modifies this`pValidPictureQueue, this`valid, this`sent, this`nValidPictureNum, this`nWaitForDispNum
      modifies pNext, pFrames
      ensures Lists() && Snapshot() == ToValid(old(Snapshot()), i)
    {
      HeadsTell();
      hide Lists;
      SetFrame(i, pFrames[i].(inValidQueue := true));
      HookValid(i);
    }

    method HookValid(i: nat)
      requires Lists() && i < pNext.Length && i !in empty && i !in valid && i !in release
      modifies this`pValidPictureQueue, this`valid, this`sent, this`nValidPictureNum, this`nWaitForDispNum, pNext
      ensures Lists()
      ensures var p := old(Snapshot());
              Snapshot() == p.(valid := p.valid + [i], nValidPictureNum := p.nValidPictureNum + 1,
                               nWaitForDispNum := p.nWaitForDispNum + 1, sent := p.sent + [i])
    {
      ghost var links := pNext[..];
      pValidPictureQueue := Enqueue(pNext, pValidPictureQueue, i, valid);
      valid, sent := valid + [i], sent + [i];
      nValidPictureNum := nValidPictureNum + 1;
      nWaitForDispNum := nWaitForDispNum + 1;
      LinkedElsewhere(links, pNext[..], pEmptyBufferQueue, empty);
      LinkedElsewhere(links, pNext[..], pReleaseBufferQueue, release);
    }

    method PutRelease(i: nat)
      requires Lists() && i < pNext.Length && i !in empty && i !in valid && i !in release
      modifies this`pReleaseBufferQueue, this`release, this`nReleaseBufferNum, pNext
      ensures Lists() && Snapshot() == ToRelease(old(Snapshot()), i)
    {
      ghost var links := pNext[..];
      pReleaseBufferQueue := Enqueue(pNext, pReleaseBufferQueue, i, release);
      release := release + [i];
      nReleaseBufferNum := nReleaseBufferNum + 1;
      LinkedElsewhere(links, pNext[..], pEmptyBufferQueue, empty);
      LinkedElsewhere(links, pNext[..], pValidPictureQueue, valid);
    }

    method TakeEmpty() returns (i: nat)
      requires Lists() && pEmptyBufferQueue != NONE
      modifies this`pEmptyBufferQueue, this`empty, pNext
      ensures Lists() && old(empty) != [] && i == old(empty)[0] && i < pFrames.Length
      ensures i !in empty && i !in valid && i !in release
      ensures Snapshot() == old(Snapshot()).(empty := old(empty)[1..])
    {
      ghost var links := pNext[..];
      Pop(empty);
      i := pEmptyBufferQueue;
      pEmptyBufferQueue := Dequeue(pNext, pEmptyBufferQueue, empty);
      empty := empty[1..];
      LinkedElsewhere(links, pNext[..], pValidPictureQueue, valid);
      LinkedElsewhere(links, pNext[..], pReleaseBufferQueue, release);
    }

    method TakeValid() returns (i: nat)
      requires Lists() && pValidPictureQueue != NONE
      modifies this`pValidPictureQueue, this`valid, pNext
      ensures Lists() && old(valid) != [] && i == old(valid)[0] && i < pFrames.Length
      ensures i !in empty && i !in valid && i !in release
      ensures Snapshot() == old(Snapshot()).(valid := old(valid)[1..])
    {
      ghost var links := pNext[..];
      Pop(valid);
      i := pValidPictureQueue;
      pValidPictureQueue := Dequeue(pNext, pValidPictureQueue, valid);
      valid := valid[1..];
      LinkedElsewhere(links, pNext[..], pEmptyBufferQueue, empty);
      LinkedElsewhere(links, pNext[..], pReleaseBufferQueue, release);
    }

    method TakeRelease() returns (i: nat)
      requires Lists() && pReleaseBufferQueue != NONE
      modifies this`pReleaseBufferQueue, this`release, pNext
      ensures Lists() && old(release) != [] && i == old(release)[0] && i < pFrames.Length
      ensures Snapshot() == old(Snapshot()).(release := old(release)[1..])
    {
      ghost var links := pNext[..];
      Pop(release);
      i := pReleaseBufferQueue;
      pReleaseBufferQueue := Dequeue(pNext, pReleaseBufferQueue, release);
      release := release[1..];
      LinkedElsewhere(links, pNext[..], pEmptyBufferQueue, empty);
      LinkedElsewhere(links, pNext[..], pValidPictureQueue, valid);
    }

    /** An empty head is an empty queue. */
    lemma HeadsTell()
      requires Lists()
      ensures pEmptyBufferQueue == NONE <==> empty == []
      ensures pValidPictureQueue == NONE <==> valid == []
      ensures pReleaseBufferQueue == NONE <==> release == []
      ensures pNext.Length == pFrames.Length
    {
    }

    /** The flags and the id of one frame change. */
    method SetFrame(i: nat, f: Frame)
      requires i < pFrames.Length
      modifies pFrames
      ensures Snapshot() == old(Snapshot()).(frames := old(pFrames[..])[i := f])
    {
      pFrames[i] := f;
    }

    // ----- creation

    /** A pool whose buffers are bound from outside, or one that owns its buffers. */
    constructor (n: nat, external: bool)
      requires n < FRM_RELEASE_TAG
      ensures Valid() && fresh(pFrames) && fresh(pNext) && Snapshot() == Create(n, external)
    {
      pFrames := new Frame[n](i => Clear(i));
      pNext := new int[n](_ => NONE);
      this.external := external;
      pEmptyBufferQueue, pValidPictureQueue, pReleaseBufferQueue := NONE, NONE, NONE;
      nEmptyBufferNum, nValidPictureNum, nReleaseBufferNum := 0, 0, 0;
      nDecoderHoldingNum, nRenderHoldingNum, nWaitForDispNum, nValidBufNum := 0, 0, 0, 0;
      empty, valid, release, phase, sharing, leaks, dropped := [], [], [], Idle, None, 0, 0;
      sent, shown, late := [], [], {};
      new;
      hide Legal, Linked, Lists;
      CreateLegal(n, external);
      NoLists();
      assert pFrames[..] == Create(n, true).frames;
      if !external {
        var i := 0;
        while i < n
          invariant 0 <= i <= n && Lists() && valid == [] && release == [] && |empty| == i == nEmptyBufferNum
          invariant forall k :: 0 <= k < i ==> empty[k] == k
          invariant Snapshot() == Create(n, true).(external := false, empty := empty, nEmptyBufferNum := i)
        {
          PutEmpty(i);
          i := i + 1;
        }
        nValidBufNum := n;
      }
      assert empty == Create(n, external).empty;
    }

    /** The id a picture carries is an index of the pool, and of this very frame. */
    predicate IdIsValid(i: nat)
      requires i < pFrames.Length
      reads pFrames
    {
      var index := pFrames[i].nID;
      if index < 0 || index >= pFrames.Length then false else index == i
    }

    // ----- decoder

    /** An empty frame goes to the decoder. */
    method RequestBuffer() returns (frame: Option<nat>)
      requires Valid()
      modifies this, pNext, pFrames
      ensures Valid() && (Snapshot(), frame) == FbmPool.RequestBuffer(old(Snapshot()))
      ensures frame.Some? <==> old(empty) != []
    {
      hide Legal, Linked, Lists;
      HeadsTell();
      ghost var p := Snapshot();
      RequestBufferLegal(p);
      ChecksNeverFireOnHeads(p);
      if pEmptyBufferQueue == NONE {
        return None;
      }
      var i := TakeEmpty();
      if pFrames[i].usedByDecoder || pFrames[i].inValidQueue || pFrames[i].usedByRender || pFrames[i].alreadyDisplayed {
        return None;
      }
      nEmptyBufferNum := nEmptyBufferNum - 1;
      nDecoderHoldingNum := nDecoderHoldingNum + 1;
      SetFrame(i, pFrames[i].(usedByDecoder := true));
      frame := Some(i);
    }

    /** The decoder is done with frame i; a picture it never shared is queued for display if it is good. */
    method ReturnBuffer(i: nat, bValidPicture: bool)
      requires Valid() && i < pFrames.Length && Disciplined(Snapshot(), OpReturnBuffer(i, bValidPicture))
      modifies this, pNext, pFrames
      ensures Valid() && Snapshot() == FbmPool.ReturnBuffer(old(Snapshot()), i, bValidPicture)
    {
      hide Legal, Linked, Lists;
      HeadsTell();
      ghost var p := Snapshot();
      ReturnBufferLegal(p, i, bValidPicture);
      Whereabouts(p, i);
      if !IdIsValid(i) {
        return;
      }
      if !pFrames[i].usedByDecoder {
        return;
      }
      SetFrame(i, pFrames[i].(usedByDecoder := false));
      if pFrames[i].needRelease && !pFrames[i].inValidQueue {
        ReleaseReturned(i);
        return;
      }
      if pFrames[i].inValidQueue && (pFrames[i].usedByRender || pFrames[i].alreadyDisplayed) {
        return;
      }
      QueueReturned(i, bValidPicture);
      nDecoderHoldingNum := nDecoderHoldingNum - 1;
    }

    /** A frame to be released that the decoder has let go of; the holding count is left as it was. */
    method ReleaseReturned(i: nat)
      requires Lists() && i < pFrames.Length && i !in empty && i !in valid && i !in release
      modifies this, pNext, pFrames
      ensures Lists()
      ensures var p := old(Snapshot()); var f := p.frames[i].(alreadyDisplayed := false, inValidQueue := false);
              Snapshot() == ToRelease(p.(frames := p.frames[i := f], leaks := p.leaks + 1), i)
    {
      HeadsTell();
      hide Lists;
      PutRelease(i);
      SetFrame(i, pFrames[i].(alreadyDisplayed := false, inValidQueue := false));
      leaks := leaks + 1;
    }

    /** Where a frame goes that the decoder has let go of. */
    method QueueReturned(i: nat, bValidPicture: bool)
      requires Lists() && i < pFrames.Length && i !in empty && i !in release && (i in valid ==> pFrames[i].inValidQueue)
      modifies this, pNext, pFrames
      ensures Lists()
      ensures var p := old(Snapshot()); var f := p.frames[i];
              Snapshot() == if f.inValidQueue || f.usedByRender then p
                            else if f.alreadyDisplayed then
                              ToEmpty(p.(frames := p.frames[i := f.(alreadyDisplayed := false)]), i)
                            else if bValidPicture then ToValid(p, i) else ToEmpty(p, i)
    {
      HeadsTell();
      hide Linked, Lists;
      if pFrames[i].inValidQueue {
      } else if pFrames[i].usedByRender {
      } else if pFrames[i].alreadyDisplayed {
        SetFrame(i, pFrames[i].(alreadyDisplayed := false));
        PutEmpty(i);
      } else if bValidPicture {
        PutValid(i);
      } else {
        PutEmpty(i);
      }
    }

    /** Before the lock: the frame is this one and is not to be released. */
    method ShareTest(i: nat) returns (go: bool)
      requires Valid() && i < pFrames.Length
      modifies this`sharing
      ensures Valid() && (Snapshot(), go) == FbmPool.ShareTest(old(Snapshot()), i)
      ensures go <==> pFrames[i].nID == i && !pFrames[i].needRelease
      ensures sharing == if go then Some(i) else old(sharing)
    {
      hide Legal, Linked, Lists;
      ShareTestLegal(Snapshot(), i);
      if !IdIsValid(i) {
        return false;
      }
      if pFrames[i].needRelease {
        return false;
      }
      sharing := Some(i);
      go := true;
    }

    /** Under the lock: the picture is queued for display, whatever has happened to it since the test. */
    method ShareLocked(i: nat)
      requires Valid() && sharing == Some(i) && i < pFrames.Length && Disciplined(Snapshot(), OpShareLocked)
      modifies this, pNext, pFrames
      ensures Valid() && Snapshot() == FbmPool.ShareLocked(old(Snapshot()), i)
    {
      hide Legal, Linked, Lists;
      HeadsTell();
      ShareLockedLegal(Snapshot());
      Whereabouts(Snapshot(), i);
      sharing := None;
      if !pFrames[i].usedByDecoder || pFrames[i].inValidQueue || pFrames[i].alreadyDisplayed {
        return;
      }
      late := if pFrames[i].needRelease then late + {i} else late;
      PutValid(i);
    }

    /** The decoder shows a picture it keeps as reference; here no other client comes between test and lock. */
    method ShareBuffer(i: nat)
      requires Valid() && i < pFrames.Length
      requires !(pFrames[i].usedByDecoder && pFrames[i].usedByRender && !pFrames[i].needRelease)
      modifies this, pNext, pFrames
      ensures Valid() && Snapshot() == FbmPool.ShareBuffer(old(Snapshot()), i)
    {
      hide Legal, Linked, Lists;
      var go := ShareTest(i);
      if go {
        ShareLocked(i);
      }
    }

    // ----- renderer

    /** The oldest picture waiting goes to the renderer. */
    method RequestPicture() returns (frame: Option<nat>)
      requires Valid()
      modifies this, pNext, pFrames
      ensures Valid() && (Snapshot(), frame) == FbmPool.RequestPicture(old(Snapshot()))
      ensures frame.Some? <==> old(valid) != []
    {
      hide Legal, Linked, Lists;
      HeadsTell();
      ghost var p := Snapshot();
      RequestPictureLegal(p);
      ChecksNeverFireOnHeads(p);
      if pValidPictureQueue == NONE {
        return None;
      }
      var i := TakeValid();
      if !pFrames[i].inValidQueue || pFrames[i].usedByRender || pFrames[i].alreadyDisplayed {
        return None;
      }
      HandToRenderer(i);
      frame := Some(i);
    }

    method HandToRenderer(i: nat)
      requires i < pFrames.Length
      modifies this`nValidPictureNum, this`nWaitForDispNum, this`nRenderHoldingNum, this`shown, pFrames
      ensures var p := old(Snapshot());
              Snapshot() == p.(nValidPictureNum := p.nValidPictureNum - 1, nWaitForDispNum := p.nWaitForDispNum - 1,
                               nRenderHoldingNum := p.nRenderHoldingNum + 1, shown := p.shown + [i],
                               frames := p.frames[i := p.frames[i].(inValidQueue := false, usedByRender := true)])
    {
      nValidPictureNum := nValidPictureNum - 1;
      nWaitForDispNum := nWaitForDispNum - 1;
      nRenderHoldingNum := nRenderHoldingNum + 1;
      shown := shown + [i];
      pFrames[i] := pFrames[i].(inValidQueue := false, usedByRender := true);
    }

    /** The renderer is done with frame i. */
    method ReturnPicture(i: nat) returns (ok: bool)
      requires Valid() && i < pFrames.Length
      modifies this, pNext, pFrames
      ensures Valid() && Snapshot() == FbmPool.ReturnPicture(old(Snapshot()), i)
      ensures ok <==> old(pFrames[i].usedByRender)
    {
      hide Legal, Linked, Lists;
      HeadsTell();
      ghost var p := Snapshot();
      ReturnPictureLegal(p, i);
      ChecksNeverFire(p, i);
      Whereabouts(p, i);
      if !IdIsValid(i) {
        return false;
      }
      if !pFrames[i].usedByRender || pFrames[i].inValidQueue || pFrames[i].alreadyDisplayed {
        return false;
      }
      SetFrame(i, pFrames[i].(usedByRender := false));
      nRenderHoldingNum := nRenderHoldingNum - 1;
      if pFrames[i].usedByDecoder {
        SetFrame(i, pFrames[i].(alreadyDisplayed := true));
        assert pFrames[..] == p.frames[i := pFrames[i]];
      } else if !pFrames[i].needRelease {
        PutEmpty(i);
      } else {
        PutRelease(i);
      }
      ok := true;
    }

    /** The oldest picture waiting for display is taken back. */
    method FlushFirst()
      requires Valid() && valid != []
      modifies this, pNext, pFrames
      ensures Valid() && Snapshot() == FlushOne(old(Snapshot()))
    {
      hide Legal, Linked, Lists, FlushQueue;
      HeadsTell();
      FlushOneLegal(Snapshot());
      ChecksNeverFireOnHeads(Snapshot());
      var i := TakeValid();
      nValidPictureNum := nValidPictureNum - 1;
      if pFrames[i].usedByRender || pFrames[i].alreadyDisplayed {
        return;
      }
      sent, dropped := shown + valid, dropped + 1;
      SettleFlushed(i);
    }

    method SettleFlushed(i: nat)
      requires Lists() && i < pFrames.Length && i !in empty && i !in valid && i !in release
      modifies this`pEmptyBufferQueue, this`empty, this`nEmptyBufferNum, pNext, pFrames
      ensures Lists()
      ensures var p := old(Snapshot()); var f := p.frames[i];
              Snapshot() == if f.usedByDecoder then
                              p.(frames := p.frames[i := f.(inValidQueue := false, alreadyDisplayed := true)])
                            else ToEmpty(p.(frames := p.frames[i := f.(inValidQueue := false)]), i)
    {
      HeadsTell();
      hide Linked, Lists;
      pFrames[i] := pFrames[i].(inValidQueue := false);
      if !pFrames[i].usedByDecoder {
        PutEmpty(i);
      } else {
        pFrames[i] := pFrames[i].(alreadyDisplayed := true);
        assert pFrames[..] == old(pFrames[..])[i := pFrames[i]];
      }
    }

    /** Nothing waits for display any more. */
    method Flush()
      requires Valid()
      modifies this, pNext, pFrames
      ensures Valid() && Snapshot() == FbmPool.Flush(old(Snapshot())) && valid == []
    {
      ghost var p := Snapshot();
      FlushLegal(p);
      hide Linked, Lists, NoDup, FrameOk, Counted, FlushOne, FlushQueue;
      HeadsTell();
      while pValidPictureQueue != NONE
        invariant Valid() && (pValidPictureQueue == NONE <==> valid == []) && FlushQueue(Snapshot()) == FlushQueue(p)
        decreases |valid|
      {
        FlushOneLegal(Snapshot());
        FlushOneShortens(Snapshot());
        FlushFirst();
        HeadsTell();
      }
      FlushNothing(Snapshot());
      phase := if phase == Marked then Flushed else phase;
    }

    // ----- release

    /** A buffer from outside is bound to the next free slot. */
    method SetFbmBufAddress(nBufId: int) returns (frame: nat)
      requires nValidBufNum < pFrames.Length && Valid() && InOrder(Snapshot(), OpBind(nBufId))
      modifies this, pNext, pFrames
      ensures frame == old(nValidBufNum) && Snapshot() == Bind(old(Snapshot()), nBufId) && Valid()
    {
      hide Linked, Lists, Counted;
      HeadsTell();
      BindLegal(Snapshot(), nBufId);
      assert FrameOk(Snapshot(), nValidBufNum);
      hide Legal, FrameOk;
      frame := nValidBufNum;
      SetFrame(frame, pFrames[frame].(nBufId := nBufId, nID := frame));
      PutEmpty(frame);
      nValidBufNum := nValidBufNum + 1;
    }

    /** First locked region of a release: every frame with an outside buffer is marked. */
    method MarkForRelease()
      requires Valid() && InOrder(Snapshot(), OpMarkRelease)
      modifies this`phase, pFrames
      ensures Valid() && Snapshot() == MarkRelease(old(Snapshot()))
      ensures forall i :: 0 <= i < pFrames.Length ==>
                var f := old(pFrames[..])[i]; pFrames[i] == if f.nBufId == 0xdd then f else f.(needRelease := true)
    {
      ghost var p := Snapshot();
      hide Legal, Linked, Lists;
      MarkReleaseLegal(p);
      var index := 0;
      while index < pFrames.Length
        invariant 0 <= index <= pFrames.Length
        invariant forall k :: 0 <= k < index ==> pFrames[k] == MarkRelease(p).frames[k]
        invariant forall k :: index <= k < pFrames.Length ==> pFrames[k] == p.frames[k]
      {
        if pFrames[index].nBufId != FBM_NEW_DISP_INVALID_TAG {
          pFrames[index] := pFrames[index].(needRelease := true);
        }
        index := index + 1;
      }
      phase := Marked;
      assert pFrames[..] == MarkRelease(p).frames;
    }

    /** Last locked region of a release: every empty frame moves to the release queue. */
    method NewDispRelease()
      requires Valid() && InOrder(Snapshot(), OpDrain)
      modifies this, pNext
      ensures Valid() && Snapshot() == Drain(old(Snapshot())) && empty == []
    {
      ghost var p := Snapshot();
      DrainLegal(p);
      DrainQueueLegal(p);
      hide Linked, Lists, NoDup, FrameOk, Counted, DrainOne, DrainQueue;
      HeadsTell();
      while pEmptyBufferQueue != NONE
        invariant Valid() && phase == Flushed && (pEmptyBufferQueue == NONE <==> empty == [])
        invariant DrainQueue(Snapshot()) == DrainQueue(p)
        decreases |empty|
      {
        DrainFirst();
        HeadsTell();
      }
      DrainNothing(Snapshot());
      phase := Idle;
    }

    method DrainFirst()
      requires Valid() && phase == Flushed && empty != []
      modifies this, pNext
      ensures Valid() && Snapshot() == DrainOne(old(Snapshot()))
      ensures phase == Flushed && empty == old(empty)[1..] && DrainQueue(Snapshot()) == old(DrainQueue(Snapshot()))
    {
      hide Legal, Linked, Lists, DrainQueue;
      HeadsTell();
      DrainOneLegal(Snapshot());
      DrainOneShortens(Snapshot());
      ChecksNeverFireOnHeads(Snapshot());
      var i := TakeEmpty();
      if pFrames[i].usedByDecoder || pFrames[i].inValidQueue || pFrames[i].usedByRender || pFrames[i].alreadyDisplayed {
        return;
      }
      nEmptyBufferNum := nEmptyBufferNum - 1;
      PutRelease(i);
    }

    /** The three regions in a row, with no other client between them. */
    method SetNewDispRelease()
      requires Valid() && InOrder(Snapshot(), OpMarkRelease)
      modifies this, pNext, pFrames
      ensures Valid() && Snapshot() == ReleaseAll(old(Snapshot()))
      ensures phase == Idle && valid == [] && empty == []
    {
      hide Legal, Linked, Lists;
      ghost var p := Snapshot();
      MarkReleaseLegal(p);
      MarkForRelease();
      FlushQueueLegal(Snapshot());
      Flush();
      DrainKeepsValid(Snapshot());
      NewDispRelease();
    }

    /** The oldest frame to be released is given away; its id says so. */
    method RequestReleasePicture() returns (frame: Option<nat>)
      requires Valid()
      modifies this, pNext, pFrames
      ensures Valid() && (Snapshot(), frame) == RequestRelease(old(Snapshot()))
    {
      hide Legal, Linked, Lists;
      HeadsTell();
      RequestReleaseLegal(Snapshot());
      if pReleaseBufferQueue == NONE {
        return None;
      }
      var i := TakeRelease();
      nReleaseBufferNum := nReleaseBufferNum - 1;
      SetFrame(i, pFrames[i].(nID := FRM_RELEASE_TAG));
      frame := Some(i);
    }

    /** A new buffer takes the first slot whose buffer was given away. */
    method ReturnReleasePicture(nBufId: int) returns (frame: Option<nat>)
      requires Valid() && InOrder(Snapshot(), OpReturnRelease(nBufId))
      modifies this, pNext, pFrames
      ensures Valid() && (Snapshot(), frame) == ReturnRelease(old(Snapshot()), nBufId)
    {
      ghost var p := Snapshot();
      hide Legal, Linked, Lists;
      HeadsTell();
      ReturnReleaseLegal(p, 0, nBufId);
      var index := 0;
      while index < pFrames.Length
        invariant 0 <= index <= pFrames.Length && Snapshot() == p && Lists()
        invariant ReturnReleaseFrom(p, index, nBufId) == ReturnRelease(p, nBufId)
      {
        if pFrames[index].needRelease && pFrames[index].nID == FRM_RELEASE_TAG {
          GivenAway(p, index);
          SetFrame(index, pFrames[index].(nBufId := nBufId, needRelease := false, nID := index));
          late := late - {index};
          PutEmpty(index);
          return Some(index);
        }
        index := index + 1;
      }
      frame := None;
    }
  }

  lemma DrainKeepsValid(p: Pool)
    requires Legal(p)
    ensures Drain(p).valid == p.valid
  {
    DrainShown(p);
  }

  lemma FlushOneShortens(p: Pool)
    requires Legal(p) && p.valid != []
    ensures FlushOne(p).valid == p.valid[1..]
  {
  }

  lemma FlushNothing(p: Pool)
    requires InRange(p) && p.valid == []
    ensures FlushQueue(p) == p
  {
  }

  lemma DrainOneShortens(p: Pool)
    requires Legal(p) && p.empty != []
    ensures DrainOne(p).empty == p.empty[1..] && DrainOne(p).phase == p.phase
  {
  }

  lemma DrainNothing(p: Pool)
    requires InRange(p) && p.empty == []
    ensures DrainQueue(p) == p
  {
  }

  /** A frame whose buffer was given away is in no queue. */
  lemma GivenAway(p: Pool, i: nat)
    requires Legal(p) && i < |p.frames| && AwaitsBuffer(p, i)
    ensures i !in p.empty && i !in p.valid && i !in p.release
  {
    assert FrameOk(p, i);
  }

  /** A frame that is in use by a client, or waits for display, is where its flags say. */
  lemma Whereabouts(p: Pool, i: nat)
    requires Legal(p) && i < |p.frames|
    ensures p.frames[i].usedByDecoder || p.frames[i].usedByRender ==> i !in p.empty && i !in p.release
    ensures i in p.valid <==> p.frames[i].inValidQueue
  {
    assert FrameOk(p, i);
  }

  lemma ChecksNeverFireOnHeads(p: Pool)
    requires Legal(p)
    ensures p.empty != [] ==> p.empty[0] < |p.frames| && !AnyFlag(p.frames[p.empty[0]])
    ensures p.valid != [] ==>
              && p.valid[0] < |p.frames|
              && var f := p.frames[p.valid[0]]; f.inValidQueue && !f.usedByRender && !f.alreadyDisplayed
  {
    if p.empty != [] {
      ChecksNeverFire(p, p.empty[0]);
    }
    if p.valid != [] {
      ChecksNeverFire(p, p.valid[0]);
    }
  }
}
