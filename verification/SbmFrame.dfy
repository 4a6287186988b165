/**
 The frame-mode stream buffer manager itself: a byte ring, a queue of submitted
 chunks, a queue of frame pictures and the detectors' record, changed in place.
 `Pipeline` is the byte pipeline it stands for; every operation is specified on it.
 */
module SbmFrame {
  import opened Common
  import opened Ring
  import opened NalUnits
  import opened SbmFlow
  import opened SbmSnap
  import Fifo = CursorFifo

  const SBM_FRAME_FIFO_SIZE := 2048

  const NO_CHUNK := StreamData(0, 0, -1)
  const NO_PIC := FramePicInfo([], 0, None, -1, true)

  /** How a pass ends: the loop goes on; the detector leaves; or it goes on a length that is not there. */
  datatype PassEnd = Again | Left | Lost

  class SbmFrame {
    const mem: array<byte>
    const frames: Fifo.CursorFifo<StreamData>
    const pics: Fifo.CursorFifo<FramePicInfo>
    var writeAddr: nat
    var nValidDataSize: nat
    // what the detector remembers between calls; positions in `frames` and `pics` are slot numbers
    var curStream: Option<nat>
    var dataptr: Option<nat>
    var nDataSize: nat
    var reback: bool
    var curPic: Option<nat>
    var ptsList: PtsList
    var found: bool
    var eos: bool

    /** The cursors agree with what the detector holds. */
    ghost predicate Consistent()
      reads this, frames, pics
    {
      && 64 <= mem.Length
      && frames.Valid() && frames.slots.Length == SBM_FRAME_FIFO_SIZE
      && pics.Valid() && pics.slots.Length == MAX_FRAME_PIC_NUM
      && frames.Taken() == (if curStream.Some? then 1 else 0)
      && (curStream.Some? ==> curStream.value == frames.flushPos)
      && (dataptr.Some? <==> curStream.Some?)
      && (curPic.Some? ==> curPic.value == pics.writePos && pics.nValid < MAX_FRAME_PIC_NUM)
    }

    ghost function Snapshot(): Snap
      requires Consistent()
      reads this, mem, frames, frames.slots, pics, pics.slots
    {
      Snap(mem[..], writeAddr, nValidDataSize, frames.Contents(), curStream.Some?, pics.Contents(), pics.Taken(),
           if dataptr.Some? then dataptr.value else 0, nDataSize, reback,
           if curPic.Some? then Some(pics.slots[curPic.value]) else None, ptsList, found, eos)
    }

    /** Pictures and chunks lie in the ring as they should. */
    ghost predicate Loose()
      reads this, mem, frames, frames.slots, pics, pics.slots
    {
      Consistent() && Laid(Snapshot())
    }

    /** And the detector can go on: a picture not begun has five bytes to begin with. */
    ghost predicate Valid()
      reads this, mem, frames, frames.slots, pics, pics.slots
    {
      Loose() && LookAhead(Snapshot())
    }

    ghost function Pipeline(): Flow
      requires Loose()
      reads this, mem, frames, frames.slots, pics, pics.slots
    {
      View(Snapshot())
    }

    constructor (nBufferSize: nat)
      requires nBufferSize >= 64
      ensures Valid() && fresh(mem) && fresh(frames) && fresh(frames.slots) && fresh(pics) && fresh(pics.slots)
      ensures mem.Length == nBufferSize && Pipeline() == EMPTY
    {
      mem := new byte[nBufferSize];
      frames := new Fifo.CursorFifo(SBM_FRAME_FIFO_SIZE, NO_CHUNK);
      pics := new Fifo.CursorFifo(MAX_FRAME_PIC_NUM, NO_PIC);
      writeAddr, nValidDataSize := 0, 0;
      curStream, dataptr, nDataSize, reback, curPic := None, None, 0, false, None;
      ptsList, found, eos := NO_PTS, false, false;
    }

    // ----- feeder

    /** Grants room at the write address, keeping 64 bytes clear. */
    method RequestBuffer(nRequireSize: nat) returns (buf: Option<nat>)
      requires Loose()
      ensures buf.Some? <==> frames.nValid < 2048 && nRequireSize + 64 <= mem.Length - nValidDataSize
      ensures buf.Some? ==> buf.value == writeAddr
      ensures buf.Some? ==> forall i, k :: 0 <= i < nRequireSize && 0 <= k < nValidDataSize ==>
                Fwd(buf.value, i, mem.Length) != Fwd(FlushAddr(Snapshot()), k, mem.Length)
    {
      if frames.nValid >= frames.slots.Length {
        return None;
      }
      if nValidDataSize < mem.Length {
        var nFreeSize := mem.Length - nValidDataSize;
        if nRequireSize + 64 > nFreeSize {
          return None;
        }
        buf := Some(writeAddr);
        ghost var f := FlushAddr(Snapshot());
        forall i, k | 0 <= i < nRequireSize && 0 <= k < nValidDataSize
          ensures Fwd(writeAddr, i, mem.Length) != Fwd(f, k, mem.Length)
        {
          FwdFwd(f, nValidDataSize, i, mem.Length);
          FwdInjective(f, nValidDataSize + i, k, mem.Length);
        }
      } else {
        buf := None;
      }
    }

    /** The feeder fills the granted region; no picture and no chunk changes. */
    method Fill(off: nat, b: byte)
      requires Loose() && off < mem.Length - nValidDataSize
      modifies mem
      ensures Loose() && (Valid() <==> old(Valid())) && mem[..] == old(mem[..])[Fwd(writeAddr, off, mem.Length) := b]
      ensures SameData(old(Pipeline()), Pipeline())
    {
      hide Lin, SameData, View, PicsTiled, FramesTiled, PicTiled, PicsLen, FramesLen;
      var p := writeAddr + off;
      ghost var s := Snapshot();
      WriteKeepsData(s, off, b);
      mem[if p >= mem.Length then p - mem.Length else p] := b;
      assert Snapshot() == s.(mem := s.mem[Fwd(writeAddr, off, |s.mem|) := b]);
    }

    /**
     A chunk that fits joins the queue. The ring stays tiled, and the chunk joins the pipeline with the bytes
     that lie there, exactly if it starts at the write address and leaves the 64 bytes clear that no grant
     reaches into.
     */
    method AddStream(d: StreamData) returns (ok: bool)
      requires Loose()
      modifies this`writeAddr, this`nValidDataSize, frames, frames.slots
      ensures Consistent()
      ensures ok <==> old(frames.nValid) < 2048 && old(nValidDataSize) + d.nLength <= mem.Length
      ensures !ok ==> Snapshot() == old(Snapshot())
      ensures ok ==> nValidDataSize == old(nValidDataSize) + d.nLength
      ensures ok ==> (Loose() <==> d.pData == old(writeAddr) && nValidDataSize + 64 <= mem.Length)
      ensures ok && Loose() ==> (Valid() <==> old(Valid()))
      ensures ok && Loose() ==>
                Pipeline() == old(Pipeline()).(chunks := old(Pipeline()).chunks + [ToChunk(mem[..], d.pData, d)])
      ensures ok && Loose() ==>
                var c := Pipeline().chunks[|old(Pipeline()).chunks|];
                c.data == Lin(mem[..], d.pData, d.nLength) && c.pts == d.nPts
    {
      hide Lin, View, ToChunk, ToChunks, FlushAddr, Laid, FramesLen, PicsLen;
      if frames.nValid >= frames.slots.Length {
        return false;
      }
      if d.nLength + nValidDataSize > mem.Length {
        return false;
      }
      ghost var s := Snapshot();
      Room();
      SubmitExactly(s, d);
      if d.pData == writeAddr && nValidDataSize + d.nLength + 64 <= mem.Length {
        SubmitView(s, d);
        ChunkIs(s.mem, d.pData, d);
      }
      QueueChunk(d);
      ok := true;
    }

    method QueueChunk(d: StreamData)
      requires Consistent() && frames.nValid < SBM_FRAME_FIFO_SIZE
      requires writeAddr < mem.Length && nValidDataSize + d.nLength <= mem.Length
      modifies this`writeAddr, this`nValidDataSize, frames, frames.slots
      ensures Consistent() && Snapshot() == Submit(old(Snapshot()), d)
    {
      ghost var s := Snapshot();
      frames.Put(d);
      frames.Publish();
      nValidDataSize := nValidDataSize + d.nLength;
      var pNewWriteAddr := writeAddr + d.nLength;
      if pNewWriteAddr > mem.Length - 1 {
        pNewWriteAddr := pNewWriteAddr - mem.Length;
      }
      writeAddr := pNewWriteAddr;
      assert Snapshot() == Submit(s, d);
    }

    lemma Room()
      requires Loose()
      ensures writeAddr < mem.Length && nValidDataSize + 64 <= mem.Length
    {
    }

    // ----- decoder

    /** Hands out the oldest picture not handed out yet. */
    method RequestFramePic() returns (slot: Option<nat>)
      requires Loose()
      modifies pics
      ensures Loose() && (Valid() <==> old(Valid()))
      ensures slot.None? <==> old(Pipeline()).taken == |old(Pipeline()).pics|
      ensures slot.None? ==> Pipeline() == old(Pipeline())
      ensures slot.Some? ==>
                && Pipeline() == old(Pipeline()).(taken := old(Pipeline()).taken + 1)
                && slot.value == old(pics.readPos) && slot.value < pics.slots.Length
                && pics.slots[slot.value] == Snapshot().pics[old(Pipeline()).taken]
    {
      hide Laid, View;
      ghost var s := Snapshot();
      FlagsView(s, s.taken, s.found, s.eos);
      if s.taken < |s.pics| {
        FlagsView(s, s.taken + 1, s.found, s.eos);
      }
      slot := pics.Request();
      assert Snapshot() == if slot.None? then s else s.(taken := s.taken + 1);
    }

    /** Takes back the picture handed out last. */
    method ReturnFramePic(slot: nat) returns (ok: bool)
      requires Loose()
      requires pics.nValid != 0 ==> pics.Taken() > 0 && slot == Fwd(pics.flushPos, pics.Taken() - 1, pics.slots.Length)
      modifies pics
      ensures Loose() && (Valid() <==> old(Valid())) && (ok <==> old(pics.nValid) != 0)
      ensures Pipeline() == if ok then old(Pipeline()).(taken := old(Pipeline()).taken - 1) else old(Pipeline())
    {
      ghost var s := Snapshot();
      if pics.nValid != 0 {
        FlagsView(s, s.taken - 1, s.found, s.eos);
      }
      hide Laid, View;
      ok := pics.Return(slot);
      assert Snapshot() == if ok then s.(taken := s.taken - 1) else s;
    }

    /** Frees the oldest picture; only now are its bytes given back to the feeder. */
    method FlushFramePic(slot: nat) returns (ok: bool)
      requires Loose()
      requires pics.nValid != 0 ==> pics.Taken() > 0 && slot == pics.flushPos
      modifies this`nValidDataSize, pics
      ensures Loose() && (Valid() <==> old(Valid())) && (ok <==> old(pics.nValid) != 0)
      ensures !ok ==> Pipeline() == old(Pipeline())
      ensures ok ==>
                && old(Pipeline()).pics != []
                && Pipeline() == old(Pipeline()).(pics := old(Pipeline()).pics[1..], taken := old(Pipeline()).taken - 1)
                && nValidDataSize == old(nValidDataSize) - |old(Pipeline()).pics[0].bytes|
    {
      hide Lin, View, Laid;
      ghost var s := Snapshot();
      if pics.nValid == 0 {
        return false;
      }
      FlushPicView(s);
      HeadSlot();
      var p := pics.slots[slot];
      assert p == s.pics[0];
      ok := pics.Flush(slot);
      nValidDataSize := nValidDataSize - p.nlength;
      assert Snapshot() == SbmSnap.FlushPic(s);
    }

    lemma HeadSlot()
      requires Loose() && pics.nValid > 0
      ensures pics.slots[pics.flushPos] == pics.Contents()[0]
    {
      LinAt(pics.slots[..], pics.flushPos, pics.nValid);
    }

    method SetEos(b: bool)
      requires Loose()
      modifies this`eos
      ensures Loose() && (Valid() <==> old(Valid())) && Pipeline() == old(Pipeline()).(eos := b)
    {
      hide Lin, Laid, View;
      ghost var s := Snapshot();
      FlagsView(s, s.taken, s.found, b);
      eos := b;
      assert Snapshot() == s.(eos := b);
    }

    /** The reset message: both queues and the detector's record are cleared. */
    method Reset()
      requires Consistent()
      modifies this, frames, pics
      ensures Valid() && mem[..] == old(mem[..])
      ensures Pipeline() == EMPTY.(eos := old(eos), ptsList := old(ptsList))
      ensures nValidDataSize == 0 && writeAddr == 0
      ensures frames.nValid == frames.nUnread == frames.readPos == frames.writePos == frames.flushPos == 0
      ensures pics.nValid == pics.nUnread == pics.readPos == pics.writePos == pics.flushPos == 0
    {
      hide Laid, View;
      if curStream.Some? {
        FreeCurStream();
      }
      ClearRecord();
      ClearView(Snapshot());
    }

    method ClearRecord()
      requires Consistent() && curStream.None?
      modifies this, frames, pics
      ensures Consistent()
      ensures Snapshot() == Snap(mem[..], 0, 0, [], false, [], 0, 0, 0, false, None, old(ptsList), false, old(eos))
      ensures frames.nValid == frames.nUnread == frames.readPos == frames.writePos == frames.flushPos == 0
      ensures pics.nValid == pics.nUnread == pics.readPos == pics.writePos == pics.flushPos == 0
    {
      found, nDataSize, reback, curPic := false, 0, false, None;
      writeAddr, nValidDataSize := 0, 0;
      frames.Reset();
      pics.Reset();
    }

    // ----- detector: its building blocks

    /** Byte i after p, read through the turn of the ring; p itself may lie past the end. */
    function ReadByteIdx(p: nat, i: nat): (b: byte)
      requires p + i < 2 * mem.Length
      reads mem
      ensures p < mem.Length && i <= mem.Length ==> b == mem[Fwd(p, i, mem.Length)]
    {
      if p + i <= mem.Length - 1 then mem[p + i]
      else
        var d := mem.Length - 1 - p + 1;
        mem[i - d]
    }

    function PtrPlusOne(p: nat): (q: nat)
      requires p < mem.Length
      ensures q == Fwd(p, 1, mem.Length)
    {
      if p == mem.Length - 1 then 0 else p + 1
    }

    /**
     Frees the current chunk; what is left of it counts to the picture being built. Those bytes keep their
     place in the ring exactly if the picture has begun, or there are none.
     */
    method DropCurStream()
      requires Loose() && curStream.Some? && curPic.Some?
      modifies this, frames, pics.slots
      ensures Consistent() && mem[..] == old(mem[..]) && curPic == old(curPic) && eos == old(eos) && curStream.None?
      ensures Snapshot() == Drop(old(Snapshot()))
      ensures Valid() <==> old(pics.slots[curPic.value]).pDataStartAddr.Some? || old(nDataSize) == 0
      ensures Valid() ==> old(Pipeline()).pic.Some? && Pipeline() == LeaveChunk(old(Pipeline()))
    {
      hide Lin, Laid, View;
      ghost var s := Snapshot();
      DropView(s);
      var ok := frames.Flush(curStream.value);
      curStream := None;
      var p := pics.slots[curPic.value];
      pics.Put(p.(nlength := p.nlength + nDataSize));
      nDataSize := 0;
      dataptr := None;
      assert Snapshot() == Drop(s);
    }

    /**
     A chunk is read with wrapped addresses if it turns around the ring; the H.265 detector also does so at its
     end.
     */
    function Turns(codec: Codec, d: StreamData): (t: bool)
      ensures d.pData + d.nLength > mem.Length ==> t
    {
      match codec
      case Hevc => d.pData + d.nLength > mem.Length - 1
      case Avc => d.nLength > mem.Length - 1 - d.pData + 1
    }

    /** Opens the next chunk for the detector, or throws it away if it is empty. */
    method OpenNextStream(codec: Codec) returns (fed: bool)
      requires Valid() && curPic.Some? && curStream.None?
      modifies this, frames
      ensures Loose() && (!fed ==> Valid()) && mem[..] == old(mem[..]) && curPic == old(curPic) && eos == old(eos)
      ensures OpenChunk(old(Pipeline())) == if fed then Fed(Pipeline()) else Starved(Pipeline())
      ensures fed <==> curStream.Some?
      ensures fed ==> nDataSize > 0
    {
      hide Lin, Laid, View, OpenChunk, FramesLen, PicsLen, FlushAddr, Conserved, Turns;
      ghost var s := Snapshot();
      NextChunk(s);
      var slot := frames.Request();
      if slot.None? {
        assert Snapshot() == s;
        return false;
      }
      var d := frames.slots[slot.value];
      if d.nLength <= 0 {
        SkipEmptyView(s);
        FreeEmpty(slot.value);
        return false;
      }
      curStream := slot;
      dataptr := Some(d.pData);
      nDataSize := d.nLength;
      reback := Turns(codec, d);
      OpenView(s, reback);
      assert Snapshot() == Open(s, reback);
      fed := true;
    }

    /** The chunk just handed out is freed again. */
    method FreeEmpty(slot: nat)
      requires frames.Valid() && frames.Taken() == 1 && slot == frames.flushPos && curStream.None?
      requires frames.slots.Length == SBM_FRAME_FIFO_SIZE
      modifies frames
      ensures frames.Valid() && frames.Taken() == 0 && frames.Contents() == old(frames.Contents())[1..]
    {
      var ok := frames.Flush(slot);
    }

    method SupplyStreamData(codec: Codec) returns (fed: bool)
      requires Valid() && curPic.Some? && (curStream.Some? ==> nDataSize < 5)
      modifies this, frames, pics.slots
      ensures Loose() && (!fed ==> Valid()) && mem[..] == old(mem[..]) && curPic == old(curPic) && eos == old(eos)
      ensures old(Pipeline()).pic.Some?
      ensures Supply(old(Pipeline())) == if fed then Fed(Pipeline()) else Starved(Pipeline())
      ensures fed <==> curStream.Some?
      ensures fed ==> nDataSize > 0
    {
      HoldsPic(Snapshot());
      hide Lin, Laid, View, OpenChunk;
      Holding();
      if curStream.Some? {
        DropCurStream();
      }
      fed := OpenNextStream(codec);
    }

    /** A picture slot is claimed and cleared, if one is free. */
    method ClaimFramePic()
      requires Valid()
      modifies this, pics.slots
      ensures Valid() && mem[..] == old(mem[..]) && Pipeline() == Claim(old(Pipeline()))
      ensures curPic.Some? <==> old(curPic).Some? || old(pics.nValid) < 100
    {
      hide Lin, Laid, View;
      ghost var s := Snapshot();
      FlagsView(s, s.taken, s.found, s.eos);
      HoldsPic(s);
      if curPic.Some? || pics.nValid >= pics.slots.Length {
        return;
      }
      ClaimView(s);
      curPic := Some(pics.writePos);
      pics.Put(FramePicInfo([], 0, None, -1, true));
      ptsList := NO_PTS;
      assert Snapshot() == s.(pic := Some(FramePicInfo([], 0, None, -1, true)), ptsList := NO_PTS);
    }

    /** n bytes of the chunk pass to the picture. */
    method SkipCurStreamDataBytes(n: nat)
      requires Valid() && curStream.Some? && curPic.Some? && pics.slots[curPic.value].pDataStartAddr.Some?
      requires n <= nDataSize
      modifies this, pics.slots
      ensures Valid() && mem[..] == old(mem[..]) && curPic == old(curPic) && curStream == old(curStream)
      ensures eos == old(eos)
      ensures pics.slots[curPic.value].pDataStartAddr.Some? && nDataSize == old(nDataSize) - n && found == old(found)
      ensures old(Pipeline()).pic.Some? && old(Pipeline()).cur.Some? && n <= |old(Pipeline()).cur.value.rest|
      ensures Pipeline() == SkipBytes(old(Pipeline()), n)
    {
      hide Lin, Laid, View;
      ghost var s := Snapshot();
      CurFacts(s);
      SkipView(s, n);
      var p := dataptr.value + n;
      nDataSize := nDataSize - n;
      if p > mem.Length - 1 {
        p := p - (mem.Length - 1) - 1;
      }
      dataptr := Some(p);
      var f := pics.slots[curPic.value];
      pics.Put(f.(nlength := f.nlength + n));
      assert Snapshot() == Skip(s, n);
    }

    method StoreNaluInfo(nType: nat, size: nat)
      requires Valid() && curStream.Some? && curPic.Some? && pics.slots[curPic.value].pDataStartAddr.Some?
      requires nDataSize > 0 || pics.slots[curPic.value].nlength < mem.Length
      modifies this, pics.slots
      ensures Valid() && mem[..] == old(mem[..]) && curPic == old(curPic) && curStream == old(curStream)
      ensures eos == old(eos)
      ensures pics.slots[curPic.value].pDataStartAddr.Some? && nDataSize == old(nDataSize) && found == old(found)
      ensures old(Pipeline()).pic.Some? && old(Pipeline()).cur.Some?
      ensures Pipeline() == ListNalu(old(Pipeline()), nType, size)
    {
      hide Lin, Laid, View;
      ghost var s := Snapshot();
      CurFacts(s);
      StoreNaluView(s, nType, size);
      var f := pics.slots[curPic.value];
      var n := |f.naluInfoList|;
      HeadFrame();
      if n < MAX_FRAME_PTS_LIST_NUM {
        ptsList := ptsList[n := frames.slots[curStream.value].nPts];
      }
      pics.Put(f.(naluInfoList := f.naluInfoList + [NaluInfo(nType, dataptr.value, size)]));
      assert Snapshot() == StoreNalu(s, nType, size);
    }

    lemma HeadFrame()
      requires Valid() && frames.nValid > 0
      ensures frames.slots[frames.flushPos] == frames.Contents()[0]
    {
      LinAt(frames.slots[..], frames.flushPos, frames.nValid);
    }

    /** The first known time stamp among those of the picture's first units. */
    method ChooseFramePts() returns (pts: int)
      ensures pts == FirstKnown(ptsList)
    {
      pts := -1;
      var i := 0;
      while i < MAX_FRAME_PTS_LIST_NUM
        invariant 0 <= i <= MAX_FRAME_PTS_LIST_NUM && pts == -1
        invariant FirstKnown(ptsList) == FirstKnown(ptsList[i..])
      {
        if ptsList[i] != -1 {
          return ptsList[i];
        }
        i := i + 1;
      }
    }

    /** The picture being built joins the queue. */
    method AddFramePic()
      requires Consistent() && curPic.Some?
      modifies this`curPic, pics
      ensures Consistent() && curPic.None? && Snapshot() == Publish(old(Snapshot()))
    {
      pics.Publish();
      curPic := None;
    }

    /** The picture is complete. Less than five bytes left of a chunk are stranded by that. */
    method EmitFramePic()
      requires Loose() && curPic.Some?
      modifies this, pics, pics.slots
      ensures Loose() && mem[..] == old(mem[..]) && curPic.None?
      ensures Valid() <==> (curStream.Some? ==> nDataSize >= 5)
      ensures old(Pipeline()).pic.Some? && Pipeline() == Emit(old(Pipeline()))
    {
      hide Lin, Laid, View, FirstKnown;
      ghost var s := Snapshot();
      EmitView(s);
      found := false;
      var pts := ChooseFramePts();
      ReplaceCurPic(pics.slots[curPic.value].(nPts := pts));
      AddFramePic();
      assert Snapshot() == EmitPic(s);
    }

    /** What becomes of the picture when the rest of the chunk is no use, and is it given up? */
    method JudgeInvalidData() returns (f: FramePicInfo, bNeedAddFramePic: bool)
      requires Valid() && curStream.Some? && curPic.Some? && nDataSize > 0
      ensures bNeedAddFramePic == GivenUp(Snapshot())
      ensures var p := Snapshot().pic.value;
              f == p.(nlength := p.nlength + nDataSize, bValidFlag := p.bValidFlag && !bNeedAddFramePic)
    {
      hide Lin, Laid, View;
      ghost var s := Snapshot();
      CurFacts(s);
      AtStart(s);
      HeadFrame();
      var stream := frames.slots[curStream.value];
      f := pics.slots[curPic.value];
      bNeedAddFramePic := false;
      if dataptr.value == stream.pData && f.nlength == 0 {
        f := f.(nlength := stream.nLength, bValidFlag := false);
        bNeedAddFramePic := true;
      } else {
        f := f.(nlength := f.nlength + nDataSize);
        if f.nlength > MAX_INVALID_STREAM_DATA_SIZE {
          f := f.(bValidFlag := false);
          bNeedAddFramePic := true;
        }
      }
    }

    /** Without a usable unit the rest of the chunk joins the picture, which may be given up. */
    method DisposeInvalidStreamData()
      requires Valid() && curStream.Some? && curPic.Some? && nDataSize > 0
      requires pics.slots[curPic.value].pDataStartAddr.Some?
      modifies this, frames, pics, pics.slots
      ensures Valid() && mem[..] == old(mem[..]) && curStream.None?
      ensures old(Pipeline()).pic.Some? && old(Pipeline()).cur.Some? && Pipeline() == Dispose(old(Pipeline()))
    {
      hide Lin, Laid, View, Dispose;
      ghost var s := Snapshot();
      DiscardView(s);
      var f, bNeedAddFramePic := JudgeInvalidData();
      ReplaceCurPic(f);
      FreeCurStream();
      if bNeedAddFramePic {
        AddFramePic();
      }
      assert Snapshot() == Discard(s);
    }

    method ReplaceCurPic(f: FramePicInfo)
      requires Consistent() && curPic.Some?
      modifies pics.slots
      ensures Consistent() && Snapshot() == old(Snapshot()).(pic := Some(f))
    {
      pics.Put(f);
    }

    method FreeCurStream()
      requires Consistent() && curStream.Some?
      modifies this`curStream, this`dataptr, this`nDataSize, frames
      ensures Consistent() && curStream.None?
      ensures var s := old(Snapshot());
              && s.frames != []
              && Snapshot() == s.(frames := s.frames[1..], reading := false, nDataSize := 0, dataptr := 0)
    {
      var ok := frames.Flush(curStream.value);
      curStream := None;
      dataptr := None;
      nDataSize := 0;
    }

    /** Looks for a start code in the n bytes from p on, which turn around the ring. */
    method SearchRing(start: nat, n: nat) returns (ok: bool, nAfterStartCodeIdx: nat)
      requires start < mem.Length && n <= mem.Length
      ensures var r := FirstStartCode(Lin(mem[..], start, n), 0);
              (ok <==> r.Some?) && (ok ==> nAfterStartCodeIdx == r.value + 3)
    {
      hide FirstStartCode, Lin;
      ghost var rest := Lin(mem[..], start, n);
      LinAt(mem[..], start, n);
      var p := start;
      var nSize: int := n - 3;
      nAfterStartCodeIdx := 0;
      while nSize > 0
        invariant nSize == n - 3 - nAfterStartCodeIdx && nAfterStartCodeIdx <= n
        invariant p == Fwd(start, nAfterStartCodeIdx, mem.Length)
        invariant forall j :: 0 <= j < nAfterStartCodeIdx ==> !StartCodeAt(rest, j)
        decreases nSize
      {
        var b0 := ReadByteIdx(p, 0);
        var b1 := ReadByteIdx(p, 1);
        var b2 := ReadByteIdx(p, 2);
        FwdFwd(start, nAfterStartCodeIdx, 1, mem.Length);
        FwdFwd(start, nAfterStartCodeIdx, 2, mem.Length);
        if b0 == 0 && b1 == 0 && b2 == 1 {
          FirstStartCodeIs(rest, nAfterStartCodeIdx);
          return true, nAfterStartCodeIdx + 3;
        }
        p := PtrPlusOne(p);
        nAfterStartCodeIdx := nAfterStartCodeIdx + 1;
        nSize := nSize - 1;
      }
      ok := false;
    }

    /** The same for bytes that lie in one block. */
    method SearchFlat(start: nat, n: nat) returns (ok: bool, nAfterStartCodeIdx: nat)
      requires start < mem.Length && (start + n <= mem.Length || n == 0)
      ensures var r := FirstStartCode(Lin(mem[..], start, n), 0);
              (ok <==> r.Some?) && (ok ==> nAfterStartCodeIdx == r.value + 3)
    {
      hide FirstStartCode, Lin;
      ghost var rest := Lin(mem[..], start, n);
      LinAt(mem[..], start, n);
      var p := start;
      var nSize: int := n - 3;
      nAfterStartCodeIdx := 0;
      while nSize > 0
        invariant nSize == n - 3 - nAfterStartCodeIdx && nAfterStartCodeIdx <= n
        invariant p == start + nAfterStartCodeIdx
        invariant forall j :: 0 <= j < nAfterStartCodeIdx ==> !StartCodeAt(rest, j)
        decreases nSize
      {
        if mem[p] == 0 && mem[p + 1] == 0 && mem[p + 2] == 1 {
          FirstStartCodeIs(rest, nAfterStartCodeIdx);
          return true, nAfterStartCodeIdx + 3;
        }
        p := p + 1;
        nAfterStartCodeIdx := nAfterStartCodeIdx + 1;
        nSize := nSize - 1;
      }
      ok := false;
    }

    method SearchStartCode() returns (ok: bool, nAfterStartCodeIdx: nat)
      requires Valid() && curStream.Some?
      ensures Pipeline().cur.Some?
      ensures var r := FirstStartCode(Pipeline().cur.value.rest, 0);
              (ok <==> r.Some?) && (ok ==> nAfterStartCodeIdx == r.value + 3)
    {
      CurFacts(Snapshot());
      hide Laid, View, FirstStartCode, Lin;
      if reback {
        ok, nAfterStartCodeIdx := SearchRing(dataptr.value, nDataSize);
      } else {
        ok, nAfterStartCodeIdx := SearchFlat(dataptr.value, nDataSize);
      }
    }

    /** The picture begins at the data pointer, unless it has begun. */
    method BeginFramePic()
      requires Loose() && curStream.Some? && curPic.Some?
      modifies pics.slots
      ensures Valid() && mem[..] == old(mem[..]) && Pipeline() == old(Pipeline())
      ensures pics.slots[curPic.value].pDataStartAddr.Some? && nDataSize == old(nDataSize)
    {
      hide Lin, Laid, View;
      ghost var s := Snapshot();
      StartView(s);
      var f := pics.slots[curPic.value];
      if f.pDataStartAddr.None? {
        ReplaceCurPic(f.(pDataStartAddr := dataptr));
      }
      assert Snapshot() == Start(s);
    }

    /** After the last chunk a picture with its first slice is complete. */
    method FinishAtEos()
      requires Valid() && curStream.None? && curPic.Some?
      modifies this, pics, pics.slots
      ensures Valid() && mem[..] == old(mem[..])
      ensures old(Pipeline()).pic.Some? && Pipeline() == Finish(old(Pipeline()))
    {
      ghost var s := Snapshot();
      FlagsView(s, s.taken, s.found, s.eos);
      HoldsPic(s);
      hide Lin, Laid, View, Emit;
      if found && eos {
        EmitFramePic();
      }
    }

    /** Byte i after the data pointer. */
    method PeekByte(i: nat) returns (b: byte)
      requires Valid() && curStream.Some? && i < nDataSize + 6
      ensures Pipeline().cur.Some? && b == (Pipeline().cur.value.rest + Pipeline().cur.value.spill)[i]
    {
      hide Lin, Laid, View;
      CurFacts(Snapshot());
      ByteAhead(Snapshot(), i);
      b := ReadByteIdx(dataptr.value + i, 0);
    }

    method SetFound()
      requires Valid()
      modifies this`found
      ensures Valid() && found && Pipeline() == old(Pipeline()).(found := true)
    {
      hide Lin, Laid, View;
      ghost var s := Snapshot();
      FlagsView(s, s.taken, true, s.eos);
      found := true;
      assert Snapshot() == s.(found := true);
    }

    /**
     The header of the unit behind `skip` bytes of framing decides: either it belongs to the
     next picture and the one being built is emitted, or it belongs to this one.
     */
    method JudgeUnit(codec: Codec, skip: nat) returns (nNaluType: nat, emitted: bool)
      requires Valid() && curStream.Some? && curPic.Some? && skip < nDataSize + 4
      requires pics.slots[curPic.value].pDataStartAddr.Some?
      modifies this, pics, pics.slots
      ensures Loose() && mem[..] == old(mem[..])
      ensures var v := old(Pipeline());
              && v.pic.Some? && v.cur.Some? && skip < |v.cur.value.rest| + 4
              && nNaluType == HeaderType(codec, v.cur.value, skip)
              && emitted == (v.found && HeaderOpens(codec, v.cur.value, skip))
              && Pipeline() == if emitted then Emit(v)
                               else v.(found := v.found || HeaderFirst(codec, v.cur.value, skip))
      ensures emitted ==> curPic.None?
      ensures !emitted ==>
                && Valid() && curPic == old(curPic) && curStream == old(curStream) && nDataSize == old(nDataSize)
                && pics.slots[curPic.value] == old(pics.slots[curPic.value])
    {
      hide Lin, Laid, View, Emit;
      CurFacts(Snapshot());
      var b := PeekByte(skip);
      match codec
      case Hevc =>
        nNaluType := b % 128 / 2;
        if (nNaluType >= 32 && nNaluType <= 35) || nNaluType == 39 {
          if found {
            EmitFramePic();
            return nNaluType, true;
          }
        }
        if nNaluType <= 21 {
          var third := PeekByte(skip + 2);
          var bFirstSliceSegment := third / 128;
          assert bFirstSliceSegment == 1 <==> third >= 128;
          if bFirstSliceSegment == 1 {
            if !found {
              SetFound();
            } else {
              EmitFramePic();
              return nNaluType, true;
            }
          }
        }
        emitted := false;
      case Avc =>
        nNaluType := b % 32;
        if !found {
          SetFound();
        } else {
          EmitFramePic();
          return nNaluType, true;
        }
        emitted := false;
    }

    /** The unit behind `skip` bytes of framing is stored. */
    method StoreUnit(skip: nat, size: nat, nType: nat)
      requires Valid() && curStream.Some? && curPic.Some? && pics.slots[curPic.value].pDataStartAddr.Some?
      requires 0 < skip < nDataSize && skip + size <= nDataSize
      modifies this, pics.slots
      ensures Valid() && mem[..] == old(mem[..]) && curPic.Some? && curStream.Some?
      ensures var v := old(Pipeline());
              && v.pic.Some? && v.cur.Some? && skip + size <= |v.cur.value.rest|
              && Pipeline() == Store(v, skip, size, nType)
    {
      hide Lin, Laid, View, Store, SkipBytes, ListNalu;
      Holding();
      ghost var v := Pipeline();
      SkipCurStreamDataBytes(skip);
      StoreNaluInfo(nType, size);
      SkipCurStreamDataBytes(size);
      StoreSteps(v, skip, size, nType);
    }

    /** The unit behind a start code reaches to the next start code, or else to the end of the chunk. */
    method StoreUnitToNextStartCode(skip: nat, nType: nat)
      requires Valid() && curStream.Some? && curPic.Some? && pics.slots[curPic.value].pDataStartAddr.Some?
      requires 0 < skip < nDataSize
      modifies this, pics.slots
      ensures Valid() && mem[..] == old(mem[..]) && curPic.Some? && curStream.Some?
      ensures var v := old(Pipeline());
              && v.pic.Some? && v.cur.Some? && skip < |v.cur.value.rest|
              && var rest := v.cur.value.rest[skip..]; var next := FirstStartCode(rest, 0);
                 Pipeline() == Store(v, skip, if next.None? then |rest| else next.value, nType)
    {
      hide Lin, Laid, View, Store, SkipBytes, ListNalu, FirstStartCode;
      CurFacts(Snapshot());
      ghost var v := Pipeline();
      SkippedRest(v, skip);
      SkipCurStreamDataBytes(skip);
      var ok, nAfterStartCodeIdx := SearchStartCode();
      var nNaluSize := if !ok then nDataSize else nAfterStartCodeIdx - 3;
      StoreNaluInfo(nType, nNaluSize);
      SkipCurStreamDataBytes(nNaluSize);
      StoreSteps(v, skip, nNaluSize, nType);
    }

    /** One unit behind a start code. */
    method LookWithStartCode(codec: Codec) returns (end: PassEnd)
      requires Valid() && curStream.Some? && curPic.Some? && nDataSize > 0
      requires pics.slots[curPic.value].pDataStartAddr.Some?
      modifies this, frames, pics, pics.slots
      ensures Loose() && mem[..] == old(mem[..]) && end != Lost
      ensures if end == Again then Valid() && curPic.Some? && curStream.Some? else curPic.None? || curStream.None?
      ensures var v := old(Pipeline());
              && v.pic.Some? && v.cur.Some? && v.cur.value.rest != []
              && Look(codec, StartCode, v) == if end == Again then More(Pipeline()) else Done(Pipeline())
    {
      hide Lin, Laid, View, Emit, Dispose, FirstStartCode, HeaderType, HeaderFirst, HeaderOpens, Store;
      CurFacts(Snapshot());
      var ok, nAfterStartCodeIdx := SearchStartCode();
      if !ok || |pics.slots[curPic.value].naluInfoList| > MAX_NALU_NUM_IN_FRAME {
        DisposeInvalidStreamData();
        return Left;
      }
      var nNaluType, emitted := JudgeUnit(codec, nAfterStartCodeIdx);
      if emitted {
        return Left;
      }
      StoreUnitToNextStartCode(nAfterStartCodeIdx, nNaluType);
      end := Again;
    }

    /** The length at the data pointer, most significant byte first; H.264 keeps it in a signed word. */
    method ReadNaluSize(codec: Codec, prefix: Prefix) returns (size: int)
      requires Valid() && curStream.Some? && nDataSize > 0
      ensures Pipeline().cur.Some?
      ensures size == FrontLength(codec, prefix, Pipeline().cur.value.rest, Pipeline().cur.value.spill)
    {
      hide Lin, Laid, View;
      Holding();
      ghost var c := Pipeline().cur.value;
      size := 0;
      var i := 0;
      while i < prefix
        invariant 0 <= i <= prefix && size == BigEndian(c.rest + c.spill, i)
      {
        var b := PeekByte(i);
        size := 0x100 * size + b;
        i := i + 1;
      }
      if |c.rest| >= prefix {
        BigEndianPrefix(c.rest, c.spill, prefix);
      }
      if codec.Avc? {
        size := if size < 0x8000_0000 then size else size - 0x1_0000_0000;
      }
    }

    /**
     One unit behind its length. A length that has passed the check although no unit of that size is
     there ends what is modelled: the detector then counts off more than is left, or less than nothing.
     */
    method LookWithoutStartCode(codec: Codec, prefix: Prefix) returns (end: PassEnd)
      requires Valid() && curStream.Some? && curPic.Some? && nDataSize > 0
      requires pics.slots[curPic.value].pDataStartAddr.Some?
      modifies this, frames, pics, pics.slots
      ensures Loose() && mem[..] == old(mem[..])
      ensures if end == Left then curPic.None? || curStream.None? else Valid() && curPic.Some? && curStream.Some?
      ensures var v := old(Pipeline());
              && v.pic.Some? && v.cur.Some? && v.cur.value.rest != []
              && match end {
                   case Again => Look(codec, LengthPrefix(prefix), v) == More(Pipeline())
                   case Left => Look(codec, LengthPrefix(prefix), v) == Done(Pipeline())
                   case Lost => Look(codec, LengthPrefix(prefix), v).Astray?
                 }
    {
      hide Lin, Laid, View, Emit, Dispose, FrontLength, HeaderType, HeaderFirst, HeaderOpens, Store;
      CurFacts(Snapshot());
      var nNaluSize := ReadNaluSize(codec, prefix);
      var limit := nDataSize - prefix;
      if codec.Hevc? && nDataSize < prefix {
        limit := limit + 0x1_0000_0000;
      }
      if nNaluSize > limit || nNaluSize == 0 || |pics.slots[curPic.value].naluInfoList| > MAX_NALU_NUM_IN_FRAME {
        DisposeInvalidStreamData();
        return Left;
      }
      ghost var left := nDataSize;
      var nNaluType, emitted := JudgeUnit(codec, prefix);
      if emitted {
        return Left;
      }
      if nNaluSize < 0 || nNaluSize > nDataSize - prefix {
        return Lost;
      }
      StoreUnit(prefix, nNaluSize, nNaluType);
      end := Again;
    }

    /** The detector has something to look at, or leaves. */
    method EnsureData(codec: Codec, framing: Framing) returns (fed: bool)
      requires Valid() && curPic.Some?
      modifies this, frames, pics, pics.slots
      ensures Loose() && mem[..] == old(mem[..])
      ensures old(Pipeline()).pic.Some?
      ensures fed ==> curPic.Some? && curStream.Some? && nDataSize > 0
      ensures fed ==> Pipeline().pic.Some? && Pipeline().cur.Some? && Pipeline().cur.value.rest != []
      ensures !fed ==> curStream.None? && Valid()
      ensures Step(codec, framing, old(Pipeline())) ==
              if fed then Look(codec, framing, Pipeline()) else Done(Pipeline())
    {
      hide Lin, Laid, View, Look, Supply, Finish;
      HoldsPic(Snapshot());
      Holding();
      if nDataSize < 5 || dataptr.None? {
        fed := SupplyStreamData(codec);
        if !fed {
          FinishAtEos();
          return;
        }
        HoldsPic(Snapshot());
        Holding();
      }
      fed := true;
    }

    /**
     One pass of a detector's loop is one step of the pipeline; and the detector can go on after it exactly
     if it has not stranded the rest of a chunk.
     */
    method PassOnce(codec: Codec, framing: Framing) returns (end: PassEnd)
      requires Valid() && curPic.Some?
      modifies this, frames, pics, pics.slots
      ensures Loose() && mem[..] == old(mem[..])
      ensures end == Again ==> Valid() && curPic.Some?
      ensures end == Left ==> (Valid() <==> !Stranded(Pipeline()))
      ensures old(Pipeline()).pic.Some?
      ensures match end
              case Again => Step(codec, framing, old(Pipeline())) == More(Pipeline())
              case Left => Step(codec, framing, old(Pipeline())) == Done(Pipeline())
              case Lost => Step(codec, framing, old(Pipeline())).Astray?
    {
      hide Lin, Laid, View, Look, Step;
      var fed := EnsureData(codec, framing);
      if !fed {
        StrandedNow();
        return Left;
      }
      BeginFramePic();
      match framing {
        case StartCode => end := LookWithStartCode(codec);
        case LengthPrefix(prefix) => end := LookWithoutStartCode(codec, prefix);
      }
      if end == Left {
        StrandedNow();
      }
    }

    /** A call of the detector, for Annex B streams or for length-prefixed ones, is `Detect` on the pipeline. */
    method DetectOneFramePic(codec: Codec, framing: Framing) returns (lost: bool)
      requires Valid()
      modifies this, frames, pics, pics.slots
      ensures Loose() && mem[..] == old(mem[..])
      ensures lost <==> Detect(codec, framing, old(Pipeline())).Astray?
      ensures !lost ==> Detect(codec, framing, old(Pipeline())) == Done(Pipeline())
      ensures !lost ==> (Valid() <==> !Stranded(Pipeline()))
    {
      hide Lin, Laid, View, Step, Stranded, Consistent, Claim;
      ClaimFramePic();
      HoldsPic(Snapshot());
      if curPic.None? {
        StrandedNow();
        return false;
      }
      ghost var start := Pipeline();
      var end := Again;
      while end == Again
        invariant Loose() && mem[..] == old(mem[..])
        invariant end == Again ==> Valid() && curPic.Some? && Pipeline().pic.Some?
        invariant end == Left ==> (Valid() <==> !Stranded(Pipeline()))
        invariant match end
                  case Again => Loop(codec, framing, start) == Loop(codec, framing, Pipeline())
                  case Left => Loop(codec, framing, start) == Done(Pipeline())
                  case Lost => Loop(codec, framing, start).Astray?
        decreases end == Again, |Pipeline().chunks|, if Pipeline().cur.Some? then |Pipeline().cur.value.rest| else 0
      {
        end := PassOnce(codec, framing);
      }
      lost := end == Lost;
    }

    /** What the record says about the chunk, the pipeline says too. */
    lemma Holding()
      requires Loose()
      ensures Pipeline().cur.Some? <==> curStream.Some?
      ensures curStream.Some? ==> |Pipeline().cur.value.rest| == nDataSize
      ensures curStream.None? ==> nDataSize == 0
    {
      if curStream.Some? {
        CurFacts(Snapshot());
      }
    }

    lemma StrandedNow()
      requires Loose() && (curPic.None? || curStream.None?)
      ensures Valid() <==> !Stranded(Pipeline())
    {
      Holding();
      HoldsPic(Snapshot());
    }
  }

  lemma SkippedRest(v: Flow, n: nat)
    requires v.pic.Some? && v.cur.Some? && n <= |v.cur.value.rest|
    ensures SkipBytes(v, n).cur.Some? && SkipBytes(v, n).cur.value.rest == v.cur.value.rest[n..]
  {
  }
}
