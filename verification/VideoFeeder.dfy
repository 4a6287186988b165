/**
 The decoder's entry points for stream data: room is asked for, filled in one or two
 regions, and submitted as parts of frames.
 */
module VideoFeeder {
  import opened Common
  import opened Ring
  import opened FeedChannel
  import Sbm = SbmStream

  /** Granted room: one region, and a second one at the start of the ring if it turns around. */
  datatype Grant = Grant(buf: nat, bufSize: nat, ringBuf: nat, ringBufSize: nat)

  function Cell(g: Grant, i: nat): nat {
    if i < g.bufSize then g.buf + i else g.ringBuf + (i - g.bufSize)
  }

  /** VideoStreamDataInfo as it is submitted. */
  datatype DataInfo = DataInfo(bIsFirstPart: bool, bIsLastPart: bool, pData: Option<nat>, nLength: nat, nPts: int)

  class VideoFeeder {
    const sbm: Sbm.SbmStream
    // the frame being put together
    var pData: Option<nat>
    var nLength: nat
    var nPts: int

    /** The pending bytes lie at the write address, in room that was granted. */
    ghost predicate Valid()
      reads this, sbm, sbm.frames, sbm.frames.slots
    {
      && sbm.Valid()
      && (nLength > 0 ==> nLength + sbm.nValidDataSize + 64 <= sbm.mem.Length)
      && (pData.Some? ==> pData.value == sbm.writeAddr)
    }

    ghost function Channel(): Channel
      reads this, sbm, sbm.mem, sbm.frames, sbm.frames.slots
      requires Valid()
    {
      FeedChannel.Channel(sbm.Frames(), sbm.frames.Taken(),
                          if pData.Some? then Building(Lin(sbm.mem[..], sbm.writeAddr, nLength))
                          else Lost(nLength), nPts)
    }

    /** Where the next part goes: behind the write address and what is pending. */
    ghost function NextAddr(): (a: nat)
      reads this, sbm, sbm.frames, sbm.frames.slots
      requires Valid()
    {
      Fwd(sbm.writeAddr, nLength, sbm.mem.Length)
    }

    constructor (nBufferSize: nat)
      requires nBufferSize > 0
      ensures Valid() && Channel() == FeedChannel.EMPTY && sbm.mem.Length == nBufferSize
      ensures fresh(sbm) && fresh(sbm.mem) && fresh(sbm.frames) && fresh(sbm.frames.slots)
    {
      sbm := new Sbm.SbmStream(nBufferSize);
      pData, nLength, nPts := None, 0, NO_PTS;
    }

    /** Grants room behind the pending bytes; four bytes even if none are asked for. */
    method RequestVideoStreamBuffer(nRequireSize: nat) returns (grant: Option<Grant>)
      requires Valid()
      ensures var size := if nRequireSize == 0 then 4 else nRequireSize;
              && (grant.Some? <==> sbm.frames.nValid < 2048
                                   && size + nLength + 64 <= sbm.mem.Length - sbm.nValidDataSize)
              && (grant.Some? ==>
                    && grant.value.bufSize + grant.value.ringBufSize == size
                    && forall i :: 0 <= i < size ==>
                         Cell(grant.value, i) == Fwd(sbm.writeAddr, nLength + i, sbm.mem.Length))
    {
      var size := if nRequireSize == 0 then 4 else nRequireSize;
      size := size + nLength;
      var pMem := sbm.RequestBuffer(size);
      if pMem.None? {
        return None;
      }
      var nFreeSize := size;
      var pStreamBufEnd := sbm.mem.Length;
      var pStart := pMem.value + nLength;
      if pStart >= pStreamBufEnd {
        pStart := pStart - sbm.mem.Length;
      }
      nFreeSize := nFreeSize - nLength;
      if pStart + nFreeSize <= pStreamBufEnd {
        grant := Some(Grant(pStart, nFreeSize, 0, 0));
      } else {
        grant := Some(Grant(pStart, pStreamBufEnd - pStart, 0, nFreeSize - (pStreamBufEnd - pStart)));
      }
    }

    /** The feeder fills granted room from its start; frames and pending bytes stay as they are. */
    method Fill(g: Grant, data: seq<byte>)
      requires Valid() && |data| <= g.bufSize + g.ringBufSize
      requires nLength + |data| + sbm.nValidDataSize + 64 <= sbm.mem.Length
      requires forall i :: 0 <= i < |data| ==> Cell(g, i) == Fwd(sbm.writeAddr, nLength + i, sbm.mem.Length)
      modifies sbm.mem
      ensures Valid() && Channel() == old(Channel())
      ensures Lin(sbm.mem[..], NextAddr(), |data|) == data
    {
      hide Lin;
      var i := 0;
      while i < |data|
        invariant 0 <= i <= |data| && Valid() && Channel() == old(Channel())
        invariant Lin(sbm.mem[..], NextAddr(), i) == data[..i]
      {
        assert Cell(g, i) == Fwd(sbm.writeAddr, nLength + i, sbm.mem.Length);
        WriteNext(i, data[i]);
        assert data[..i + 1] == data[..i] + [data[i]];
        i := i + 1;
      }
      assert data[..|data|] == data;
    }

    /** One byte behind the pending ones and i more. */
    method WriteNext(i: nat, b: byte)
      requires Valid() && nLength + i + 1 + sbm.nValidDataSize <= sbm.mem.Length
      modifies sbm.mem
      ensures Valid() && Channel() == old(Channel())
      ensures Lin(sbm.mem[..], NextAddr(), i + 1) == Lin(old(sbm.mem[..]), NextAddr(), i) + [b]
    {
      hide Lin, Agree;
      ghost var was, w := sbm.mem[..], sbm.writeAddr;
      WriteAgrees(was, w, nLength + i, nLength + i, b);
      sbm.Fill(nLength + i, b);
      LinAgree(was, sbm.mem[..], w, nLength + i, 0, nLength);
      LinAgree(was, sbm.mem[..], w, nLength + i, nLength, i);
      LinSplit(sbm.mem[..], NextAddr(), i, 1);
      FwdFwd(w, nLength, i, sbm.mem.Length);
      LinOne(sbm.mem[..], Fwd(w, nLength + i, sbm.mem.Length));
    }

    /** The part a submission stands for: the bytes that lie where it was granted room. */
    ghost function PartOf(d: DataInfo): Part
      reads this, sbm, sbm.mem, sbm.frames, sbm.frames.slots
      requires Valid() && d.nLength <= sbm.mem.Length
    {
      Part(d.bIsFirstPart, d.bIsLastPart, d.pData.Some?, Lin(sbm.mem[..], NextAddr(), d.nLength), d.nPts)
    }

    /**
     Takes a part in. The pending bytes stay at the write address exactly when the part does not
     strand them, and then the channel goes on as declared.
     */
    method SubmitVideoStreamData(d: DataInfo)
      requires Valid() && d.nLength + nLength + sbm.nValidDataSize + 64 <= sbm.mem.Length
      requires d.bIsFirstPart && d.pData.Some? ==> d.pData.value == NextAddr()
      modifies this, sbm, sbm.frames, sbm.frames.slots
      ensures Valid() <==> !Strands(old(Channel()), old(PartOf(d)))
      ensures Valid() ==> Channel() == Submit(old(Channel()), old(PartOf(d)))
    {
      hide Lin;
      if d.bIsFirstPart {
        BeginFrame(d);
      } else {
        LinSplit(sbm.mem[..], sbm.writeAddr, nLength, d.nLength);
        nLength := nLength + d.nLength;
        if nPts == -1 && d.nPts != -1 {
          nPts := d.nPts;
        }
      }
      if d.bIsLastPart {
        FinishFrame();
      }
    }

    /** A frame not ended is added as it is; then the new one begins. */
    method BeginFrame(d: DataInfo)
      requires Valid() && d.nLength + nLength + sbm.nValidDataSize + 64 <= sbm.mem.Length
      requires d.pData.Some? ==> d.pData.value == NextAddr()
      modifies this, sbm, sbm.frames, sbm.frames.slots
      ensures sbm.Valid() && nLength + sbm.nValidDataSize + 64 <= sbm.mem.Length
      ensures pData.Some? ==> pData.value < sbm.mem.Length
      ensures Valid() <==> !(d.pData.Some? && Count(old(Channel()).pending) != 0
                               && !(old(Channel()).pending.Building? && Room(old(Channel()))))
      ensures !Valid() ==>
                pData.Some? && sbm.Frames() == old(sbm.Frames()) && sbm.frames.Taken() == old(sbm.frames.Taken())
      ensures Valid() ==> Channel() == Begin(old(Channel()), old(PartOf(d)))
    {
      hide Lin;
      if nLength != 0 {
        var _ := sbm.AddStream(pData, nLength, nPts);
      }
      pData, nLength, nPts := d.pData, d.nLength, d.nPts;
    }

    /** The frame is added, and whether or not there was room the next one starts afresh. */
    method FinishFrame()
      requires sbm.Valid() && nLength + sbm.nValidDataSize + 64 <= sbm.mem.Length
      requires pData.Some? ==> pData.value < sbm.mem.Length
      modifies this, sbm, sbm.frames, sbm.frames.slots
      ensures Valid() <==> old(Valid()) || (old(pData).Some? && old(sbm.frames.nValid) >= 2048)
      ensures pData == None && nLength == 0 && nPts == NO_PTS
      ensures old(sbm.frames.nValid) >= 2048 ==>
                sbm.Frames() == old(sbm.Frames()) && sbm.frames.Taken() == old(sbm.frames.Taken())
      ensures old(Valid()) ==> Channel() == Close(old(Channel())).(pending := Lost(0), nPts := NO_PTS)
    {
      hide Lin;
      var _ := sbm.AddStream(pData, nLength, nPts);
      pData, nLength, nPts := None, 0, -1;
    }

    // ----- the decoder at the other end

    /** Hands out the oldest frame not handed out yet; its descriptor reads the bytes of that frame. */
    method RequestStream() returns (slot: Option<nat>)
      requires Valid()
      modifies sbm.frames
      ensures Valid() && Channel() == Apply(old(Channel()), Take)
      ensures slot.None? <==> old(Channel()).taken == |old(Channel()).frames|
      ensures slot.Some? ==>
                && slot.value < sbm.frames.slots.Length
                && slot.value == Fwd(sbm.frames.flushPos, Channel().taken - 1, sbm.frames.slots.Length)
                && var d := sbm.frames.slots[slot.value];
                   && d.pData < sbm.mem.Length && d.nLength <= sbm.mem.Length
                   && Sbm.ReadFrame(sbm.mem[..], d) == Channel().frames[old(Channel()).taken]
    {
      hide Lin;
      slot := sbm.RequestStream();
    }

    /** Takes back the frame handed out last. */
    method ReturnStream(slot: nat) returns (ok: bool)
      requires Valid() && Allowed(Channel(), GiveBack)
      requires slot == Fwd(sbm.frames.flushPos, Channel().taken - 1, sbm.frames.slots.Length)
      modifies sbm.frames
      ensures Valid() && ok && Channel() == Apply(old(Channel()), GiveBack)
    {
      hide Lin;
      ok := sbm.ReturnStream(slot);
    }

    /** Frees the oldest frame with its bytes; the pending bytes stay where they are. */
    method FlushStream(slot: nat) returns (ok: bool)
      requires Valid() && Allowed(Channel(), Free) && slot == sbm.frames.flushPos
      modifies sbm`nValidDataSize, sbm.frames
      ensures Valid() && ok && Channel() == Apply(old(Channel()), Free)
    {
      hide Lin;
      ok := sbm.FlushStream(slot);
    }
  }

  lemma LinOne(m: seq<byte>, a: nat)
    requires a < |m|
    ensures Lin(m, a, 1) == [m[a]]
  {
    LinAt(m, a, 1);
  }

  /** A part with no frame to belong to, then a new frame: its bytes would not lie at the write address. */
  lemma OrphanStrandsFrame()
    ensures var orphan := Part(false, false, false, [1], NO_PTS); var frame := Part(true, true, true, [2], NO_PTS);
            !Strands(EMPTY, orphan) && Strands(Submit(EMPTY, orphan), frame)
  {
  }
}
