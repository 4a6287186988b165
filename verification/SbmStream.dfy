/**
 The stream-mode buffer manager: one byte ring and one queue of frames, each read
 through its descriptor where the feeder wrote it.
 */
module SbmStream {
  import opened Common
  import opened Ring
  import opened SbmSnap
  import Fifo = CursorFifo

  const SBM_FRAME_FIFO_SIZE := 2048

  /** A frame as a decoder reads it. */
  datatype Frame = Frame(bytes: seq<byte>, nPts: int)

  ghost predicate Readable(size: nat, fs: seq<StreamData>) {
    forall i :: 0 <= i < |fs| ==> fs[i].pData < size && fs[i].nLength <= size
  }

  ghost function ReadFrame(m: seq<byte>, f: StreamData): Frame
    requires f.pData < |m| && f.nLength <= |m|
  {
    Frame(Lin(m, f.pData, f.nLength), f.nPts)
  }

  ghost function ReadAll(m: seq<byte>, fs: seq<StreamData>): (r: seq<Frame>)
    requires Readable(|m|, fs)
    ensures |r| == |fs| && forall i :: 0 <= i < |fs| ==> r[i] == ReadFrame(m, fs[i])
  {
    if fs == [] then [] else [ReadFrame(m, fs[0])] + ReadAll(m, fs[1..])
  }

  lemma {:induction false} TiledReadable(a: nat, fs: seq<StreamData>, size: nat)
    requires a < size && FramesLen(fs) <= size && FramesTiled(a, fs, size)
    ensures Readable(size, fs)
    decreases |fs|
  {
    if fs != [] {
      TiledReadable(Fwd(a, fs[0].nLength, size), fs[1..], size);
      assert forall i :: 1 <= i < |fs| ==> fs[i] == fs[1..][i - 1];
    }
  }

  lemma ReadAppend(m: seq<byte>, fs: seq<StreamData>, f: StreamData)
    requires Readable(|m|, fs) && f.pData < |m| && f.nLength <= |m|
    ensures Readable(|m|, fs + [f]) && ReadAll(m, fs + [f]) == ReadAll(m, fs) + [ReadFrame(m, f)]
  {
    hide ReadFrame;
    var l, r := ReadAll(m, fs + [f]), ReadAll(m, fs) + [ReadFrame(m, f)];
    assert |l| == |r| && forall i :: 0 <= i < |l| ==> l[i] == r[i];
  }

  /** Where the first n cells from a on agree, frames tiled there read the same. */
  lemma {:induction false} ReadAgrees(m: seq<byte>, m': seq<byte>, a: nat, n: nat, off: nat, fs: seq<StreamData>)
    requires |m| == |m'| && a < |m| && off + FramesLen(fs) <= n <= |m| && Agree(m, m', a, n)
    requires FramesTiled(Fwd(a, off, |m|), fs, |m|) && Readable(|m|, fs)
    ensures ReadAll(m, fs) == ReadAll(m', fs)
    decreases |fs|
  {
    hide Lin, Agree;
    if fs != [] {
      LinAgree(m, m', a, n, off, fs[0].nLength);
      FwdFwd(a, off, fs[0].nLength, |m|);
      ReadAgrees(m, m', a, n, off + fs[0].nLength, fs[1..]);
    }
  }

  class SbmStream {
    const mem: array<byte>
    const frames: Fifo.CursorFifo<StreamData>
    var writeAddr: nat
    var nValidDataSize: nat

    ghost predicate Consistent()
      reads this, frames
    {
      && frames.Valid() && frames.slots.Length == SBM_FRAME_FIFO_SIZE
      && writeAddr < mem.Length && nValidDataSize <= mem.Length
    }

    ghost function FlushAddr(): (a: nat)
      reads this, frames
      requires Consistent()
      ensures a < mem.Length && Fwd(a, nValidDataSize, mem.Length) == writeAddr
    {
      Back(writeAddr, nValidDataSize, mem.Length)
    }

    /** The descriptors cover the last nValidDataSize cells before the write address, once and in order. */
    ghost predicate Valid()
      reads this, frames, frames.slots
    {
      && Consistent()
      && FramesLen(frames.Contents()) == nValidDataSize
      && FramesTiled(FlushAddr(), frames.Contents(), mem.Length)
    }

    /** The frames waiting or handed out, oldest first, as they read in the ring now. */
    ghost function Frames(): (r: seq<Frame>)
      reads this, mem, frames, frames.slots
      requires Valid()
      ensures |r| == frames.nValid
    {
      TiledReadable(FlushAddr(), frames.Contents(), mem.Length);
      ReadAll(mem[..], frames.Contents())
    }

    constructor (nBufferSize: nat)
      requires nBufferSize > 0
      ensures Valid() && fresh(mem) && fresh(frames) && fresh(frames.slots)
      ensures mem.Length == nBufferSize && Frames() == [] && frames.Taken() == 0 && nValidDataSize == 0
    {
      mem := new byte[nBufferSize];
      frames := new Fifo.CursorFifo(SBM_FRAME_FIFO_SIZE, StreamData(0, 0, -1));
      writeAddr, nValidDataSize := 0, 0;
    }

    method Reset()
      requires Consistent()
      modifies this, frames
      ensures Valid() && Frames() == [] && frames.Taken() == 0 && writeAddr == 0 && nValidDataSize == 0
    {
      writeAddr, nValidDataSize := 0, 0;
      frames.Reset();
    }

    /** Grants room at the write address; no granted cell holds a byte of a frame not flushed. */
    method RequestBuffer(nRequireSize: nat) returns (buf: Option<nat>)
      requires Valid()
      ensures buf.Some? <==> frames.nValid < 2048 && nRequireSize + 64 <= mem.Length - nValidDataSize
      ensures buf.Some? ==> buf.value == writeAddr
      ensures buf.Some? ==> forall i, k :: 0 <= i < nRequireSize && 0 <= k < nValidDataSize ==>
                Fwd(buf.value, i, mem.Length) != Fwd(FlushAddr(), k, mem.Length)
    {
      if frames.nValid >= frames.slots.Length {
        return None;
      }
      if nValidDataSize < mem.Length {
        var nFreeSize := mem.Length - nValidDataSize;
        if nRequireSize + 64 > nFreeSize {
          return None;
        }
        buf := Some(writeAddr);
        ghost var f := FlushAddr();
        forall i, k | 0 <= i < nRequireSize && 0 <= k < nValidDataSize
          ensures Fwd(writeAddr, i, mem.Length) != Fwd(f, k, mem.Length)
        {
          FwdFwd(f, nValidDataSize, i, mem.Length);
          FwdInjective(f, nValidDataSize + i, k, mem.Length);
        }
      } else {
        buf := None;
      }
    }

    /** A byte written beyond the valid data changes no frame. */
    method Fill(off: nat, b: byte)
      requires Valid() && off < mem.Length - nValidDataSize
      modifies mem
      ensures Valid() && Frames() == old(Frames())
      ensures mem[..] == old(mem[..])[Fwd(writeAddr, off, mem.Length) := b]
    {
      hide Lin, FramesTiled, FramesLen, ReadAll;
      ghost var was := mem[..];
      ghost var a, fs := FlushAddr(), frames.Contents();
      FwdFwd(a, nValidDataSize, off, mem.Length);
      WriteAgrees(was, a, nValidDataSize, nValidDataSize + off, b);
      mem[if writeAddr + off >= mem.Length then writeAddr + off - mem.Length else writeAddr + off] := b;
      TiledReadable(a, fs, mem.Length);
      ReadAgrees(was, mem[..], a, nValidDataSize, 0, fs);
    }

    /** Adds a frame. The ring stays tidy exactly when the frame starts at the write address. */
    method AddStream(pData: Option<nat>, nLength: nat, nPts: int) returns (ok: bool)
      requires Valid() && (pData.Some? ==> pData.value < mem.Length)
      modifies this, frames, frames.slots
      ensures Consistent()
      ensures ok <==>
              && pData.Some? && old(frames.nValid) < 2048
              && nLength + old(nValidDataSize) <= mem.Length
      ensures !ok ==> Valid() && Frames() == old(Frames()) && writeAddr == old(writeAddr)
                      && nValidDataSize == old(nValidDataSize)
      ensures frames.Taken() == old(frames.Taken())
      ensures ok ==>
                && (Valid() <==> pData.value == old(writeAddr))
                && writeAddr == Fwd(old(writeAddr), nLength, mem.Length)
                && nValidDataSize == old(nValidDataSize) + nLength && frames.nValid == old(frames.nValid) + 1
                && (Valid() ==> Frames() == old(Frames()) + [Frame(Lin(mem[..], old(writeAddr), nLength), nPts)])
    {
      hide Lin, FramesTiled, FramesLen, ReadAll, ToChunks, ToChunk;
      if pData.None? {
        return false;
      }
      if frames.nValid >= frames.slots.Length {
        return false;
      }
      if nLength + nValidDataSize > mem.Length {
        return false;
      }
      ghost var a, fs, n := FlushAddr(), frames.Contents(), nValidDataSize;
      var d := StreamData(pData.value, nLength, nPts);
      frames.Put(d);
      frames.Publish();
      nValidDataSize := nValidDataSize + nLength;
      var pNewWriteAddr := writeAddr + nLength;
      if pNewWriteAddr > mem.Length - 1 {
        pNewWriteAddr := pNewWriteAddr - mem.Length;
      }
      writeAddr := pNewWriteAddr;
      FwdFwd(a, n, nLength, mem.Length);
      TiledAppend(a, fs, d, mem.Length);
      TiledReadable(a, fs, mem.Length);
      ReadAppend(mem[..], fs, d);
      ok := true;
    }

    /** Hands out the oldest frame not handed out yet. */
    method RequestStream() returns (slot: Option<nat>)
      requires Valid()
      modifies frames
      ensures Valid() && Frames() == old(Frames())
      ensures slot.None? <==> old(frames.Taken()) == |Frames()|
      ensures frames.Taken() == old(frames.Taken()) + if slot.Some? then 1 else 0
      ensures slot.Some? ==>
                && slot.value == Fwd(frames.flushPos, frames.Taken() - 1, frames.slots.Length)
                && var d := frames.slots[slot.value];
                   && d.pData < mem.Length && d.nLength <= mem.Length
                   && ReadFrame(mem[..], d) == Frames()[old(frames.Taken())]
    {
      hide Lin, FramesTiled, FramesLen, ReadFrame;
      TiledReadable(FlushAddr(), frames.Contents(), mem.Length);
      slot := frames.Request();
    }

    /** Takes back the frame handed out last. */
    method ReturnStream(slot: nat) returns (ok: bool)
      requires Valid()
      requires frames.nValid != 0 ==>
                 frames.Taken() > 0 && slot == Fwd(frames.flushPos, frames.Taken() - 1, frames.slots.Length)
      modifies frames
      ensures Valid() && Frames() == old(Frames()) && (ok <==> |Frames()| != 0)
      ensures frames.Taken() == old(frames.Taken()) - if ok then 1 else 0
    {
      ok := frames.Return(slot);
    }

    /** Frees the oldest frame with its bytes. */
    method FlushStream(slot: nat) returns (ok: bool)
      requires Valid()
      requires frames.nValid != 0 ==> frames.Taken() > 0 && slot == frames.flushPos
      modifies this`nValidDataSize, frames
      ensures Valid() && (ok <==> |old(Frames())| != 0)
      ensures frames.Taken() == old(frames.Taken()) - if ok then 1 else 0
      ensures Frames() == if ok then old(Frames())[1..] else []
      ensures nValidDataSize == old(nValidDataSize) - if ok then |old(Frames())[0].bytes| else 0
    {
      hide Lin;
      if frames.nValid == 0 {
        return false;
      }
      ghost var a, fs, n := FlushAddr(), frames.Contents(), nValidDataSize;
      TiledReadable(a, fs, mem.Length);
      LinAt(frames.slots[..], frames.flushPos, frames.nValid);
      var pDataInfo := frames.slots[slot];
      assert pDataInfo == fs[0];
      FwdFwd(a, fs[0].nLength, n - fs[0].nLength, mem.Length);
      ok := frames.Flush(slot);
      nValidDataSize := nValidDataSize - pDataInfo.nLength;
    }
  }

  lemma {:induction false} TiledAppend(a: nat, fs: seq<StreamData>, f: StreamData, size: nat)
    requires a < size && FramesLen(fs) + f.nLength <= size && FramesTiled(a, fs, size)
    ensures FramesLen(fs + [f]) == FramesLen(fs) + f.nLength
    ensures FramesTiled(a, fs + [f], size) <==> f.pData == Fwd(a, FramesLen(fs), size)
    decreases |fs|
  {
    if fs == [] {
      assert fs + [f] == [f];
    } else {
      TiledAppend(Fwd(a, fs[0].nLength, size), fs[1..], f, size);
      FwdFwd(a, fs[0].nLength, FramesLen(fs[1..]), size);
      assert (fs + [f])[1..] == fs[1..] + [f] && (fs + [f])[0] == fs[0];
    }
  }
}
