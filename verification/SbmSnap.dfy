/**
 The frame-mode stream buffer manager between two steps, as a value: ring memory,
 descriptors holding ring addresses, and the detector's record. `Tiled` says how
 the descriptors lie in the ring, and `View` reads off the pipeline they stand for.
 */
module SbmSnap {
  import opened Common
  import opened Ring
  import opened NalUnits
  import opened SbmFlow

  /** A submitted chunk (VideoStreamDataInfo). */
  datatype StreamData = StreamData(pData: nat, nLength: nat, nPts: int)

  datatype NaluInfo = NaluInfo(nType: nat, pDataBuf: nat, nDataSize: nat)

  datatype FramePicInfo = FramePicInfo(naluInfoList: seq<NaluInfo>, nlength: nat, pDataStartAddr: Option<nat>,
                                       nPts: int, bValidFlag: bool)

  /**
   `frames` are the valid chunk descriptors, of which the detector has taken the first
   if `reading`; `pics` are the valid pictures, of which the decoder has taken `taken`.
   */
  datatype Snap = Snap(mem: seq<byte>, writeAddr: nat, nValidDataSize: nat,
                       frames: seq<StreamData>, reading: bool, pics: seq<FramePicInfo>, taken: nat,
                       dataptr: nat, nDataSize: nat, reback: bool,
                       pic: Option<FramePicInfo>, ptsList: PtsList, found: bool, eos: bool)

  function PicsLen(ps: seq<FramePicInfo>): nat {
    if ps == [] then 0 else ps[0].nlength + PicsLen(ps[1..])
  }

  function FramesLen(fs: seq<StreamData>): nat {
    if fs == [] then 0 else fs[0].nLength + FramesLen(fs[1..])
  }

  /** The pictures are consecutive stretches of the ring from a on. */
  ghost predicate PicsTiled(a: nat, ps: seq<FramePicInfo>, size: nat)
    requires a < size && PicsLen(ps) <= size
    decreases |ps|
  {
    ps == [] ||
    (PicTiled(a, ps[0], size) && PicsTiled(Fwd(a, ps[0].nlength, size), ps[1..], size))
  }

  ghost predicate PicTiled(a: nat, p: FramePicInfo, size: nat)
  {
    && (p.pDataStartAddr.Some? ==> p.pDataStartAddr.value == a)
    && (p.pDataStartAddr.None? ==> p.nlength == 0 && p.naluInfoList == [])
    && forall k :: 0 <= k < |p.naluInfoList| ==> p.naluInfoList[k].pDataBuf < size
  }

  /** So are the chunks. */
  ghost predicate FramesTiled(a: nat, fs: seq<StreamData>, size: nat)
    requires a < size && FramesLen(fs) <= size
    decreases |fs|
  {
    fs == [] || (fs[0].pData == a && FramesTiled(Fwd(a, fs[0].nLength, size), fs[1..], size))
  }

  function Unread(s: Snap): seq<StreamData> {
    if s.reading && s.frames != [] then s.frames[1..] else s.frames
  }

  function CurLen(s: Snap): nat {
    if s.pic.Some? then s.pic.value.nlength else 0
  }

  /** The oldest byte not flushed lies nValidDataSize before the write address. */
  function FlushAddr(s: Snap): (a: nat)
    requires s.writeAddr < |s.mem| && s.nValidDataSize <= |s.mem|
    ensures a < |s.mem| && Fwd(a, s.nValidDataSize, |s.mem|) == s.writeAddr
  {
    if s.writeAddr >= s.nValidDataSize then s.writeAddr - s.nValidDataSize
    else s.writeAddr + |s.mem| - s.nValidDataSize
  }

  /**
   nValidDataSize counts every byte of the pictures, of the one being built and of the
   chunks, and leaves 64 bytes of the ring clear.
   */
  ghost predicate Conserved(s: Snap) {
    && s.writeAddr < |s.mem| && s.nValidDataSize + 64 <= |s.mem|
    && s.nValidDataSize == PicsLen(s.pics) + CurLen(s) + s.nDataSize + FramesLen(Unread(s))
    && (s.reading ==> s.frames != []) && s.taken <= |s.pics|
  }

  function PicAddr(s: Snap): (a: nat)
    requires Conserved(s)
    ensures a < |s.mem|
  {
    Fwd(FlushAddr(s), PicsLen(s.pics), |s.mem|)
  }

  function DataAddr(s: Snap): (a: nat)
    requires Conserved(s)
    ensures a < |s.mem|
  {
    Fwd(PicAddr(s), CurLen(s), |s.mem|)
  }

  /** How pictures, the picture being built and the chunks lie in the ring. */
  ghost predicate Laid(s: Snap) {
    && Conserved(s)
    && PicsTiled(FlushAddr(s), s.pics, |s.mem|)
    && (s.pic.Some? ==> PicTiled(PicAddr(s), s.pic.value, |s.mem|))
    && FramesTiled(Fwd(DataAddr(s), s.nDataSize, |s.mem|), Unread(s), |s.mem|)
    && (s.reading ==>
          && s.dataptr == DataAddr(s)
          && var c := s.frames[0];
             && s.nDataSize <= c.nLength <= |s.mem| && c.pData < |s.mem|
             && s.dataptr == Fwd(c.pData, c.nLength - s.nDataSize, |s.mem|)
             && (s.reback || c.pData + c.nLength <= |s.mem|))
    && (!s.reading ==> s.nDataSize == 0)
  }

  /** While no picture has begun (a picture not begun has no start address), a full look at the chunk is left. */
  predicate LookAhead(s: Snap) {
    s.reading && (s.pic.None? || s.pic.value.pDataStartAddr.None?) ==> s.nDataSize >= 5
  }

  /** Between two passes of a detector both hold. */
  ghost predicate Tiled(s: Snap) {
    Laid(s) && LookAhead(s)
  }

  // ----- the pipeline a snapshot stands for

  function ToNalu(a: nat, n: NaluInfo, size: nat): Nalu
    requires a < size
  {
    Nalu(n.nType, if n.pDataBuf < size then Dist(a, n.pDataBuf, size) else 0, n.nDataSize)
  }

  function ToNalus(a: nat, ns: seq<NaluInfo>, size: nat): seq<Nalu>
    requires a < size
  {
    seq(|ns|, k requires 0 <= k < |ns| => ToNalu(a, ns[k], size))
  }

  function ToPic(m: seq<byte>, a: nat, p: FramePicInfo): Pic
    requires a < |m| && p.nlength <= |m|
  {
    Pic(Lin(m, a, p.nlength), ToNalus(a, p.naluInfoList, |m|), p.bValidFlag, p.nPts)
  }

  function ToPics(m: seq<byte>, a: nat, ps: seq<FramePicInfo>): seq<Pic>
    requires a < |m| && PicsLen(ps) <= |m|
    decreases |ps|
  {
    if ps == [] then []
    else [ToPic(m, a, ps[0])] + ToPics(m, Fwd(a, ps[0].nlength, |m|), ps[1..])
  }

  function ToChunk(m: seq<byte>, a: nat, f: StreamData): Chunk
    requires 6 <= |m| && a < |m| && f.nLength <= |m|
  {
    Chunk(Lin(m, a, f.nLength), Lin(m, Fwd(a, f.nLength, |m|), 6), f.nPts)
  }

  lemma ChunkIs(m: seq<byte>, a: nat, f: StreamData)
    requires 6 <= |m| && a < |m| && f.nLength <= |m|
    ensures var c := ToChunk(m, a, f); c.data == Lin(m, a, f.nLength) && c.pts == f.nPts
  {
  }

  function ToChunks(m: seq<byte>, a: nat, fs: seq<StreamData>): seq<Chunk>
    requires 6 <= |m| && a < |m| && FramesLen(fs) <= |m|
    decreases |fs|
  {
    if fs == [] then []
    else [ToChunk(m, a, fs[0])] + ToChunks(m, Fwd(a, fs[0].nLength, |m|), fs[1..])
  }

  function ToCur(s: Snap): Cur
    requires Conserved(s) && s.reading
  {
    Cur(Lin(s.mem, DataAddr(s), s.nDataSize), Lin(s.mem, Fwd(DataAddr(s), s.nDataSize, |s.mem|), 6),
        s.frames[0].nPts, s.nDataSize == s.frames[0].nLength)
  }

  function View(s: Snap): Flow
    requires Conserved(s)
  {
    Flow(ToChunks(s.mem, Fwd(DataAddr(s), s.nDataSize, |s.mem|), Unread(s)),
         if s.reading then Some(ToCur(s)) else None,
         ToPics(s.mem, FlushAddr(s), s.pics), s.taken,
         if s.pic.Some? then Some(ToPic(s.mem, PicAddr(s), s.pic.value)) else None,
         s.ptsList, s.found, s.eos)
  }

  // ----- adding to the tilings

  lemma {:induction false} PicsAppend(m: seq<byte>, a: nat, ps: seq<FramePicInfo>, p: FramePicInfo)
    requires a < |m| && PicsLen(ps) + p.nlength <= |m|
    ensures PicsLen(ps + [p]) == PicsLen(ps) + p.nlength
    ensures ToPics(m, a, ps + [p]) == ToPics(m, a, ps) + [ToPic(m, Fwd(a, PicsLen(ps), |m|), p)]
    ensures PicsTiled(a, ps + [p], |m|) <==> PicsTiled(a, ps, |m|) && PicTiled(Fwd(a, PicsLen(ps), |m|), p, |m|)
    decreases |ps|
  {
    hide Lin, ToNalus, PicTiled;
    if ps == [] {
      assert ps + [p] == [p];
      assert ToPics(m, a, [p]) == [ToPic(m, a, p)] + ToPics(m, Fwd(a, p.nlength, |m|), []);
    } else {
      var b := Fwd(a, ps[0].nlength, |m|);
      PicsAppend(m, b, ps[1..], p);
      FwdFwd(a, ps[0].nlength, PicsLen(ps[1..]), |m|);
      assert (ps + [p])[1..] == ps[1..] + [p] && (ps + [p])[0] == ps[0];
    }
  }

  lemma {:induction false} FramesAppend(m: seq<byte>, a: nat, fs: seq<StreamData>, f: StreamData)
    requires 6 <= |m| && a < |m| && FramesLen(fs) + f.nLength <= |m|
    ensures FramesLen(fs + [f]) == FramesLen(fs) + f.nLength
    ensures ToChunks(m, a, fs + [f]) == ToChunks(m, a, fs) + [ToChunk(m, Fwd(a, FramesLen(fs), |m|), f)]
    ensures FramesTiled(a, fs + [f], |m|) <==> FramesTiled(a, fs, |m|) && f.pData == Fwd(a, FramesLen(fs), |m|)
    decreases |fs|
  {
    hide Lin;
    if fs == [] {
      assert fs + [f] == [f];
      assert ToChunks(m, a, [f]) == [ToChunk(m, a, f)] + ToChunks(m, Fwd(a, f.nLength, |m|), []);
    } else {
      var b := Fwd(a, fs[0].nLength, |m|);
      FramesAppend(m, b, fs[1..], f);
      FwdFwd(a, fs[0].nLength, FramesLen(fs[1..]), |m|);
      assert (fs + [f])[1..] == fs[1..] + [f] && (fs + [f])[0] == fs[0];
    }
  }

  // ----- the detector's steps on a snapshot

  /** The rest of the current chunk is counted to the picture; its descriptor is freed. */
  function Drop(s: Snap): Snap
    requires s.reading && s.frames != [] && s.pic.Some?
  {
    s.(pic := Some(s.pic.value.(nlength := s.pic.value.nlength + s.nDataSize)),
       frames := s.frames[1..], reading := false, nDataSize := 0, dataptr := 0)
  }

  /**
   The bytes left of a chunk keep their place exactly if the picture they are counted to has begun, or
   there are none.
   */
  lemma DropView(s: Snap)
    requires Laid(s) && s.reading && s.pic.Some?
    ensures Laid(Drop(s)) <==> s.pic.value.pDataStartAddr.Some? || s.nDataSize == 0
    ensures var v := View(s);
            Laid(Drop(s)) ==> v.pic.Some? && View(Drop(s)) == LeaveChunk(v)
  {
    hide Lin, ToNalus, ToChunks, ToPics, PicsTiled, FramesTiled;
    FwdFwd(PicAddr(s), CurLen(s), s.nDataSize, |s.mem|);
    LinSplit(s.mem, PicAddr(s), CurLen(s), s.nDataSize);
  }

  /** The next chunk is opened. */
  function Open(s: Snap, reback: bool): Snap
    requires !s.reading && s.frames != []
  {
    s.(reading := true, dataptr := s.frames[0].pData, nDataSize := s.frames[0].nLength, reback := reback)
  }

  lemma OpenView(s: Snap, reback: bool)
    requires Laid(s) && !s.reading && s.frames != []
    requires reback || s.frames[0].pData + s.frames[0].nLength <= |s.mem|
    ensures var v := View(s);
            Laid(Open(s, reback)) && (s.frames[0].nLength > 0 ==> OpenChunk(v) == Fed(View(Open(s, reback))))
  {
    hide Lin, ToNalus, PicsTiled, ToPics;
    var t := Open(s, reback);
    assert s.frames == [s.frames[0]] + Unread(t);
  }

  /** An empty chunk is freed. */
  lemma SkipEmptyView(s: Snap)
    requires Laid(s) && !s.reading && s.frames != [] && s.frames[0].nLength == 0
    ensures var v := View(s); var t := s.(frames := s.frames[1..]);
            Laid(t) && OpenChunk(v) == Starved(View(t))
  {
    hide Lin, ToNalus, PicsTiled, ToPics;
    assert s.frames == [s.frames[0]] + s.frames[1..];
  }

  /** A picture not begun yet begins where the detector is. */
  function Start(s: Snap): Snap
    requires s.pic.Some?
  {
    if s.pic.value.pDataStartAddr.Some? then s
    else s.(pic := Some(s.pic.value.(pDataStartAddr := Some(s.dataptr))))
  }

  lemma StartView(s: Snap)
    requires Laid(s) && s.reading && s.pic.Some?
    ensures Tiled(Start(s)) && View(Start(s)) == View(s)
  {
    hide Lin, ToNalus, ToChunks, ToPics, PicsTiled, FramesTiled;
  }

  /** n bytes pass from the chunk to the picture. */
  function Skip(s: Snap, n: nat): Snap
    requires s.pic.Some? && n <= s.nDataSize && s.dataptr < |s.mem| && n <= |s.mem|
  {
    s.(dataptr := Fwd(s.dataptr, n, |s.mem|), nDataSize := s.nDataSize - n,
       pic := Some(s.pic.value.(nlength := s.pic.value.nlength + n)))
  }

  lemma SkipAddrs(s: Snap, n: nat)
    requires Tiled(s) && s.reading && s.pic.Some? && n <= s.nDataSize
    ensures s.dataptr < |s.mem| && n <= |s.mem| && s.frames != [] && s.nDataSize <= s.frames[0].nLength && Conserved(s)
    ensures CurLen(s) + s.nDataSize <= |s.mem|
    ensures Unread(Skip(s, n)) == Unread(s)
    ensures var t := Skip(s, n); var size := |s.mem|; var c := s.frames[0];
            && Conserved(t) && FlushAddr(t) == FlushAddr(s) && PicAddr(t) == PicAddr(s)
            && DataAddr(s) == Fwd(PicAddr(s), CurLen(s), size)
            && DataAddr(t) == t.dataptr == Fwd(DataAddr(s), n, size)
            && t.dataptr == Fwd(c.pData, c.nLength - t.nDataSize, size)
            && Fwd(DataAddr(t), t.nDataSize, size) == Fwd(DataAddr(s), s.nDataSize, size)
  {
    hide Lin, PicsTiled, FramesTiled, PicTiled, PicsLen, FramesLen;
    var size := |s.mem|;
    FwdFwd(PicAddr(s), CurLen(s), n, size);
    FwdFwd(DataAddr(s), n, s.nDataSize - n, size);
    FwdFwd(s.frames[0].pData, s.frames[0].nLength - s.nDataSize, n, size);
  }

  lemma SkipBytesLin(m: seq<byte>, a: nat, k: nat, d: nat, n: nat)
    requires a < |m| && n <= d && k + d <= |m|
    ensures var b := Fwd(a, k, |m|); var rest := Lin(m, b, d);
            Lin(m, a, k + n) == Lin(m, a, k) + rest[..n] && Lin(m, Fwd(b, n, |m|), d - n) == rest[n..]
  {
    hide Lin;
    var b := Fwd(a, k, |m|);
    LinSplit(m, a, k, n);
    LinSplit(m, b, n, d - n);
  }

  lemma SkipTiled(s: Snap, n: nat)
    requires Tiled(s) && s.reading && s.pic.Some? && s.pic.value.pDataStartAddr.Some? && n <= s.nDataSize
    ensures s.dataptr < |s.mem| && n <= |s.mem| && Tiled(Skip(s, n))
  {
    SkipAddrs(s, n);
    hide Lin, PicsTiled, FramesTiled, PicsLen, FramesLen, Fwd, FlushAddr, PicAddr, DataAddr, Conserved;
    assert Unread(Skip(s, n)) == Unread(s);
  }

  /** What `View` shows of the part a detector changes. */
  lemma ViewOf(s: Snap)
    requires Tiled(s) && s.reading && s.pic.Some?
    ensures var v := View(s);
            && v.cur == Some(Cur(Lin(s.mem, DataAddr(s), s.nDataSize),
                                 Lin(s.mem, Fwd(DataAddr(s), s.nDataSize, |s.mem|), 6),
                                 s.frames[0].nPts, s.nDataSize == s.frames[0].nLength))
            && v.pic == Some(Pic(Lin(s.mem, PicAddr(s), CurLen(s)),
                                 ToNalus(PicAddr(s), s.pic.value.naluInfoList, |s.mem|),
                                 s.pic.value.bValidFlag, s.pic.value.nPts))
            && v.chunks == ToChunks(s.mem, Fwd(DataAddr(s), s.nDataSize, |s.mem|), Unread(s))
            && v.pics == ToPics(s.mem, FlushAddr(s), s.pics)
            && v.taken == s.taken && v.ptsList == s.ptsList && v.found == s.found && v.eos == s.eos
  {
  }

  lemma SkipFlowIs(v: Flow, w: Flow, n: nat)
    requires v.pic.Some? && v.cur.Some? && n <= |v.cur.value.rest|
    requires w.cur == Some(v.cur.value.(rest := v.cur.value.rest[n..], whole := v.cur.value.whole && n == 0))
    requires w.pic == Some(v.pic.value.(bytes := v.pic.value.bytes + v.cur.value.rest[..n]))
    requires w == v.(cur := w.cur, pic := w.pic)
    ensures w == SkipBytes(v, n)
  {
  }

  lemma SkipView(s: Snap, n: nat)
    requires Tiled(s) && s.reading && s.pic.Some? && s.pic.value.pDataStartAddr.Some? && n <= s.nDataSize
    ensures s.dataptr < |s.mem| && n <= |s.mem|
    ensures var v := View(s); var t := Skip(s, n);
            Tiled(t) && v.pic.Some? && v.cur.Some? && n <= |v.cur.value.rest| && View(t) == SkipBytes(v, n)
  {
    hide Tiled, View, Lin, ToNalus, ToChunks, ToPics, PicsLen, FramesLen, Fwd, FlushAddr, PicAddr, DataAddr, Conserved;
    hide Unread;
    SkipAddrs(s, n);
    SkipTiled(s, n);
    var t := Skip(s, n);
    SkipBytesLin(s.mem, PicAddr(s), CurLen(s), s.nDataSize, n);
    ViewOf(s);
    ViewOf(t);
    SkipFlowIs(View(s), View(t), n);
  }

  /** The unit that starts where the detector is joins the list. */
  function StoreNalu(s: Snap, nType: nat, size: nat): Snap
    requires s.pic.Some? && s.reading && s.frames != []
  {
    var ns := s.pic.value.naluInfoList;
    s.(pic := Some(s.pic.value.(naluInfoList := ns + [NaluInfo(nType, s.dataptr, size)])),
       ptsList := if |ns| < MAX_FRAME_PTS_LIST_NUM then s.ptsList[|ns| := s.frames[0].nPts] else s.ptsList)
  }

  lemma StoreNaluView(s: Snap, nType: nat, size: nat)
    requires Tiled(s) && s.reading && s.pic.Some? && s.pic.value.pDataStartAddr.Some? && CurLen(s) < |s.mem|
    ensures var v := View(s); var t := StoreNalu(s, nType, size);
            Tiled(t) && v.pic.Some? && v.cur.Some? && View(t) == ListNalu(v, nType, size)
  {
    hide Lin, ToChunks, ToPics, PicsTiled, FramesTiled;
    var t := StoreNalu(s, nType, size);
    var ns := s.pic.value.naluInfoList;
    assert PicAddr(t) == PicAddr(s) && DataAddr(t) == DataAddr(s);
    assert Dist(PicAddr(s), s.dataptr, |s.mem|) == CurLen(s);
    assert ToNalus(PicAddr(s), ns + [NaluInfo(nType, s.dataptr, size)], |s.mem|)
        == ToNalus(PicAddr(s), ns, |s.mem|) + [Nalu(nType, CurLen(s), size)];
  }

  /** The picture is published. */
  function Publish(s: Snap): Snap
    requires s.pic.Some?
  {
    s.(pics := s.pics + [s.pic.value], pic := None)
  }

  lemma PublishView(s: Snap)
    requires Laid(s) && s.pic.Some?
    ensures var v := View(s);
            Laid(Publish(s)) && v.pic.Some? && View(Publish(s)) == v.(pics := v.pics + [v.pic.value], pic := None)
  {
    hide Lin, ToNalus, ToChunks, ToPics, PicsTiled, FramesTiled, PicTiled;
    PicsAppend(s.mem, FlushAddr(s), s.pics, s.pic.value);
    FwdFwd(FlushAddr(s), PicsLen(s.pics), CurLen(s), |s.mem|);
  }

  /** An empty picture is taken up. */
  lemma ClaimView(s: Snap)
    requires Tiled(s) && s.pic.None? && |s.pics| < MAX_FRAME_PIC_NUM
    ensures var t := s.(pic := Some(FramePicInfo([], 0, None, -1, true)), ptsList := NO_PTS);
            Tiled(t) && View(t) == Claim(View(s))
  {
    hide Lin, PicsTiled, FramesTiled, PicsLen, FramesLen, ToChunk, ToPics, ToChunks;
    var t := s.(pic := Some(FramePicInfo([], 0, None, -1, true)), ptsList := NO_PTS);
    assert Conserved(t);
    assert FlushAddr(t) == FlushAddr(s) && PicAddr(t) == PicAddr(s) && DataAddr(t) == DataAddr(s);
    ToPicsLength(s.mem, FlushAddr(s), s.pics);
    var none: seq<byte> := [];
    assert Lin(s.mem, PicAddr(s), 0) == none;
    assert ToNalus(PicAddr(s), [], |s.mem|) == [];
  }

  /** Time stamp and validity of the picture being built are no part of the tiling. */
  lemma MarkView(s: Snap, pts: int, valid: bool)
    requires Laid(s) && s.pic.Some?
    ensures var t := s.(pic := Some(s.pic.value.(nPts := pts, bValidFlag := valid))); var v := View(s);
            && Laid(t) && v.pic.Some? && v.pic.value.ok == s.pic.value.bValidFlag && v.pic.value.pts == s.pic.value.nPts
            && View(t) == v.(pic := Some(v.pic.value.(pts := pts, ok := valid)))
  {
    hide Lin, PicsTiled, FramesTiled, PicsLen, FramesLen, ToChunk, ToPics, ToChunks, ToNalus;
    var t := s.(pic := Some(s.pic.value.(nPts := pts, bValidFlag := valid)));
    assert Conserved(t);
    assert FlushAddr(t) == FlushAddr(s) && PicAddr(t) == PicAddr(s) && DataAddr(t) == DataAddr(s);
  }

  /** The picture being built gets its time stamp and is published. */
  function EmitPic(s: Snap): Snap
    requires s.pic.Some?
  {
    Publish(s.(found := false, pic := Some(s.pic.value.(nPts := FirstKnown(s.ptsList)))))
  }

  /** All stays in its place; but less than five bytes left of a chunk now belong to no picture. */
  lemma EmitView(s: Snap)
    requires Laid(s) && s.pic.Some?
    ensures var v := View(s); Laid(EmitPic(s)) && v.pic.Some? && View(EmitPic(s)) == Emit(v)
    ensures Tiled(EmitPic(s)) <==> (s.reading ==> s.nDataSize >= 5)
  {
    assert s.taken <= |s.pics|;
    hide Lin, Laid, View;
    FlagsView(s, s.taken, false, s.eos);
    var t := s.(found := false);
    var pts := FirstKnown(s.ptsList);
    MarkView(t, pts, t.pic.value.bValidFlag);
    PublishView(t.(pic := Some(t.pic.value.(nPts := pts))));
  }

  /** Is the picture given up with the data that is no use? */
  predicate GivenUp(s: Snap)
    requires s.pic.Some? && s.reading && s.frames != []
  {
    (s.nDataSize == s.frames[0].nLength && s.pic.value.nlength == 0)
    || s.pic.value.nlength + s.nDataSize > MAX_INVALID_STREAM_DATA_SIZE
  }

  function Discard(s: Snap): Snap
    requires s.pic.Some? && s.reading && s.frames != []
  {
    var t := Drop(s);
    if GivenUp(s) then Publish(t.(pic := Some(t.pic.value.(bValidFlag := false)))) else t
  }

  lemma DiscardView(s: Snap)
    requires Tiled(s) && s.reading && s.pic.Some? && s.pic.value.pDataStartAddr.Some?
    ensures var v := View(s);
            Tiled(Discard(s)) && v.pic.Some? && v.cur.Some? && View(Discard(s)) == Dispose(v)
  {
    var v := View(s);
    hide Lin, Laid, View;
    CurFacts(s);
    DropView(s);
    assert v.pic.value.bytes == [] <==> s.pic.value.nlength == 0;
    assert |v.pic.value.bytes + v.cur.value.rest| == s.pic.value.nlength + s.nDataSize;
    if GivenUp(s) {
      var t := Drop(s);
      MarkView(t, t.pic.value.nPts, false);
      PublishView(t.(pic := Some(t.pic.value.(bValidFlag := false))));
    }
  }

  /** The data pointer stands at the start of its chunk exactly when nothing of it is consumed. */
  lemma AtStart(s: Snap)
    requires Laid(s) && s.reading && s.nDataSize > 0
    ensures s.dataptr == s.frames[0].pData <==> s.nDataSize == s.frames[0].nLength
  {
  }

  lemma ClearView(s: Snap)
    requires 64 <= |s.mem| && s.writeAddr == 0 && s.nValidDataSize == 0 && s.frames == [] && !s.reading
    requires s.pics == [] && s.taken == 0 && s.nDataSize == 0 && s.pic.None?
    ensures Tiled(s) && View(s) == EMPTY.(ptsList := s.ptsList, found := s.found, eos := s.eos)
  {
  }

  lemma HoldsPic(s: Snap)
    requires Laid(s)
    ensures View(s).found == s.found && View(s).eos == s.eos
    ensures View(s).pic.Some? <==> s.pic.Some?
    ensures |View(s).pics| == |s.pics|
  {
    ToPicsLength(s.mem, FlushAddr(s), s.pics);
  }

  lemma NextChunk(s: Snap)
    requires Laid(s) && !s.reading
    ensures s.frames == [] ==> OpenChunk(View(s)) == Starved(View(s))
  {
    hide Lin, PicsTiled, FramesTiled, ToPics;
  }

  /** Where the detector is in the chunk and in the ring. */
  lemma CurFacts(s: Snap)
    requires Laid(s) && s.reading
    ensures s.dataptr < |s.mem| && s.frames != [] && s.nDataSize <= s.frames[0].nLength <= |s.mem|
    ensures s.frames[0].pData < |s.mem|
    ensures s.dataptr == Fwd(s.frames[0].pData, s.frames[0].nLength - s.nDataSize, |s.mem|)
    ensures s.reback || s.dataptr + s.nDataSize <= |s.mem| || s.nDataSize == 0
    ensures var c := View(s).cur;
            && c.Some? && c.value.rest == Lin(s.mem, s.dataptr, s.nDataSize)
            && c.value.spill == Lin(s.mem, Fwd(s.dataptr, s.nDataSize, |s.mem|), 6)
            && c.value.whole == (s.nDataSize == s.frames[0].nLength)
    ensures View(s).pic.Some? <==> s.pic.Some?
    ensures s.pic.Some? ==>
              && |View(s).pic.value.bytes| == s.pic.value.nlength
              && |View(s).pic.value.nalus| == |s.pic.value.naluInfoList|
              && s.pic.value.nlength + s.nDataSize <= |s.mem|
    ensures s.nDataSize + 64 <= |s.mem|
    ensures View(s).found == s.found && View(s).eos == s.eos
  {
    hide Lin, PicsTiled, FramesTiled, ToPics, ToChunks, PicsLen, FramesLen;
  }

  /** The bytes the detector looks at, read at their ring addresses. */
  lemma ByteAhead(s: Snap, i: nat)
    requires Laid(s) && s.reading && i < s.nDataSize + 6
    ensures s.dataptr < |s.mem| && i <= |s.mem| && View(s).cur.Some?
    ensures var c := View(s).cur.value; s.mem[Fwd(s.dataptr, i, |s.mem|)] == (c.rest + c.spill)[i]
  {
    hide Laid, View, Lin;
    CurFacts(s);
    LinJoinAt(s.mem, s.dataptr, s.nDataSize, i);
  }

  lemma LinJoinAt(m: seq<byte>, a: nat, n: nat, i: nat)
    requires 6 <= |m| && a < |m| && i < n + 6 <= |m|
    ensures (Lin(m, a, n) + Lin(m, Fwd(a, n, |m|), 6))[i] == m[Fwd(a, i, |m|)]
  {
    hide Lin;
    LinSplit(m, a, n, 6);
    LinAt(m, a, n + 6);
  }

  // ----- the feeder's and the decoder's steps on a snapshot

  /** A chunk written at the write address joins the queue. */
  function Submit(s: Snap, f: StreamData): Snap
    requires s.writeAddr < |s.mem| && f.nLength <= |s.mem|
  {
    s.(frames := s.frames + [f], nValidDataSize := s.nValidDataSize + f.nLength,
       writeAddr := Fwd(s.writeAddr, f.nLength, |s.mem|))
  }

  lemma SubmitLengths(s: Snap, f: StreamData)
    requires Conserved(s) && s.nValidDataSize + f.nLength + 64 <= |s.mem|
    ensures var t := Submit(s, f);
            && Unread(t) == Unread(s) + [f] && FramesLen(Unread(t)) == FramesLen(Unread(s)) + f.nLength
            && Conserved(t) && FlushAddr(t) == FlushAddr(s)
  {
    hide Lin, ToChunks, PicsLen, FramesTiled;
    var t := Submit(s, f);
    assert Unread(t) == Unread(s) + [f];
    FramesAppend(s.mem, Fwd(DataAddr(s), s.nDataSize, |s.mem|), Unread(s), f);
    hide FramesLen;
  }

  /** The write address is where the chunks end. */
  lemma WriteAddrIs(s: Snap)
    requires Conserved(s)
    ensures Fwd(Fwd(DataAddr(s), s.nDataSize, |s.mem|), FramesLen(Unread(s)), |s.mem|) == s.writeAddr
  {
    hide PicsLen, FramesLen, Unread, CurLen, Fwd, FlushAddr;
    var f, size := FlushAddr(s), |s.mem|;
    var p, c, d := PicsLen(s.pics), CurLen(s), s.nDataSize;
    FwdFwd(f, p, c, size);
    FwdFwd(f, p + c, d, size);
    FwdFwd(f, p + c + d, FramesLen(Unread(s)), size);
  }

  lemma SubmitAddrs(s: Snap, f: StreamData)
    requires Conserved(s) && s.nValidDataSize + f.nLength + 64 <= |s.mem|
    ensures var t := Submit(s, f); var a := Fwd(DataAddr(s), s.nDataSize, |s.mem|);
            && Unread(t) == Unread(s) + [f] && FramesLen(Unread(t)) == FramesLen(Unread(s)) + f.nLength
            && Conserved(t) && FlushAddr(t) == FlushAddr(s) && PicAddr(t) == PicAddr(s) && DataAddr(t) == DataAddr(s)
            && Fwd(a, FramesLen(Unread(s)), |s.mem|) == s.writeAddr
  {
    SubmitLengths(s, f);
    WriteAddrIs(s);
    hide PicsLen, FramesLen, Unread, Fwd, FlushAddr, Conserved;
  }

  lemma SubmitView(s: Snap, f: StreamData)
    requires Laid(s) && f.pData == s.writeAddr && s.nValidDataSize + f.nLength + 64 <= |s.mem|
    ensures var v := View(s);
            Laid(Submit(s, f)) && View(Submit(s, f)) == v.(chunks := v.chunks + [ToChunk(s.mem, s.writeAddr, f)])
  {
    hide Lin, ToNalus, ToChunks, ToPics, PicsTiled, FramesTiled, PicTiled, FlushAddr, PicAddr, DataAddr, Unread;
    hide PicsLen, FramesLen;
    SubmitAddrs(s, f);
    FramesAppend(s.mem, Fwd(DataAddr(s), s.nDataSize, |s.mem|), Unread(s), f);
  }

  /** Cursor and flags are no part of the tiling. */
  lemma FlagsView(s: Snap, taken: nat, found: bool, eos: bool)
    requires Laid(s) && taken <= |s.pics|
    ensures var t := s.(taken := taken, found := found, eos := eos);
            && Laid(t) && View(t) == View(s).(taken := taken, found := found, eos := eos)
            && |View(s).pics| == |s.pics| && View(s).ptsList == s.ptsList
            && View(s).taken == s.taken && View(s).found == s.found && View(s).eos == s.eos
  {
    ToPicsLength(s.mem, FlushAddr(s), s.pics);
    hide Lin, PicsTiled, FramesTiled, PicTiled, PicsLen, FramesLen, ToPic, ToChunk, ToPics, ToChunks;
    var t := s.(taken := taken, found := found, eos := eos);
    assert Conserved(t);
    assert FlushAddr(t) == FlushAddr(s) && PicAddr(t) == PicAddr(s) && DataAddr(t) == DataAddr(s);
  }

  lemma {:induction false} ToPicsLength(m: seq<byte>, a: nat, ps: seq<FramePicInfo>)
    requires a < |m| && PicsLen(ps) <= |m|
    ensures |ToPics(m, a, ps)| == |ps|
    decreases |ps|
  {
    if ps != [] {
      ToPicsLength(m, Fwd(a, ps[0].nlength, |m|), ps[1..]);
    }
  }

  /** The oldest picture is freed with its bytes. */
  function FlushPic(s: Snap): Snap
    requires s.pics != [] && s.taken > 0 && s.pics[0].nlength <= s.nValidDataSize
  {
    s.(pics := s.pics[1..], taken := s.taken - 1, nValidDataSize := s.nValidDataSize - s.pics[0].nlength)
  }

  lemma FlushPicAddrs(s: Snap)
    requires Laid(s) && s.pics != [] && s.taken > 0
    ensures s.pics[0].nlength <= s.nValidDataSize
    ensures var t := FlushPic(s);
            && Conserved(t) && FlushAddr(t) == Fwd(FlushAddr(s), s.pics[0].nlength, |s.mem|)
            && PicAddr(t) == PicAddr(s) && DataAddr(t) == DataAddr(s) && Unread(t) == Unread(s)
  {
    hide Lin, PicsTiled, FramesTiled, PicTiled, FramesLen;
    var t := FlushPic(s);
    assert PicsLen(s.pics) == s.pics[0].nlength + PicsLen(t.pics);
    FwdFwd(FlushAddr(s), s.pics[0].nlength, PicsLen(t.pics), |s.mem|);
  }

  lemma FlushPicView(s: Snap)
    requires Laid(s) && s.pics != [] && s.taken > 0
    ensures var v := View(s);
            && v.pics != [] && |v.pics[0].bytes| == s.pics[0].nlength <= s.nValidDataSize && Laid(FlushPic(s))
            && View(FlushPic(s)) == v.(pics := v.pics[1..], taken := v.taken - 1)
  {
    hide Lin, ToNalus, ToChunks, ToPics, PicsTiled, FramesTiled, PicTiled, PicsLen, FramesLen;
    hide Fwd, FlushAddr, PicAddr, DataAddr, Unread;
    FlushPicAddrs(s);
    FirstPic(s.mem, FlushAddr(s), s.pics);
  }

  /** The first picture of a tiled list, and what follows it. */
  lemma FirstPic(m: seq<byte>, a: nat, ps: seq<FramePicInfo>)
    requires a < |m| && PicsLen(ps) <= |m| && ps != [] && PicsTiled(a, ps, |m|)
    ensures ps[0].nlength <= |m| && PicsLen(ps[1..]) <= |m|
    ensures var b := Fwd(a, ps[0].nlength, |m|);
            PicsTiled(b, ps[1..], |m|) && ToPics(m, a, ps) == [ToPic(m, a, ps[0])] + ToPics(m, b, ps[1..])
  {
    hide Lin, ToNalus, PicTiled;
  }

  /**
   A chunk joins the tiling exactly if it starts at the write address and leaves 64 bytes clear, as every grant
   does.
   */
  lemma SubmitExactly(s: Snap, f: StreamData)
    requires Laid(s) && s.nValidDataSize + f.nLength <= |s.mem|
    ensures Laid(Submit(s, f)) <==> f.pData == s.writeAddr && s.nValidDataSize + f.nLength + 64 <= |s.mem|
  {
    hide Lin, ToNalus, ToChunks, ToPics, PicsTiled, FramesTiled, PicTiled, FlushAddr, PicAddr, DataAddr, Unread;
    hide PicsLen, FramesLen;
    if s.nValidDataSize + f.nLength + 64 <= |s.mem| {
      SubmitAddrs(s, f);
      FramesAppend(s.mem, Fwd(DataAddr(s), s.nDataSize, |s.mem|), Unread(s), f);
    }
  }

  // ----- writer safety

  lemma {:induction false} PicsAgree(m: seq<byte>, m': seq<byte>, a: nat, n: nat, off: nat, ps: seq<FramePicInfo>)
    requires |m| == |m'| && a < |m| && off + PicsLen(ps) <= n <= |m| && Agree(m, m', a, n)
    ensures ToPics(m, Fwd(a, off, |m|), ps) == ToPics(m', Fwd(a, off, |m|), ps)
    decreases |ps|
  {
    hide Lin, ToNalus, Agree;
    if ps != [] {
      LinAgree(m, m', a, n, off, ps[0].nlength);
      FwdFwd(a, off, ps[0].nlength, |m|);
      PicsAgree(m, m', a, n, off + ps[0].nlength, ps[1..]);
    }
  }

  lemma {:induction false} FramesAgree(m: seq<byte>, m': seq<byte>, a: nat, n: nat, off: nat, fs: seq<StreamData>)
    requires 6 <= |m| == |m'| && a < |m| && off + FramesLen(fs) <= n <= |m| && Agree(m, m', a, n)
    ensures var b := Fwd(a, off, |m|); var cs, ds := ToChunks(m, b, fs), ToChunks(m', b, fs);
            |cs| == |ds| && forall i :: 0 <= i < |cs| ==> cs[i].data == ds[i].data && cs[i].pts == ds[i].pts
    decreases |fs|
  {
    hide Lin, Agree;
    if fs != [] {
      LinAgree(m, m', a, n, off, fs[0].nLength);
      FwdFwd(a, off, fs[0].nLength, |m|);
      FramesAgree(m, m', a, n, off + fs[0].nLength, fs[1..]);
    }
  }

  lemma DataAgrees(s: Snap, m: seq<byte>)
    requires Conserved(s) && |m| == |s.mem| && Agree(s.mem, m, FlushAddr(s), s.nValidDataSize)
    ensures SameData(View(s), View(s.(mem := m)))
  {
    hide Lin, ToNalus, ToChunks, ToPics, Agree, PicsLen, FramesLen;
    var f, n, size := FlushAddr(s), s.nValidDataSize, |s.mem|;
    FwdFwd(f, PicsLen(s.pics), CurLen(s), size);
    FwdFwd(f, PicsLen(s.pics) + CurLen(s), s.nDataSize, size);
    PicsAgree(s.mem, m, f, n, 0, s.pics);
    LinAgree(s.mem, m, f, n, PicsLen(s.pics), CurLen(s));
    LinAgree(s.mem, m, f, n, PicsLen(s.pics) + CurLen(s), s.nDataSize);
    FramesAgree(s.mem, m, f, n, PicsLen(s.pics) + CurLen(s) + s.nDataSize, Unread(s));
    var t := s.(mem := m);
    var u, v := View(s), View(t);
    assert FlushAddr(t) == f == Fwd(f, 0, size) && PicAddr(t) == PicAddr(s) && DataAddr(t) == DataAddr(s);
    assert u.pics == v.pics;
    assert u.pic == v.pic;
    assert u.cur.Some? ==> u.cur.value.rest == v.cur.value.rest;
    assert u.cur.Some? <==> v.cur.Some?;
    assert v.chunks == Written(u, SpillsOf(v)).chunks;
  }

  /** A write into the region past the live bytes touches no byte of a picture or of a chunk. */
  lemma WriteKeepsData(s: Snap, off: nat, b: byte)
    requires Laid(s) && s.nValidDataSize + off < |s.mem|
    ensures var t := s.(mem := s.mem[Fwd(s.writeAddr, off, |s.mem|) := b]);
            Laid(t) && SameData(View(s), View(t))
  {
    hide Lin, ToNalus, ToChunks, ToPics, PicsTiled, FramesTiled, PicTiled, Agree, SameData, View;
    var f, n := FlushAddr(s), s.nValidDataSize;
    FwdFwd(f, n, off, |s.mem|);
    WriteAgrees(s.mem, f, n, n + off, b);
    DataAgrees(s, s.mem[Fwd(s.writeAddr, off, |s.mem|) := b]);
  }

  // ----- what the descriptors cover, and what a decoder reads through them

  lemma {:induction false} PicsLive(m: seq<byte>, a: nat, ps: seq<FramePicInfo>)
    requires a < |m| && PicsLen(ps) <= |m|
    ensures PicBytes(ToPics(m, a, ps)) == Lin(m, a, PicsLen(ps))
    decreases |ps|
  {
    hide Lin, ToNalus;
    if ps == [] {
      var none: seq<byte> := [];
      assert Lin(m, a, 0) == none;
    } else {
      PicsLive(m, Fwd(a, ps[0].nlength, |m|), ps[1..]);
      LinSplit(m, a, ps[0].nlength, PicsLen(ps[1..]));
    }
  }

  lemma {:induction false} FramesLive(m: seq<byte>, a: nat, fs: seq<StreamData>)
    requires 6 <= |m| && a < |m| && FramesLen(fs) <= |m|
    ensures ChunkBytes(ToChunks(m, a, fs)) == Lin(m, a, FramesLen(fs))
    decreases |fs|
  {
    hide Lin;
    if fs == [] {
      var none: seq<byte> := [];
      assert Lin(m, a, 0) == none;
    } else {
      FramesLive(m, Fwd(a, fs[0].nLength, |m|), fs[1..]);
      LinSplit(m, a, fs[0].nLength, FramesLen(fs[1..]));
    }
  }

  /** Pictures, picture being built and chunks cover the live stretch of the ring, once and in order. */
  lemma LiveBytes(s: Snap)
    requires Laid(s)
    ensures AllBytes(View(s)) == Lin(s.mem, FlushAddr(s), s.nValidDataSize)
  {
    hide Lin, ToNalus, ToPics, ToChunks, PicsTiled, FramesTiled, PicsLen, FramesLen, PicBytes, ChunkBytes;
    var m, f, size := s.mem, FlushAddr(s), |s.mem|;
    var p, c, d, u := PicsLen(s.pics), CurLen(s), s.nDataSize, FramesLen(Unread(s));
    FwdFwd(f, p, c, size);
    FwdFwd(f, p + c, d, size);
    PicsLive(m, f, s.pics);
    FramesLive(m, Fwd(f, p + c + d, size), Unread(s));
    LinSplit(m, f, p + c + d, u);
    LinSplit(m, f, p + c, d);
    LinSplit(m, f, p, c);
    var none: seq<byte> := [];
    assert Lin(m, PicAddr(s), 0) == none && Lin(m, DataAddr(s), 0) == none;
  }

  lemma {:induction false} PicAt(m: seq<byte>, a: nat, ps: seq<FramePicInfo>, k: nat) returns (b: nat)
    requires a < |m| && PicsLen(ps) <= |m| && PicsTiled(a, ps, |m|) && k < |ps|
    ensures b < |m| && ps[k].nlength <= |m| && PicTiled(b, ps[k], |m|)
    ensures |ToPics(m, a, ps)| == |ps| && ToPics(m, a, ps)[k] == ToPic(m, b, ps[k])
    decreases k
  {
    ToPicsLength(m, a, ps);
    if k == 0 {
      b := a;
    } else {
      b := PicAt(m, Fwd(a, ps[0].nlength, |m|), ps[1..], k - 1);
    }
  }

  /** Reading the ring through a picture's descriptor, or through one of its units, gives the pipeline's bytes. */
  lemma DescriptorsReadBack(s: Snap, k: nat, j: nat)
    requires Laid(s) && k < |s.pics| && j < |s.pics[k].naluInfoList|
    requires |View(s).pics| == |s.pics|
    requires var p := View(s).pics[k]; j < |p.nalus| && p.nalus[j].off + p.nalus[j].size <= |p.bytes|
    ensures s.pics[k].pDataStartAddr.Some? && s.pics[k].pDataStartAddr.value < |s.mem| && s.pics[k].nlength <= |s.mem|
    ensures View(s).pics[k].bytes == Lin(s.mem, s.pics[k].pDataStartAddr.value, s.pics[k].nlength)
    ensures View(s).pics[k].pts == s.pics[k].nPts && View(s).pics[k].ok == s.pics[k].bValidFlag
    ensures var n := s.pics[k].naluInfoList[j]; var u := View(s).pics[k].nalus[j];
            && n.pDataBuf < |s.mem| && n.nDataSize <= |s.mem| && u.nType == n.nType && u.size == n.nDataSize
            && Slice(View(s).pics[k].bytes, u.off, u.size) == Lin(s.mem, n.pDataBuf, n.nDataSize)
  {
    hide Lin;
    var b := PicAt(s.mem, FlushAddr(s), s.pics, k);
    var u := View(s).pics[k].nalus[j];
    LinSlice(s.mem, b, s.pics[k].nlength, u.off, u.off + u.size);
  }

  // ----- chunks too short to be looked at

  /** What a pass sees of a picture that has not begun. */
  lemma StrandedView(s: Snap)
    requires Laid(s) && (s.pic.Some? && s.pic.value.pDataStartAddr.Some? ==> s.pic.value.nlength > 0)
    ensures LookAhead(s) <==> !Stranded(View(s))
  {
    HoldsPic(s);
    if s.reading {
      CurFacts(s);
    }
    hide Laid, View;
  }

  /**
   Once the rest of a chunk is stranded, the next call for data breaks the tiling: the picture it is
   counted to has no start of its own.
   */
  lemma StrandedLosesStart(s: Snap)
    requires Laid(s) && Stranded(View(s)) && View(s).cur.Some? && View(s).cur.value.rest != []
    requires s.pic.Some? && s.pic.value.pDataStartAddr.None?
    ensures s.reading && !Laid(Drop(s))
  {
    if s.reading {
      CurFacts(s);
      DropView(s);
    }
  }
}
