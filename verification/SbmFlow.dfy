/**
 The frame-mode stream buffer manager as a pipeline of byte strings: submitted
 chunks go in at one end, frame pictures come out at the other, and a detector
 regroups the bytes in between. Ring addresses, cursors and wrap-around are the
 business of `SbmFrame`, which implements this pipeline.
 */
module SbmFlow {
  import opened Common
  import opened NalUnits

  const MAX_FRAME_PIC_NUM := 100
  const MAX_NALU_NUM_IN_FRAME := 1024
  const MAX_INVALID_STREAM_DATA_SIZE := 1024 * 1024
  const MAX_FRAME_PTS_LIST_NUM := 10

  type PtsList = s: seq<int> | |s| == 10 witness [-1, -1, -1, -1, -1, -1, -1, -1, -1, -1]

  const NO_PTS: PtsList := [-1, -1, -1, -1, -1, -1, -1, -1, -1, -1]

  /** A stored unit: its place inside the bytes of its picture. */
  datatype Nalu = Nalu(nType: nat, off: nat, size: nat)

  datatype Pic = Pic(bytes: seq<byte>, nalus: seq<Nalu>, ok: bool, pts: int)

  datatype Chunk = Chunk(data: seq<byte>, spill: Spill, pts: int)

  /** The chunk being looked at: what is left of it, and whether that is all of it. */
  datatype Cur = Cur(rest: seq<byte>, spill: Spill, pts: int, whole: bool)

  /** `taken` pictures are with the decoder; `pic` is the one being built. */
  datatype Flow = Flow(chunks: seq<Chunk>, cur: Option<Cur>, pics: seq<Pic>, taken: nat,
                       pic: Option<Pic>, ptsList: PtsList, found: bool, eos: bool)

  const EMPTY := Flow([], None, [], 0, None, NO_PTS, false, false)

  // ----- what the ring holds behind a chunk

  /** The bytes behind the current chunk and behind those that wait. */
  datatype Spills = Spills(cur: Spill, chunks: seq<Spill>)

  function SpillsOf(s: Flow): (w: Spills)
    ensures |w.chunks| == |s.chunks|
  {
    Spills(if s.cur.Some? then s.cur.value.spill else NO_SPILL,
           seq(|s.chunks|, i requires 0 <= i < |s.chunks| => s.chunks[i].spill))
  }

  /** They have been overwritten; pictures and chunks are what they were. */
  function Written(s: Flow, w: Spills): (t: Flow)
    requires |w.chunks| == |s.chunks|
  {
    s.(cur := if s.cur.Some? then Some(s.cur.value.(spill := w.cur)) else None,
       chunks := seq(|s.chunks|, i requires 0 <= i < |s.chunks| => s.chunks[i].(spill := w.chunks[i])))
  }

  /** Nothing but the bytes behind chunks differs. */
  predicate SameData(s: Flow, t: Flow) {
    |t.chunks| == |s.chunks| && t == Written(s, SpillsOf(t))
  }

  // ----- one pass of a detector loop

  datatype Supplied = Fed(s: Flow) | Starved(s: Flow)

  /**
   One pass goes on to the next pass or leaves the detector; or it counts off more than is there,
   or less than nothing. Then the numbers say what the record holds: how much of the chunk is taken
   to be left, how long the picture is taken to be, and the size of the unit listed last.
   */
  datatype Outcome = More(s: Flow) | Done(s: Flow) | Astray(left: int, length: int, size: int)

  function FirstKnown(pts: seq<int>): (r: int)
    ensures r == -1 ==> forall k :: 0 <= k < |pts| ==> pts[k] == -1
    ensures r != -1 ==> exists k :: 0 <= k < |pts| && pts[k] == r && forall j :: 0 <= j < k ==> pts[j] == -1
  {
    if pts == [] then -1 else if pts[0] != -1 then pts[0] else
      var r := FirstKnown(pts[1..]);
      assert r != -1 ==>
          exists k :: 0 <= k < |pts[1..]| && pts[1..][k] == r && forall j :: 0 <= j < k ==> pts[1..][j] == -1;
      assert forall k :: 0 <= k < |pts[1..]| ==> pts[1..][k] == pts[k + 1];
      r
  }

  function Emit(s: Flow): Flow
    requires s.pic.Some?
  {
    s.(pics := s.pics + [s.pic.value.(pts := FirstKnown(s.ptsList))], pic := None, found := false)
  }

  /** What is left of the current chunk joins the picture. */
  function LeaveChunk(s: Flow): (t: Flow)
    requires s.pic.Some?
    ensures t.pic.Some?
  {
    if s.cur.None? then s
    else s.(cur := None, pic := Some(s.pic.value.(bytes := s.pic.value.bytes + s.cur.value.rest)))
  }

  /** The next chunk is opened; an empty one is thrown away. */
  function OpenChunk(t: Flow): Supplied {
    if t.chunks == [] then Starved(t)
    else
      var c := t.chunks[0];
      var u := t.(chunks := t.chunks[1..]);
      if c.data == [] then Starved(u) else Fed(u.(cur := Some(Cur(c.data, c.spill, c.pts, true))))
  }

  function Supply(s: Flow): Supplied
    requires s.pic.Some?
  {
    OpenChunk(LeaveChunk(s))
  }

  /** Without a usable unit the rest of the chunk joins the picture, which may be given up. */
  function Dispose(s: Flow): Flow
    requires s.pic.Some? && s.cur.Some?
  {
    var p := s.pic.value;
    var bytes := p.bytes + s.cur.value.rest;
    if (s.cur.value.whole && p.bytes == []) || |bytes| > MAX_INVALID_STREAM_DATA_SIZE then
      s.(cur := None, pic := None, pics := s.pics + [p.(bytes := bytes, ok := false)])
    else
      s.(cur := None, pic := Some(p.(bytes := bytes)))
  }

  function Store(s: Flow, skip: nat, size: nat, nType: nat): Flow
    requires s.pic.Some? && s.cur.Some? && skip + size <= |s.cur.value.rest|
  {
    var p := s.pic.value;
    var c := s.cur.value;
    var n := |p.nalus|;
    s.(pic := Some(p.(bytes := p.bytes + c.rest[..skip + size],
                      nalus := p.nalus + [Nalu(nType, |p.bytes| + skip, size)])),
       cur := Some(c.(rest := c.rest[skip + size..], whole := c.whole && skip + size == 0)),
       ptsList := if n < MAX_FRAME_PTS_LIST_NUM then s.ptsList[n := c.pts] else s.ptsList)
  }

  /** Storing a unit is to skip its framing, list it, and skip it. */
  function SkipBytes(s: Flow, n: nat): Flow
    requires s.pic.Some? && s.cur.Some? && n <= |s.cur.value.rest|
  {
    var p, c := s.pic.value, s.cur.value;
    s.(cur := Some(c.(rest := c.rest[n..], whole := c.whole && n == 0)),
       pic := Some(p.(bytes := p.bytes + c.rest[..n])))
  }

  function ListNalu(s: Flow, nType: nat, size: nat): Flow
    requires s.pic.Some? && s.cur.Some?
  {
    var p := s.pic.value;
    s.(pic := Some(p.(nalus := p.nalus + [Nalu(nType, |p.bytes|, size)])),
       ptsList := if |p.nalus| < MAX_FRAME_PTS_LIST_NUM then s.ptsList[|p.nalus| := s.cur.value.pts] else s.ptsList)
  }

  lemma StoreSteps(s: Flow, skip: nat, size: nat, nType: nat)
    requires s.pic.Some? && s.cur.Some? && 0 < skip && skip + size <= |s.cur.value.rest|
    ensures Store(s, skip, size, nType) == SkipBytes(ListNalu(SkipBytes(s, skip), nType, size), size)
  {
    var b, rest := s.pic.value.bytes, s.cur.value.rest;
    assert rest[skip..][size..] == rest[skip + size..];
    assert rest[..skip] + rest[skip..][..size] == rest[..skip + size];
    Append(b, rest[..skip], rest[skip..][..size]);
  }

  /** What the unit behind `skip` bytes of the chunk says about itself: its type, and whether it is a first slice. */
  function HeaderType(codec: Codec, c: Cur, skip: nat): nat
    requires skip < |c.rest| + 4
  {
    UnitType(codec, (c.rest + c.spill)[skip])
  }

  predicate HeaderFirst(codec: Codec, c: Cur, skip: nat)
    requires skip < |c.rest| + 4
  {
    FirstSlice(codec, HeaderType(codec, c, skip), (c.rest + c.spill)[skip + 2])
  }

  /** It cannot stand behind the first slice of a picture. */
  predicate HeaderOpens(codec: Codec, c: Cur, skip: nat)
    requires skip < |c.rest| + 4
  {
    BeginsAccessUnit(codec, HeaderType(codec, c, skip)) || HeaderFirst(codec, c, skip)
  }

  function CutOf(codec: Codec, framing: Framing, c: Cur): (r: Cut)
    requires c.rest != []
    ensures r.Cut? ==> 1 <= r.skip < |c.rest| && r.skip + r.size <= |c.rest|
    ensures !r.NoUnit? ==> r.skip < |c.rest| + 4
  {
    CutUnit(codec, framing, c.rest, c.spill)
  }

  function Look(codec: Codec, framing: Framing, s: Flow): Outcome
    requires s.pic.Some? && s.cur.Some? && s.cur.value.rest != []
  {
    var c := s.cur.value;
    var cut := CutOf(codec, framing, c);
    if cut.NoUnit? || |s.pic.value.nalus| > MAX_NALU_NUM_IN_FRAME then Done(Dispose(s))
    else if s.found && HeaderOpens(codec, c, cut.skip) then Done(Emit(s))
    else if cut.Wild? then
      Astray(|c.rest| - cut.skip - cut.length, |s.pic.value.bytes| + cut.skip + cut.length, cut.length)
    else
      More(Store(s.(found := s.found || HeaderFirst(codec, c, cut.skip)), cut.skip, cut.size,
                 HeaderType(codec, c, cut.skip)))
  }

  /** At the end of the stream a picture that has its first slice is complete. */
  function Finish(s: Flow): Flow
    requires s.pic.Some?
  {
    if s.found && s.eos then Emit(s) else s
  }

  function Step(codec: Codec, framing: Framing, s: Flow): (r: Outcome)
    requires s.pic.Some?
    ensures !r.Astray? ==> r.s.eos == s.eos && r.s.taken == s.taken
    ensures r.More? ==> r.s.pic.Some? && r.s.cur.Some? && (|r.s.chunks| < |s.chunks| ||
                        (r.s.chunks == s.chunks && s.cur.Some? && |r.s.cur.value.rest| < |s.cur.value.rest|))
  {
    if s.cur.None? || |s.cur.value.rest| < 5 then
      match Supply(s)
      case Starved(t) => Done(Finish(t))
      case Fed(t) => Look(codec, framing, t)
    else Look(codec, framing, s)
  }

  /** An empty picture slot is claimed if there is one. */
  function Claim(s: Flow): Flow {
    if s.pic.None? && |s.pics| < MAX_FRAME_PIC_NUM
    then s.(pic := Some(Pic([], [], true, -1)), ptsList := NO_PTS)
    else s
  }

  function Loop(codec: Codec, framing: Framing, s: Flow): (r: Outcome)
    requires s.pic.Some?
    ensures !r.More? && (r.Done? ==> r.s.eos == s.eos && r.s.taken == s.taken)
    decreases |s.chunks|, if s.cur.Some? then |s.cur.value.rest| else 0
  {
    var r := Step(codec, framing, s);
    if r.More? then Loop(codec, framing, r.s) else r
  }

  /** One call of the detector. */
  function Detect(codec: Codec, framing: Framing, s: Flow): (r: Outcome)
    ensures !r.More?
  {
    var t := Claim(s);
    if t.pic.None? then Done(t) else Loop(codec, framing, t)
  }

  // ----- when a pass goes astray

  /** The chunk a pass looks at: the current one if five bytes are left, or else the next one. */
  function LookedAt(s: Flow): (c: Option<Cur>)
    ensures c.Some? ==> c.value.rest != []
  {
    if s.cur.Some? && |s.cur.value.rest| >= 5 then s.cur
    else if s.chunks != [] && s.chunks[0].data != [] then
      Some(Cur(s.chunks[0].data, s.chunks[0].spill, s.chunks[0].pts, true))
    else None
  }

  function UnitsSoFar(s: Flow): nat {
    if s.pic.Some? then |s.pic.value.nalus| else 0
  }

  /** A pass goes on with, or ends in front of, a unit exactly if it finds one and the picture has room for it. */
  predicate FindsUnit(codec: Codec, framing: Framing, s: Flow) {
    LookedAt(s).Some? && !CutOf(codec, framing, LookedAt(s).value).NoUnit? && UnitsSoFar(s) <= MAX_NALU_NUM_IN_FRAME
  }

  /** It counts off a length that is not there exactly if it is to store a unit whose length is Wild. */
  lemma AstrayExactly(codec: Codec, framing: Framing, s: Flow)
    requires s.pic.Some?
    ensures Step(codec, framing, s).Astray? <==>
              && FindsUnit(codec, framing, s) && CutOf(codec, framing, LookedAt(s).value).Wild?
              && !(s.found && HeaderOpens(codec, LookedAt(s).value, CutOf(codec, framing, LookedAt(s).value).skip))
  {
    hide CutUnit;
  }

  /** What the record holds once a unit is counted off: what is left, how long the picture is, how long the unit. */
  function Record(r: Outcome): (n: (int, int, int))
    requires r.More? ==> r.s.cur.Some? && r.s.pic.Some? && r.s.pic.value.nalus != []
    requires !r.Done?
  {
    match r
    case More(t) => (|t.cur.value.rest|, |t.pic.value.bytes|, t.pic.value.nalus[|t.pic.value.nalus| - 1].size)
    case Astray(left, length, size) => (left, length, size)
  }

  /**
   A pass that counts off a unit leaves something that can be left, and a unit that can be there,
   exactly if it does not go astray: its length lies between one byte and what is there.
   */
  lemma CountsOffExactly(codec: Codec, framing: Framing, s: Flow)
    requires s.pic.Some? && s.cur.Some? && s.cur.value.rest != [] && !Look(codec, framing, s).Done?
    requires framing.LengthPrefix?
    ensures var c := s.cur.value; var n := framing.prefix; var length := FrontLength(codec, n, c.rest, c.spill);
            var r := Look(codec, framing, s);
            && (r.More? ==> r.s.cur.Some? && r.s.pic.Some? && r.s.pic.value.nalus != [])
            && Record(r) == (|c.rest| - n - length, |s.pic.value.bytes| + n + length, length)
            && (r.More? <==> 0 <= Record(r).0 && 0 < Record(r).2)
  {
    hide FrontLength;
  }

  // ----- when a pass strands the rest of a chunk

  /**
   Less than five bytes of a chunk are left and no picture has begun with them. The next pass will count
   them to a picture without saying where it starts.
   */
  predicate Stranded(s: Flow) {
    s.cur.Some? && |s.cur.value.rest| < 5 && (s.pic.None? || s.pic.value.bytes == [])
  }

  /** A picture is emitted in front of a unit that opens the next one, in a chunk of less than five bytes. */
  predicate Strands(codec: Codec, framing: Framing, s: Flow) {
    && s.found && FindsUnit(codec, framing, s) && |LookedAt(s).value.rest| < 5
    && HeaderOpens(codec, LookedAt(s).value, CutOf(codec, framing, LookedAt(s).value).skip)
  }

  lemma LookStrands(codec: Codec, framing: Framing, s: Flow)
    requires s.pic.Some? && s.cur.Some? && s.cur.value.rest != [] && !Look(codec, framing, s).Astray?
    ensures var c := s.cur.value; var cut := CutOf(codec, framing, c);
            Stranded(Look(codec, framing, s).s) <==>
              && s.found && !cut.NoUnit? && UnitsSoFar(s) <= MAX_NALU_NUM_IN_FRAME
              && |c.rest| < 5 && HeaderOpens(codec, c, cut.skip)
  {
    hide CutUnit, HeaderType, HeaderFirst, HeaderOpens;
  }

  /** What a pass looks at after it has called for data. */
  lemma SupplyLooks(s: Flow)
    requires s.pic.Some? && (s.cur.None? || |s.cur.value.rest| < 5)
    ensures var r := Supply(s);
            && (r.Fed? <==> LookedAt(s).Some?)
            && (r.Fed? ==> r.s.cur == LookedAt(s) && r.s.pic.Some?)
            && (r.Fed? ==> UnitsSoFar(r.s) == UnitsSoFar(s) && r.s.found == s.found)
            && (r.Starved? ==> r.s.cur.None?)
            && (r.s.chunks == s.chunks || (s.chunks != [] && r.s.chunks == s.chunks[1..]))
  {
  }

  lemma StrandedExactly(codec: Codec, framing: Framing, s: Flow)
    requires s.pic.Some? && !Step(codec, framing, s).Astray?
    ensures Stranded(Step(codec, framing, s).s) <==> Strands(codec, framing, s)
  {
    hide Look, CutOf, HeaderOpens, Supply;
    if s.cur.None? || |s.cur.value.rest| < 5 {
      SupplyLooks(s);
      if Supply(s).Fed? {
        LookStrands(codec, framing, Supply(s).s);
      }
    } else {
      LookStrands(codec, framing, s);
    }
  }

  /**
   Behind start codes that is the chunk `00 00 01 x`, where x opens a picture by its type, or by the second byte
   behind the chunk.
   */
  lemma StrandsStartCode(codec: Codec, s: Flow)
    ensures Strands(codec, StartCode, s) <==>
              && s.found && LookedAt(s).Some? && UnitsSoFar(s) <= MAX_NALU_NUM_IN_FRAME
              && var c := LookedAt(s).value;
                 && |c.rest| == 4 && c.rest[..3] == [0, 0, 1]
                 && (codec.Avc? || BeginsAccessUnit(codec, UnitType(codec, c.rest[3]))
                     || (UnitType(codec, c.rest[3]) <= 21 && c.spill[1] >= 128))
  {
    if LookedAt(s).Some? && |LookedAt(s).value.rest| < 5 {
      var c := LookedAt(s).value;
      ShortStartCode(codec, c.rest, c.spill);
      hide CutUnit, FirstStartCode;
    }
  }

  /**
   Behind a length of n bytes it is a chunk of less than five bytes whose length passes the check. In the H.264
   detector that is a unit of at most four bytes less n, or a length from 2^31 on that is no more, read as a
   negative number, than what is left. In the H.265 detector the unit must open a picture; the length is that of
   a unit as short, or the chunk does not even hold it and the check wraps.
   */
  lemma StrandsLength(codec: Codec, n: Prefix, s: Flow)
    ensures Strands(codec, LengthPrefix(n), s) <==>
              && s.found && LookedAt(s).Some? && UnitsSoFar(s) <= MAX_NALU_NUM_IN_FRAME
              && var c := LookedAt(s).value; var left := |c.rest| - n; var v := BigEndian(c.rest + c.spill, n);
                 && |c.rest| < 5 && v > 0
                 && match codec {
                      case Avc => v <= left || (v >= 0x8000_0000 && v - 0x1_0000_0000 <= left)
                      case Hevc => v <= (if left < 0 then left + 0x1_0000_0000 else left) && HeaderOpens(Hevc, c, n)
                    }
  {
    if LookedAt(s).Some? {
      var c := LookedAt(s).value;
      if |c.rest| >= n {
        BigEndianPrefix(c.rest, c.spill, n);
      }
      LimitBound(n);
      hide BigEndian, BeginsAccessUnit, UnitType;
    }
  }

  // ----- conservation of bytes

  function PicBytes(ps: seq<Pic>): seq<byte> {
    if ps == [] then [] else ps[0].bytes + PicBytes(ps[1..])
  }

  function ChunkBytes(cs: seq<Chunk>): seq<byte> {
    if cs == [] then [] else cs[0].data + ChunkBytes(cs[1..])
  }

  /** Every byte submitted and not yet flushed, in the order of submission. */
  function AllBytes(s: Flow): seq<byte> {
    PicBytes(s.pics) + (if s.pic.Some? then s.pic.value.bytes else [])
    + (if s.cur.Some? then s.cur.value.rest else []) + ChunkBytes(s.chunks)
  }

  lemma {:induction false} PicBytesAppend(a: seq<Pic>, b: seq<Pic>)
    ensures PicBytes(a + b) == PicBytes(a) + PicBytes(b)
  {
    if a == [] {
      assert a + b == b;
    } else {
      PicBytesAppend(a[1..], b);
      Append(a[0].bytes, PicBytes(a[1..]), PicBytes(b));
      assert (a + b)[1..] == a[1..] + b;
    }
  }

  lemma {:induction false} ChunkBytesAppend(a: seq<Chunk>, b: seq<Chunk>)
    ensures ChunkBytes(a + b) == ChunkBytes(a) + ChunkBytes(b)
  {
    if a == [] {
      assert a + b == b;
    } else {
      ChunkBytesAppend(a[1..], b);
      Append(a[0].data, ChunkBytes(a[1..]), ChunkBytes(b));
      assert (a + b)[1..] == a[1..] + b;
    }
  }

  lemma EmitBytes(s: Flow)
    requires s.pic.Some?
    ensures AllBytes(Emit(s)) == AllBytes(s)
  {
    var p := s.pic.value.(pts := FirstKnown(s.ptsList));
    PicBytesAppend(s.pics, [p]);
    assert PicBytes([p]) == p.bytes;
  }

  lemma SupplyBytes(s: Flow)
    requires s.pic.Some?
    ensures AllBytes(Supply(s).s) == AllBytes(s)
  {
    hide PicBytes;
    if s.cur.Some? {
      Append(PicBytes(s.pics), s.pic.value.bytes, s.cur.value.rest);
    }
    if s.chunks != [] {
      var c := s.chunks[0];
      assert ChunkBytes(s.chunks) == c.data + ChunkBytes(s.chunks[1..]);
    }
  }

  lemma DisposeBytes(s: Flow)
    requires s.pic.Some? && s.cur.Some?
    ensures AllBytes(Dispose(s)) == AllBytes(s)
  {
    var t := Dispose(s);
    var bytes := s.pic.value.bytes + s.cur.value.rest;
    Append(PicBytes(s.pics), s.pic.value.bytes, s.cur.value.rest);
    if t.pic.None? {
      var p := t.pics[|s.pics|];
      PicBytesAppend(s.pics, [p]);
      assert PicBytes([p]) == bytes;
    } else {
      assert t.pic.value.bytes == bytes;
    }
  }

  lemma StoreBytes(s: Flow, found: bool, skip: nat, size: nat, t: nat)
    requires s.pic.Some? && s.cur.Some? && skip + size <= |s.cur.value.rest|
    ensures AllBytes(Store(s.(found := found), skip, size, t)) == AllBytes(s)
  {
    hide PicBytes, ChunkBytes;
    var b, rest := s.pic.value.bytes, s.cur.value.rest;
    assert rest == rest[..skip + size] + rest[skip + size..];
    Append(b, rest[..skip + size], rest[skip + size..]);
    Append(PicBytes(s.pics), b + rest[..skip + size], rest[skip + size..]);
    Append(PicBytes(s.pics), b, rest);
  }

  lemma LookBytes(codec: Codec, framing: Framing, s: Flow)
    requires s.pic.Some? && s.cur.Some? && s.cur.value.rest != [] && !Look(codec, framing, s).Astray?
    ensures AllBytes(Look(codec, framing, s).s) == AllBytes(s)
  {
    hide CutUnit, FirstStartCode, Dispose, Emit, Store, AllBytes, HeaderType, HeaderFirst, HeaderOpens;
    var r := Look(codec, framing, s);
    if r.More? {
      var c := CutOf(codec, framing, s.cur.value);
      var t := HeaderType(codec, s.cur.value, c.skip);
      StoreBytes(s, s.found || HeaderFirst(codec, s.cur.value, c.skip), c.skip, c.size, t);
    } else {
      DisposeBytes(s);
      EmitBytes(s);
    }
  }

  /**
   Each pass of a detector only moves the boundaries: no submitted byte is lost,
   repeated or reordered, whether a unit is stored, a picture emitted, a chunk
   exhausted, invalid data given up or the end of the stream reached.
   */
  lemma StepConservesBytes(codec: Codec, framing: Framing, s: Flow)
    requires s.pic.Some? && !Step(codec, framing, s).Astray?
    ensures AllBytes(Step(codec, framing, s).s) == AllBytes(s)
  {
    hide Look, AllBytes, Emit;
    if s.cur.None? || |s.cur.value.rest| < 5 {
      SupplyBytes(s);
      match Supply(s)
      case Starved(t) => EmitBytes(t);
      case Fed(t) => LookBytes(codec, framing, t);
    } else {
      LookBytes(codec, framing, s);
    }
  }

  // ----- the shape of a picture

  function Slice(b: seq<byte>, off: nat, size: nat): seq<byte> {
    if off + size <= |b| then b[off..off + size] else []
  }

  /** The unit n of the bytes b announces the first slice of a picture. */
  predicate IsFirst(codec: Codec, b: seq<byte>, n: Nalu) {
    codec.Avc? || (n.nType <= 21 && n.size >= 3 && n.off + n.size <= |b| && b[n.off + 2] >= 128)
  }

  /** The unit can only stand before the first slice of a picture, or be it. */
  predicate Opens(codec: Codec, b: seq<byte>, n: Nalu) {
    IsFirst(codec, b, n) || BeginsAccessUnit(codec, n.nType)
  }

  /** The unit lies inside the bytes b and carries the type of its first byte. */
  predicate Sound(codec: Codec, b: seq<byte>, n: Nalu) {
    n.off + n.size <= |b| && (n.size > 0 ==> n.nType == UnitType(codec, b[n.off]))
  }

  /**
   Units lie inside the picture's bytes, in order and apart; after a first slice
   no unit follows that belongs to a later access unit.
   */
  predicate WellFormed(codec: Codec, b: seq<byte>, ns: seq<Nalu>) {
    && (forall k :: 0 <= k < |ns| ==> Sound(codec, b, ns[k]))
    && (forall j, k :: 0 <= j < k < |ns| ==> ns[j].off + ns[j].size < ns[k].off)
    && (forall j, k :: 0 <= j < k < |ns| && IsFirst(codec, b, ns[j]) ==> !Opens(codec, b, ns[k]))
  }

  predicate NoFirst(codec: Codec, b: seq<byte>, ns: seq<Nalu>) {
    forall k :: 0 <= k < |ns| ==> !IsFirst(codec, b, ns[k])
  }

  predicate PicsWellFormed(codec: Codec, ps: seq<Pic>) {
    forall k :: 0 <= k < |ps| ==> WellFormed(codec, ps[k].bytes, ps[k].nalus)
  }

  predicate Invariant(codec: Codec, s: Flow) {
    && PicsWellFormed(codec, s.pics)
    && (s.pic.Some? ==>
          && WellFormed(codec, s.pic.value.bytes, s.pic.value.nalus)
          && (s.found || NoFirst(codec, s.pic.value.bytes, s.pic.value.nalus))
          && |s.pics| < MAX_FRAME_PIC_NUM)
    && s.taken <= |s.pics| <= MAX_FRAME_PIC_NUM
  }

  /** More bytes at the end change nothing about the units already stored. */
  lemma ExtendKeeps(codec: Codec, b: seq<byte>, ns: seq<Nalu>, more: seq<byte>)
    requires WellFormed(codec, b, ns)
    ensures WellFormed(codec, b + more, ns)
    ensures NoFirst(codec, b, ns) ==> NoFirst(codec, b + more, ns)
    ensures forall k :: 0 <= k < |ns| ==> IsFirst(codec, b + more, ns[k]) == IsFirst(codec, b, ns[k])
  {
    assert forall i :: 0 <= i < |b| ==> (b + more)[i] == b[i];
    assert forall k :: 0 <= k < |ns| ==> Sound(codec, b, ns[k]);
    assert forall k :: 0 <= k < |ns| ==> IsFirst(codec, b + more, ns[k]) == IsFirst(codec, b, ns[k]);
    assert forall k :: 0 <= k < |ns| ==> Opens(codec, b + more, ns[k]) == Opens(codec, b, ns[k]);
  }

  /** A unit may follow those that are stored unless it opens and a first slice is among them. */
  lemma StoreKeeps(codec: Codec, b: seq<byte>, ns: seq<Nalu>, n: Nalu)
    requires WellFormed(codec, b, ns) && Sound(codec, b, n)
    requires forall k :: 0 <= k < |ns| ==> ns[k].off + ns[k].size < n.off
    requires NoFirst(codec, b, ns) || !Opens(codec, b, n)
    ensures WellFormed(codec, b, ns + [n])
    ensures NoFirst(codec, b, ns) && !IsFirst(codec, b, n) ==> NoFirst(codec, b, ns + [n])
  {
  }

  lemma EndsInside(codec: Codec, b: seq<byte>, ns: seq<Nalu>)
    requires WellFormed(codec, b, ns)
    ensures forall k :: 0 <= k < |ns| ==> ns[k].off + ns[k].size <= |b|
  {
    assert forall k :: 0 <= k < |ns| ==> Sound(codec, b, ns[k]);
  }

  lemma LookStores(codec: Codec, s: Flow, skip: nat, size: nat)
    requires Invariant(codec, s) && s.pic.Some? && s.cur.Some?
    requires 1 <= skip < |s.cur.value.rest| && skip + size <= |s.cur.value.rest|
    requires !(s.found && HeaderOpens(codec, s.cur.value, skip))
    ensures var t := HeaderType(codec, s.cur.value, skip); var first := HeaderFirst(codec, s.cur.value, skip);
            Invariant(codec, Store(s.(found := s.found || first), skip, size, t))
  {
    hide CutUnit, FirstStartCode, WellFormed;
    var p, c := s.pic.value, s.cur.value;
    var t, first := HeaderType(codec, c, skip), HeaderFirst(codec, c, skip);
    var more := c.rest[..skip + size];
    var b := p.bytes + more;
    var n := Nalu(t, |p.bytes| + skip, size);
    ExtendKeeps(codec, p.bytes, p.nalus, more);
    if size > 0 {
      assert b[n.off] == more[skip] == c.rest[skip];
    }
    if size >= 3 {
      assert b[n.off + 2] == more[skip + 2] == c.rest[skip + 2];
    }
    EndsInside(codec, p.bytes, p.nalus);
    assert IsFirst(codec, b, n) ==> first;
    StoreKeeps(codec, b, p.nalus, n);
  }

  lemma LookKeeps(codec: Codec, framing: Framing, s: Flow)
    requires Invariant(codec, s) && s.pic.Some? && s.cur.Some? && s.cur.value.rest != []
    requires !Look(codec, framing, s).Astray?
    ensures Invariant(codec, Look(codec, framing, s).s)
  {
    hide CutUnit, FirstStartCode, WellFormed, NoFirst, Store, HeaderType, HeaderFirst, HeaderOpens;
    var c := s.cur.value;
    var cut := CutOf(codec, framing, c);
    if cut.NoUnit? || |s.pic.value.nalus| > MAX_NALU_NUM_IN_FRAME {
      ExtendKeeps(codec, s.pic.value.bytes, s.pic.value.nalus, c.rest);
    } else if !(s.found && HeaderOpens(codec, c, cut.skip)) {
      LookStores(codec, s, cut.skip, cut.size);
    }
  }

  lemma SupplyKeepsInvariant(codec: Codec, s: Flow)
    requires Invariant(codec, s) && s.pic.Some?
    ensures Invariant(codec, Supply(s).s)
  {
    hide CutUnit, FirstStartCode, WellFormed, NoFirst;
    if s.cur.Some? {
      ExtendKeeps(codec, s.pic.value.bytes, s.pic.value.nalus, s.cur.value.rest);
    }
  }

  /** Each pass keeps every picture well-formed, also after invalid data. */
  lemma StepKeepsInvariant(codec: Codec, framing: Framing, s: Flow)
    requires Invariant(codec, s) && s.pic.Some? && !Step(codec, framing, s).Astray?
    ensures Invariant(codec, Step(codec, framing, s).s)
  {
    hide CutUnit, FirstStartCode, WellFormed, NoFirst, Look;
    if s.cur.None? || |s.cur.value.rest| < 5 {
      SupplyKeepsInvariant(codec, s);
      if Supply(s).Fed? {
        LookKeeps(codec, framing, Supply(s).s);
      }
    } else {
      LookKeeps(codec, framing, s);
    }
  }

  lemma {:induction false} LoopKeeps(codec: Codec, framing: Framing, s: Flow)
    requires Invariant(codec, s) && s.pic.Some? && Loop(codec, framing, s).Done?
    ensures Invariant(codec, Loop(codec, framing, s).s) && AllBytes(Loop(codec, framing, s).s) == AllBytes(s)
    decreases |s.chunks|, if s.cur.Some? then |s.cur.value.rest| else 0
  {
    hide Step, AllBytes, Invariant;
    StepKeepsInvariant(codec, framing, s);
    StepConservesBytes(codec, framing, s);
    var r := Step(codec, framing, s);
    if r.More? {
      LoopKeeps(codec, framing, r.s);
    }
  }

  /** A whole call of a detector. */
  lemma DetectKeeps(codec: Codec, framing: Framing, s: Flow)
    requires Invariant(codec, s) && Detect(codec, framing, s).Done?
    ensures Invariant(codec, Detect(codec, framing, s).s) && AllBytes(Detect(codec, framing, s).s) == AllBytes(s)
  {
    var t := Claim(s);
    assert Invariant(codec, t);
    assert AllBytes(t) == AllBytes(s);
    if t.pic.Some? {
      LoopKeeps(codec, framing, t);
    }
  }

  // ----- lengths that are there

  /** Every length met in some data is refused or is there. */
  predicate Sane(codec: Codec, framing: Framing, data: seq<byte>, spill: Spill)
    decreases |data|
  {
    data == [] ||
    match CutUnit(codec, framing, data, spill) {
      case NoUnit => true
      case Wild(_, _) => false
      case Cut(skip, size) => |data| - skip - size < 5 || Sane(codec, framing, data[skip + size..], spill)
    }
  }

  predicate SaneFlow(codec: Codec, framing: Framing, s: Flow) {
    && (s.cur.Some? && |s.cur.value.rest| >= 5 ==> Sane(codec, framing, s.cur.value.rest, s.cur.value.spill))
    && SaneChunks(codec, framing, s.chunks)
  }

  /** Data behind start codes is always so. */
  lemma {:induction false} StartCodesAreSane(codec: Codec, data: seq<byte>, spill: Spill)
    ensures Sane(codec, StartCode, data, spill)
    decreases |data|
  {
    hide FirstStartCode;
    if data != [] {
      var r := CutUnit(codec, StartCode, data, spill);
      if r.Cut? {
        StartCodesAreSane(codec, data[r.skip + r.size..], spill);
      }
    }
  }

  /** And so is data behind lengths if no chunk is shorter than five bytes and no length an H.264 one from 2^31 on. */
  lemma {:induction false} SaneWhenLong(codec: Codec, framing: Framing, data: seq<byte>, spill: Spill)
    requires |data| >= 5 && !(codec.Avc? && framing == LengthPrefix(4))
    ensures Sane(codec, framing, data, spill)
    decreases |data|
  {
    hide CutUnit, Sane, BigEndian;
    WildWhenLong(codec, framing, data, spill);
    var r := CutUnit(codec, framing, data, spill);
    if r.Cut? && |data| - r.skip - r.size >= 5 {
      SaneWhenLong(codec, framing, data[r.skip + r.size..], spill);
    }
    SaneFront(codec, framing, data, spill);
  }

  lemma SaneFront(codec: Codec, framing: Framing, data: seq<byte>, spill: Spill)
    requires var r := CutUnit(codec, framing, data, spill);
             && !r.Wild?
             && (r.Cut? && |data| - r.skip - r.size >= 5 ==> Sane(codec, framing, data[r.skip + r.size..], spill))
    ensures Sane(codec, framing, data, spill)
  {
    hide CutUnit;
  }

  predicate SaneChunks(codec: Codec, framing: Framing, cs: seq<Chunk>) {
    forall i :: 0 <= i < |cs| ==> Sane(codec, framing, cs[i].data, cs[i].spill)
  }

  lemma SaneLook(codec: Codec, framing: Framing, s: Flow)
    requires s.pic.Some? && s.cur.Some? && s.cur.value.rest != []
    requires Sane(codec, framing, s.cur.value.rest, s.cur.value.spill) && SaneChunks(codec, framing, s.chunks)
    ensures var r := Look(codec, framing, s);
            && !r.Astray? && r.s.chunks == s.chunks
            && (r.s.cur.Some? && |r.s.cur.value.rest| >= 5 ==>
                  Sane(codec, framing, r.s.cur.value.rest, r.s.cur.value.spill))
  {
    hide CutUnit, HeaderType, HeaderFirst, HeaderOpens, SaneChunks;
  }

  lemma SaneSupply(codec: Codec, framing: Framing, s: Flow)
    requires s.pic.Some? && SaneFlow(codec, framing, s)
    ensures var t := Supply(s).s;
            && SaneChunks(codec, framing, t.chunks)
            && (Supply(s).Fed? ==> t.cur.Some? && t.cur.value.rest != [] && t.pic.Some?
                                   && Sane(codec, framing, t.cur.value.rest, t.cur.value.spill))
            && (Supply(s).Starved? ==> t.cur.None?)
  {
    hide Sane;
  }

  /** While all lengths are there no pass goes astray, and that stays so. */
  lemma SaneStep(codec: Codec, framing: Framing, s: Flow)
    requires s.pic.Some? && SaneFlow(codec, framing, s)
    ensures !Step(codec, framing, s).Astray? && SaneFlow(codec, framing, Step(codec, framing, s).s)
  {
    hide Sane, SaneChunks, Look, Supply;
    if s.cur.None? || |s.cur.value.rest| < 5 {
      SaneSupply(codec, framing, s);
      if Supply(s).Fed? {
        SaneLook(codec, framing, Supply(s).s);
      }
    } else {
      SaneLook(codec, framing, s);
    }
  }
}
