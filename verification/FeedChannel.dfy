/**
 The feeder path as a channel of frames: parts of a frame are submitted one by one, and
 the decoder reads whole frames. What comes out is what was put in, however it was cut.
 */
module FeedChannel {
  import opened Common
  import opened SbmStream

  const NO_PTS := -1

  /** One submission. A first part says where its data lies; later parts follow on. */
  datatype Part = Part(bIsFirstPart: bool, bIsLastPart: bool, hasData: bool, bytes: seq<byte>, nPts: int)

  /** The frame being put together; without a first part that said where its data lies, bytes only count. */
  datatype Pending = Lost(count: nat) | Building(bytes: seq<byte>)

  /** `frames` are the frames not flushed, of which the decoder has taken `taken`. */
  datatype Channel = Channel(frames: seq<Frame>, taken: nat, pending: Pending, nPts: int)

  const EMPTY := Channel([], 0, Lost(0), NO_PTS)

  function Count(d: Pending): nat {
    match d
    case Lost(n) => n
    case Building(bytes) => |bytes|
  }

  function Close(c: Channel): Channel {
    if c.pending.Building? && Room(c) then c.(frames := c.frames + [Frame(c.pending.bytes, c.nPts)]) else c
  }

  function Begin(c: Channel, p: Part): Channel {
    (if Count(c.pending) != 0 then Close(c) else c)
    .(pending := if p.hasData then Building(p.bytes) else Lost(|p.bytes|), nPts := p.nPts)
  }

  function Extend(c: Channel, p: Part): Channel {
    c.(pending := match c.pending {
                    case Lost(n) => Lost(n + |p.bytes|)
                    case Building(bytes) => Building(bytes + p.bytes)
                  },
       nPts := if c.nPts == NO_PTS && p.nPts != NO_PTS then p.nPts else c.nPts)
  }

  function Submit(c: Channel, p: Part): Channel {
    var d := if p.bIsFirstPart then Begin(c, p) else Extend(c, p);
    if p.bIsLastPart then Close(d).(pending := Lost(0), nPts := NO_PTS) else d
  }

  predicate Room(c: Channel) {
    |c.frames| < SBM_FRAME_FIFO_SIZE
  }

  /**
   A first part that comes while bytes are pending lies behind them, so those bytes must go into
   a frame of their own. They do not if their frame was never opened or the queue is full; and
   then the part is not at the write address, unless it is dropped at once as well.
   */
  predicate Strands(c: Channel, p: Part) {
    p.bIsFirstPart && p.hasData && Count(c.pending) != 0 && if Room(c) then c.pending.Lost? else !p.bIsLastPart
  }

  // ----- whole frames out of parts

  /** The parts of one frame: the first one opens it, the last one and no other ends it. */
  predicate IsFrame(ps: seq<Part>) {
    && ps != [] && ps[0].bIsFirstPart && ps[0].hasData
    && (forall i :: 1 <= i < |ps| ==> !ps[i].bIsFirstPart)
    && (forall i :: 0 <= i < |ps| ==> (ps[i].bIsLastPart <==> i == |ps| - 1))
  }

  function Bytes(ps: seq<Part>): seq<byte> {
    if ps == [] then [] else ps[0].bytes + Bytes(ps[1..])
  }

  /** The first time stamp that is known. */
  function FirstPts(ps: seq<Part>): (r: int)
    ensures r == -1 <==> forall i :: 0 <= i < |ps| ==> ps[i].nPts == -1
    ensures r != -1 ==>
              exists i :: 0 <= i < |ps| && ps[i].nPts == r && forall j :: 0 <= j < i ==> ps[j].nPts == -1
  {
    if ps == [] then NO_PTS else if ps[0].nPts != NO_PTS then ps[0].nPts else FirstPts(ps[1..])
  }

  function Frames(fs: seq<seq<Part>>): (r: seq<Frame>)
    ensures |r| == |fs|
  {
    if fs == [] then [] else [Frame(Bytes(fs[0]), FirstPts(fs[0]))] + Frames(fs[1..])
  }

  /** Each part's bytes go behind those of the parts before it. */
  lemma {:induction false} BytesJoin(ps: seq<Part>, p: Part)
    ensures Bytes([]) == [] && Bytes(ps + [p]) == Bytes(ps) + p.bytes
    decreases |ps|
  {
    assert Bytes([p]) == p.bytes + Bytes([]);
    if ps != [] {
      BytesJoin(ps[1..], p);
      assert (ps + [p])[1..] == ps[1..] + [p];
      Append(ps[0].bytes, Bytes(ps[1..]), p.bytes);
    } else {
      assert ps + [p] == [p];
    }
  }

  /**
   A first part that comes before the last part of a frame: what is there of that frame is added as it is, with its
   time stamp, if there is room; and the new frame begins.
   */
  lemma InterruptedFrame(c: Channel, p: Part)
    requires c.pending.Building? && c.pending.bytes != [] && p.bIsFirstPart && p.hasData && !p.bIsLastPart
    ensures var d := Submit(c, p);
            && d.frames == (if |c.frames| < 2048 then c.frames + [Frame(c.pending.bytes, c.nPts)] else c.frames)
            && d.pending == Building(p.bytes) && d.nPts == p.nPts && d.taken == c.taken
  {
  }

  /** The channel with all its frames taken away. */
  function Bare(c: Channel): Channel {
    c.(frames := [], taken := 0)
  }

  /** The frames that some parts make if there is always room for them. */
  function Assembled(c: Channel, ps: seq<Part>): seq<Frame>
    decreases |ps|
  {
    if ps == [] then [] else
      var d := Submit(Bare(c), ps[0]);
      d.frames + Assembled(d, ps[1..])
  }

  lemma AssembledBare(c: Channel, d: Channel, ps: seq<Part>)
    requires Bare(c) == Bare(d)
    ensures Assembled(c, ps) == Assembled(d, ps)
  {
  }

  /** The rest of a frame that is being put together, with other parts behind it. */
  lemma {:induction false} RestOfFrame(c: Channel, ps: seq<Part>, later: seq<Part>)
    requires c.pending.Building? && ps != [] && (forall i :: 0 <= i < |ps| ==> !ps[i].bIsFirstPart)
    requires forall i :: 0 <= i < |ps| ==> (ps[i].bIsLastPart <==> i == |ps| - 1)
    ensures var pts := if c.nPts != NO_PTS then c.nPts else FirstPts(ps);
            Assembled(c, ps + later) == [Frame(c.pending.bytes + Bytes(ps), pts)] + Assembled(EMPTY, later)
    decreases |ps|
  {
    Append(c.pending.bytes, ps[0].bytes, Bytes(ps[1..]));
    assert (ps + later)[0] == ps[0] && (ps + later)[1..] == ps[1..] + later;
    var d := Submit(Bare(c), ps[0]);
    if |ps| == 1 {
      assert ps[1..] + later == later && ps[0].bytes + Bytes(ps[1..]) == ps[0].bytes;
      AssembledBare(d, EMPTY, later);
    } else {
      RestOfFrame(d, ps[1..], later);
    }
  }

  /** However a frame is cut into parts, it is put together whole, with its first known time stamp. */
  lemma FrameAssembles(c: Channel, ps: seq<Part>, later: seq<Part>)
    requires IsFrame(ps) && c.pending == Lost(0)
    ensures Assembled(c, ps + later) == [Frame(Bytes(ps), FirstPts(ps))] + Assembled(EMPTY, later)
  {
    assert (ps + later)[0] == ps[0] && (ps + later)[1..] == ps[1..] + later;
    var d := Submit(Bare(c), ps[0]);
    if |ps| == 1 {
      assert ps[1..] + later == later && Bytes(ps) == ps[0].bytes + Bytes([]) == ps[0].bytes;
      AssembledBare(d, EMPTY, later);
    } else {
      assert d == Channel([], 0, Building(ps[0].bytes), ps[0].nPts);
      RestOfFrame(d, ps[1..], later);
    }
  }

  /** And so is any number of frames one after the other. */
  lemma {:induction false} FramesAssemble(c: Channel, fs: seq<seq<Part>>)
    requires c.pending == Lost(0) && forall i :: 0 <= i < |fs| ==> IsFrame(fs[i])
    ensures Assembled(c, Flatten(fs)) == Frames(fs)
    decreases |fs|
  {
    hide Submit, IsFrame, Bytes, FirstPts;
    if fs != [] {
      FrameAssembles(c, fs[0], Flatten(fs[1..]));
      FramesAssemble(EMPTY, fs[1..]);
    }
  }

  // ----- runs with the decoder

  datatype Event = Feed(part: Part) | Take | GiveBack | Free

  predicate Allowed(c: Channel, e: Event) {
    match e
    case Feed(p) => !Strands(c, p)
    case Take => true
    case GiveBack => c.taken > 0
    case Free => c.taken > 0
  }

  function Apply(c: Channel, e: Event): Channel
    requires Allowed(c, e) && c.taken <= |c.frames|
  {
    match e
    case Feed(p) => Submit(c, p)
    case Take => if c.taken < |c.frames| then c.(taken := c.taken + 1) else c
    case GiveBack => c.(taken := c.taken - 1)
    case Free => c.(frames := c.frames[1..], taken := c.taken - 1)
  }

  /** Frames freed, kept for the record. */
  function Freed(c: Channel, e: Event): seq<Frame>
    requires Allowed(c, e) && c.taken <= |c.frames|
  {
    if e.Free? then c.frames[..1] else []
  }

  ghost predicate Possible(c: Channel, es: seq<Event>)
    decreases |es|
  {
    c.taken <= |c.frames| && (es == [] || (Allowed(c, es[0]) && Possible(Apply(c, es[0]), es[1..])))
  }

  /** The channel after a run, and the frames freed in it. */
  ghost function Run(c: Channel, es: seq<Event>): (r: (Channel, seq<Frame>))
    requires Possible(c, es)
    decreases |es|
  {
    if es == [] then (c, [])
    else
      var (d, freed) := Run(Apply(c, es[0]), es[1..]);
      (d, Freed(c, es[0]) + freed)
  }

  /** Frames closed by a submission, oldest first. */
  function Closed(c: Channel, p: Part): seq<Frame> {
    Submit(c, p).frames[|c.frames|..]
  }

  lemma ClosedJoin(c: Channel, p: Part)
    ensures |c.frames| <= |Submit(c, p).frames| && Submit(c, p).frames == c.frames + Closed(c, p)
    ensures Submit(c, p).taken == c.taken
  {
  }

  ghost function AllClosed(c: Channel, es: seq<Event>): seq<Frame>
    requires Possible(c, es)
    decreases |es|
  {
    if es == [] then []
    else (if es[0].Feed? then Closed(c, es[0].part) else []) + AllClosed(Apply(c, es[0]), es[1..])
  }

  lemma EventKeepsOrder(c: Channel, e: Event)
    requires Allowed(c, e) && c.taken <= |c.frames|
    ensures Freed(c, e) + Apply(c, e).frames == c.frames + if e.Feed? then Closed(c, e.part) else []
  {
    match e
    case Feed(p) => ClosedJoin(c, p);
    case Take => assert [] + c.frames == c.frames + [];
    case GiveBack => assert [] + c.frames == c.frames + [];
    case Free => assert c.frames[..1] + c.frames[1..] == c.frames + [];
  }

  /** Frames leave in the order they were closed, each once: nothing lost, nothing twice. */
  lemma {:induction false} RunKeepsOrder(c: Channel, es: seq<Event>)
    requires Possible(c, es)
    ensures var (d, freed) := Run(c, es);
            freed + d.frames == c.frames + AllClosed(c, es) && d.taken <= |d.frames|
    decreases |es|
  {
    hide Apply, Freed, Closed, Allowed;
    if es == [] {
      assert [] + c.frames == c.frames + [];
    } else {
      EventKeepsOrder(c, es[0]);
      var next := Apply(c, es[0]);
      RunKeepsOrder(next, es[1..]);
      var (d, freed) := Run(next, es[1..]);
      var here := if es[0].Feed? then Closed(c, es[0].part) else [];
      Append(Freed(c, es[0]), freed, d.frames);
      Append(Freed(c, es[0]), next.frames, AllClosed(next, es[1..]));
      Append(c.frames, here, AllClosed(next, es[1..]));
    }
  }

  // ----- what arrives over a run

  /** The parts submitted in a run. */
  function Fed(es: seq<Event>): seq<Part> {
    if es == [] then [] else (if es[0].Feed? then [es[0].part] else []) + Fed(es[1..])
  }

  /** Parts of whole frames; `open` says that the first of them goes on with a frame. */
  predicate Framed(open: bool, ps: seq<Part>)
    decreases |ps|
  {
    ps == [] ||
    ((ps[0].bIsFirstPart <==> !open) && (ps[0].bIsFirstPart ==> ps[0].hasData) && Framed(!ps[0].bIsLastPart, ps[1..]))
  }

  lemma {:induction false} FrameIsFramed(open: bool, ps: seq<Part>, later: seq<Part>)
    requires ps != [] && (ps[0].bIsFirstPart <==> !open) && (!open ==> ps[0].hasData)
    requires forall i :: 1 <= i < |ps| ==> !ps[i].bIsFirstPart
    requires forall i :: 0 <= i < |ps| ==> (ps[i].bIsLastPart <==> i == |ps| - 1)
    requires Framed(false, later)
    ensures Framed(open, ps + later)
    decreases |ps|
  {
    assert (ps + later)[1..] == ps[1..] + later;
    if |ps| == 1 {
      assert ps[1..] + later == later;
    } else {
      FrameIsFramed(true, ps[1..], later);
    }
  }

  lemma {:induction false} FramesAreFramed(fs: seq<seq<Part>>)
    requires forall i :: 0 <= i < |fs| ==> IsFrame(fs[i])
    ensures Framed(false, Flatten(fs))
  {
    if fs != [] {
      assert IsFrame(fs[0]);
      FramesAreFramed(fs[1..]);
      FrameIsFramed(false, fs[0], Flatten(fs[1..]));
    }
  }

  /** Whenever a frame ends there is room for it. */
  ghost predicate RoomAtEnds(c: Channel, es: seq<Event>)
    requires Possible(c, es)
    decreases |es|
  {
    es == [] || ((es[0].Feed? && es[0].part.bIsLastPart ==> Room(c)) && RoomAtEnds(Apply(c, es[0]), es[1..]))
  }

  /** A frame is being put together, or nothing is pending. */
  predicate InFrame(c: Channel) {
    c.pending.Building? || (c.pending == Lost(0) && c.nPts == NO_PTS)
  }

  /** Such a part strands nothing and closes the frame it ends if there is room; else it does the same either way. */
  lemma PartCloses(c: Channel, p: Part)
    requires InFrame(c) && (p.bIsFirstPart <==> c.pending.Lost?) && (p.bIsFirstPart ==> p.hasData)
    ensures var d := Submit(c, p); var e := Submit(Bare(c), p);
            && InFrame(d) && (d.pending.Building? <==> !p.bIsLastPart) && Bare(d) == Bare(e)
            && |e.frames| == (if p.bIsLastPart then 1 else 0)
            && Closed(c, p) == if |c.frames| < 2048 then e.frames else []
    ensures !Strands(c, p)
  {
  }

  lemma {:induction false} RunAssembles(c: Channel, es: seq<Event>)
    requires Possible(c, es) && InFrame(c) && Framed(c.pending.Building?, Fed(es))
    ensures |AllClosed(c, es)| <= |Assembled(c, Fed(es))|
    ensures if RoomAtEnds(c, es) then AllClosed(c, es) == Assembled(c, Fed(es))
            else |AllClosed(c, es)| < |Assembled(c, Fed(es))|
    decreases |es|
  {
    hide Closed, Submit;
    if es != [] {
      var next := Apply(c, es[0]);
      if es[0].Feed? {
        var p := es[0].part;
        assert Fed(es)[0] == p && Fed(es)[1..] == Fed(es[1..]);
        PartCloses(c, p);
        AssembledBare(next, Submit(Bare(c), p), Fed(es[1..]));
      } else {
        assert Fed(es) == Fed(es[1..]);
        AssembledBare(c, next, Fed(es));
      }
      RunAssembles(next, es[1..]);
    }
  }

  /**
   Frames are submitted in parts, however they are cut, while the decoder takes, gives back and frees frames in
   between. They arrive whole, in order, each with its first known time stamp, if and only if there is room
   whenever one of them ends.
   */
  lemma FramesArrive(c: Channel, es: seq<Event>, fs: seq<seq<Part>>)
    requires Possible(c, es) && c.pending == Lost(0) && c.nPts == NO_PTS
    requires Fed(es) == Flatten(fs) && forall i :: 0 <= i < |fs| ==> IsFrame(fs[i])
    ensures AllClosed(c, es) == Frames(fs) <==> RoomAtEnds(c, es)
    ensures var (d, freed) := Run(c, es); freed + d.frames == c.frames + Frames(fs) <==> RoomAtEnds(c, es)
  {
    FramesAreFramed(fs);
    FramesAssemble(c, fs);
    RunAssembles(c, es);
    RunKeepsOrder(c, es);
    hide *;
    var closed := AllClosed(c, es);
    assert c.frames + closed == c.frames + Frames(fs) ==>
        closed == (c.frames + closed)[|c.frames|..] == (c.frames + Frames(fs))[|c.frames|..] == Frames(fs);
  }
}
