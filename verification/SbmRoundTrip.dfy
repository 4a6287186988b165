/**
 What goes in comes out. Over any interleaving of feeder, detector and decoder, the units flushed, stored and
 still waiting are the units submitted, and the pictures group them at the units that open a picture.
 */
module SbmRoundTrip {
  import opened Common
  import opened NalUnits
  import opened SbmFlow
  import opened SbmUnits
  import opened SbmRuns

  // ----- runs on clean chunks

  /** Chunks are cut at unit boundaries, and a picture has room for the unit a pass finds. */
  predicate Fair(codec: Codec, framing: Framing, s: Flow, e: Event) {
    match e
    case Submit(c) => Clean(codec, framing, c.data)
    case Pass => s.pic.Some? ==> HasRoom(s)
    case _ => true
  }

  /** Passes over such chunks neither go astray nor strand anything. */
  lemma CleanPassIsFine(codec: Codec, framing: Framing, s: Flow)
    requires CleanFlow(codec, framing, s)
    ensures PassIsFine(codec, framing, s)
  {
    hide HeaderOpens, Step, Stranded;
    if s.pic.Some? {
      PassIsFineExactly(codec, framing, s);
      if LookedAt(s).Some? {
        var c := LookedAt(s).value;
        assert (s.cur.Some? && |s.cur.value.rest| >= 5) || Clean(codec, framing, s.chunks[0].data);
        SpillIsIdle(codec, framing, c.rest, c.spill, NO_SPILL);
        hide CutUnit;
      }
    }
  }

  lemma {:induction false} ChunkItemsAppend(codec: Codec, framing: Framing, cs: seq<Chunk>, c: Chunk)
    requires CleanChunks(codec, framing, cs) && Clean(codec, framing, c.data)
    ensures CleanChunks(codec, framing, cs + [c])
    ensures ChunkItems(codec, framing, cs + [c]) ==
            ChunkItems(codec, framing, cs) + Items(codec, framing, c.data, c.spill)
  {
    hide Clean, Items;
    if cs == [] {
      assert cs + [c] == [c];
      assert ChunkItems(codec, framing, [c]) == Items(codec, framing, c.data, c.spill) + ChunkItems(codec, framing, []);
    } else {
      ChunkItemsAppend(codec, framing, cs[1..], c);
      assert (cs + [c])[1..] == cs[1..] + [c] && (cs + [c])[0] == cs[0];
      Append(Items(codec, framing, cs[0].data, cs[0].spill), ChunkItems(codec, framing, cs[1..]),
             Items(codec, framing, c.data, c.spill));
    }
  }

  /** What an event submits. */
  function Submitted(codec: Codec, framing: Framing, e: Event): seq<Item>
    requires e.Submit? ==> Clean(codec, framing, e.chunk.data)
  {
    if e.Submit? then Items(codec, framing, e.chunk.data, e.chunk.spill) else []
  }

  predicate CleanEvents(codec: Codec, framing: Framing, es: seq<Event>) {
    forall i :: 0 <= i < |es| && es[i].Submit? ==> Clean(codec, framing, es[i].chunk.data)
  }

  /** What a run submits. */
  function AllSubmitted(codec: Codec, framing: Framing, es: seq<Event>): seq<Item>
    requires CleanEvents(codec, framing, es)
  {
    if es == [] then [] else Submitted(codec, framing, es[0]) + AllSubmitted(codec, framing, es[1..])
  }

  lemma SubmitWaits(codec: Codec, framing: Framing, s: Flow, c: Chunk)
    requires CleanFlow(codec, framing, s) && Clean(codec, framing, c.data)
    ensures var t := s.(chunks := s.chunks + [c]);
            && CleanFlow(codec, framing, t)
            && Waiting(codec, framing, t) == Waiting(codec, framing, s) + Items(codec, framing, c.data, c.spill)
  {
    hide Clean, Items, ChunkItems, CleanChunks;
    ChunkItemsAppend(codec, framing, s.chunks, c);
    Append(if s.cur.Some? then Items(codec, framing, s.cur.value.rest, s.cur.value.spill) else [],
           ChunkItems(codec, framing, s.chunks), Items(codec, framing, c.data, c.spill));
  }

  lemma ClaimWaits(codec: Codec, framing: Framing, out: seq<Pic>, s: Flow)
    requires CleanFlow(codec, framing, s) && s.pic.None?
    ensures var t := Claim(s);
            && CleanFlow(codec, framing, t) && Waiting(codec, framing, t) == Waiting(codec, framing, s)
            && GroupsOf(out, t) == GroupsOf(out, s)
  {
    hide PicUnits;
  }

  /** The stream ends for the detector: all it is given is consumed, and the end is announced. */
  predicate Ends(s: Flow, e: Event) {
    e.Pass? && EndsStream(s)
  }

  /** Neither the decoder's cursor nor the end-of-stream mark is part of the account. */
  lemma CursorWaits(codec: Codec, framing: Framing, out: seq<Pic>, s: Flow, taken: nat, eos: bool)
    requires CleanFlow(codec, framing, s)
    ensures var t := s.(taken := taken, eos := eos);
            && CleanFlow(codec, framing, t) && Waiting(codec, framing, t) == Waiting(codec, framing, s)
            && GroupsOf(out, t) == GroupsOf(out, s)
  {
    hide Clean, Items, ChunkItems, CleanChunks, PicUnits, StoredIn;
  }

  lemma FlushMoves(codec: Codec, framing: Framing, out: seq<Pic>, s: Flow)
    requires Invariant(codec, s) && CleanFlow(codec, framing, s) && s.taken > 0
    ensures s.pics != []
    ensures var t := s.(pics := s.pics[1..], taken := s.taken - 1);
            && CleanFlow(codec, framing, t) && Waiting(codec, framing, t) == Waiting(codec, framing, s)
            && GroupsOf(out + [s.pics[0]], t) == GroupsOf(out, s)
  {
    assert s.pics != [];
    hide Invariant, Clean, Items, ChunkItems, CleanChunks, PicUnits, StoredIn;
    assert out + [s.pics[0]] + s.pics[1..] == out + s.pics;
  }

  lemma SubmitGroups(out: seq<Pic>, s: Flow, c: Chunk)
    ensures GroupsOf(out, s.(chunks := s.chunks + [c])) == GroupsOf(out, s)
  {
  }

  /** A write changes nothing about how the units that wait are met. */
  predicate Steady(codec: Codec, framing: Framing, s: Flow, e: Event)
    requires CleanFlow(codec, framing, s) && Allowed(codec, framing, s, e)
  {
    e.Write? ==>
      (WriteWaits(codec, framing, s, e.spills);
       Waiting(codec, framing, Written(s, e.spills)) == Waiting(codec, framing, s))
  }

  lemma WriteGroups(out: seq<Pic>, s: Flow, w: Spills)
    requires |w.chunks| == |s.chunks|
    ensures GroupsOf(out, Written(s, w)) == GroupsOf(out, s)
  {
  }

  lemma ApplyMoves(codec: Codec, framing: Framing, r: Trace, e: Event)
    requires Accounted(codec, r) && CleanFlow(codec, framing, r.now)
    requires Allowed(codec, framing, r.now, e) && Fair(codec, framing, r.now, e) && Steady(codec, framing, r.now, e)
    ensures var r' := Apply(codec, framing, r, e);
            && CleanFlow(codec, framing, r'.now)
            && Moved(GroupsOf(r.out, r.now), Waiting(codec, framing, r.now) + Submitted(codec, framing, e),
                     GroupsOf(r'.out, r'.now), Waiting(codec, framing, r'.now), Ends(r.now, e))
  {
    var s := r.now;
    assert Invariant(codec, s);
    hide Accounted, Invariant, Clean, Items, Waiting, GroupsOf, CleanFlow, Step, Claim, Close, Feed;
    var none: seq<Item> := [];
    assert Waiting(codec, framing, s) + none == Waiting(codec, framing, s);
    match e
    case Write(w) =>
      WriteWaits(codec, framing, s, w);
      WriteGroups(r.out, s, w);
    case Submit(c) =>
      SubmitWaits(codec, framing, s, c);
      SubmitGroups(r.out, s, c);
    case Pass =>
      if s.pic.Some? {
        StepMoves(codec, framing, r.out, s);
      } else {
        ClaimWaits(codec, framing, r.out, s);
      }
    case FlushPic => FlushMoves(codec, framing, r.out, s);
    case SetEos(b) => CursorWaits(codec, framing, r.out, s, s.taken, b);
    case TakePic => CursorWaits(codec, framing, r.out, s, s.taken + 1, s.eos);
    case GiveBackPic => CursorWaits(codec, framing, r.out, s, s.taken - 1, s.eos);
  }

  lemma ApplyKeepsClean(codec: Codec, framing: Framing, r: Trace, e: Event)
    requires Accounted(codec, r) && CleanFlow(codec, framing, r.now)
    requires Allowed(codec, framing, r.now, e) && Fair(codec, framing, r.now, e)
    ensures CleanFlow(codec, framing, Apply(codec, framing, r, e).now)
  {
    hide Invariant, PicsWellFormed, CleanFlow, Waiting, GroupsOf, Step, Claim, Moved, Stranded, AllBytes;
    if e.Write? {
      WriteWaits(codec, framing, r.now, e.spills);
    } else {
      ApplyMoves(codec, framing, r, e);
    }
  }

  /** A legal run on clean chunks in which no picture overflows. */
  ghost predicate FairRun(codec: Codec, framing: Framing, r: Trace, es: seq<Event>, r': Trace)
    requires Accounted(codec, r) && CleanFlow(codec, framing, r.now)
    decreases |es|
  {
    if es == [] then r' == r
    else Allowed(codec, framing, r.now, es[0]) && Fair(codec, framing, r.now, es[0]) &&
         (ApplyKeeps(codec, framing, r, es[0]); ApplyKeepsClean(codec, framing, r, es[0]);
          FairRun(codec, framing, Apply(codec, framing, r, es[0]), es[1..], r'))
  }

  /** Units flushed, stored and waiting. */
  function HeldBy(codec: Codec, framing: Framing, r: Trace): seq<seq<byte>>
    requires CleanFlow(codec, framing, r.now)
  {
    Held(codec, framing, r.out, r.now)
  }

  lemma ApplyKeepsUnits(codec: Codec, framing: Framing, r: Trace, e: Event)
    requires Accounted(codec, r) && CleanFlow(codec, framing, r.now)
    requires Allowed(codec, framing, r.now, e) && Fair(codec, framing, r.now, e)
    ensures var r' := Apply(codec, framing, r, e);
            && CleanFlow(codec, framing, r'.now)
            && HeldBy(codec, framing, r') == HeldBy(codec, framing, r) + UnitsIn(Submitted(codec, framing, e))
  {
    if e.Write? {
      var none: seq<seq<byte>> := [];
      WriteWaits(codec, framing, r.now, e.spills);
      WriteGroups(r.out, r.now, e.spills);
      assert HeldBy(codec, framing, r) + none == HeldBy(codec, framing, r);
      return;
    }
    hide Invariant, PicsWellFormed, CleanFlow, Waiting, GroupsOf, AllUnits, Submitted, Apply, Moved;
    ApplyMoves(codec, framing, r, e);
    var g, xs, fed := GroupsOf(r.out, r.now), Waiting(codec, framing, r.now), Submitted(codec, framing, e);
    var r' := Apply(codec, framing, r, e);
    MovedKeeps(g, xs + fed, GroupsOf(r'.out, r'.now), Waiting(codec, framing, r'.now), Ends(r.now, e));
    UnitsInAppend(xs, fed);
    Append(AllUnits(g), UnitsIn(xs), UnitsIn(fed));
  }

  /**
   Whatever the interleaving, and wherever the stream is declared ended, the units in flushed pictures, in
   queued pictures, in the picture being built and in the chunks are the units submitted, in order.
   */
  lemma {:induction false} RunsKeepUnits(codec: Codec, framing: Framing, r: Trace, es: seq<Event>, r': Trace)
    requires Accounted(codec, r) && CleanFlow(codec, framing, r.now) && FairRun(codec, framing, r, es, r')
    ensures CleanFlow(codec, framing, r'.now) && CleanEvents(codec, framing, es)
    ensures HeldBy(codec, framing, r') == HeldBy(codec, framing, r) + UnitsIn(AllSubmitted(codec, framing, es))
    decreases |es|
  {
    hide Invariant, PicsWellFormed, CleanFlow, HeldBy, Submitted, Apply;
    if es != [] {
      var next := Apply(codec, framing, r, es[0]);
      ApplyKeeps(codec, framing, r, es[0]);
      ApplyKeepsUnits(codec, framing, r, es[0]);
      RunsKeepUnits(codec, framing, next, es[1..], r');
      CleanEventsCons(codec, framing, es);
      UnitsInAppend(Submitted(codec, framing, es[0]), AllSubmitted(codec, framing, es[1..]));
      Append(HeldBy(codec, framing, r), UnitsIn(Submitted(codec, framing, es[0])),
             UnitsIn(AllSubmitted(codec, framing, es[1..])));
    }
  }

  lemma CleanEventsCons(codec: Codec, framing: Framing, es: seq<Event>)
    requires es != [] && CleanEvents(codec, framing, es[1..])
    requires es[0].Submit? ==> Clean(codec, framing, es[0].chunk.data)
    ensures CleanEvents(codec, framing, es)
  {
    forall i | 0 <= i < |es| && es[i].Submit? ensures Clean(codec, framing, es[i].chunk.data) {
      if i > 0 {
        assert es[i] == es[1..][i - 1];
      }
    }
  }

  // ----- how the pictures group the units

  /** The groups a run has with the units that wait fed to them. */
  predicate Balanced(codec: Codec, framing: Framing, r: Trace, g: Groups)
    requires CleanFlow(codec, framing, r.now)
  {
    FeedAll(GroupsOf(r.out, r.now), Waiting(codec, framing, r.now)) == g
  }

  /**
   The groups to expect after an event. An end of the stream seen while units wait ends the picture early;
   unless the next of them opens a picture, the grouping is then no longer that of the units (None). Nor is it
   if a write turns a unit that waits into a first slice, or back.
   */
  function Expect(codec: Codec, framing: Framing, s: Flow, g: Groups, e: Event): Option<Groups>
    requires CleanFlow(codec, framing, s) && Allowed(codec, framing, s, e) && Fair(codec, framing, s, e)
  {
    if Ends(s, e) then
      var w := Waiting(codec, framing, s);
      if w == [] then Some(Close(g)) else if w[0].Opens() then Some(g) else None
    else if !Steady(codec, framing, s, e) then None
    else Some(FeedAll(g, Submitted(codec, framing, e)))
  }

  lemma WriteIsSteady(codec: Codec, framing: Framing, s: Flow, e: Event)
    requires CleanFlow(codec, framing, s) && Allowed(codec, framing, s, e)
    ensures !e.Write? ==> Steady(codec, framing, s, e)
  {
  }

  lemma ApplyBalances(codec: Codec, framing: Framing, r: Trace, g: Groups, e: Event)
    requires Accounted(codec, r) && CleanFlow(codec, framing, r.now) && Balanced(codec, framing, r, g)
    requires Allowed(codec, framing, r.now, e) && Fair(codec, framing, r.now, e)
    ensures var r' := Apply(codec, framing, r, e); var x := Expect(codec, framing, r.now, g, e);
            && CleanFlow(codec, framing, r'.now)
            && (x.Some? ==> Balanced(codec, framing, r', x.value))
  {
    hide Invariant, PicsWellFormed, CleanFlow, Waiting, GroupsOf, Apply, Moved, Close, Feed, Items, Steady;
    ApplyKeepsClean(codec, framing, r, e);
    if !Steady(codec, framing, r.now, e) {
      assert e.Write? by { WriteIsSteady(codec, framing, r.now, e); }
      return;
    }
    ApplyMoves(codec, framing, r, e);
    var h, xs, fed := GroupsOf(r.out, r.now), Waiting(codec, framing, r.now), Submitted(codec, framing, e);
    var r' := Apply(codec, framing, r, e);
    MovedFeeds(h, xs + fed, GroupsOf(r'.out, r'.now), Waiting(codec, framing, r'.now), Ends(r.now, e));
    FeedAllAppend(h, xs, fed);
    if Ends(r.now, e) {
      assert xs + fed == xs;
      FoundIs(r.out, r.now);
      if xs != [] {
        EarlyEndExactly(h, xs);
      }
    }
  }

  function ExpectAll(codec: Codec, framing: Framing, r: Trace, g: Groups, es: seq<Event>, r': Trace): Option<Groups>
    requires Accounted(codec, r) && CleanFlow(codec, framing, r.now) && FairRun(codec, framing, r, es, r')
    decreases |es|
  {
    if es == [] then Some(g)
    else
      var x := Expect(codec, framing, r.now, g, es[0]);
      ApplyKeeps(codec, framing, r, es[0]);
      ApplyKeepsClean(codec, framing, r, es[0]);
      if x.None? then None else ExpectAll(codec, framing, Apply(codec, framing, r, es[0]), x.value, es[1..], r')
  }

  /** Over any run the pictures hold the units in the groups to expect. */
  lemma {:induction false} RunsGroupUnits(codec: Codec, framing: Framing, r: Trace, g: Groups, es: seq<Event>,
                                          r': Trace)
    requires Accounted(codec, r) && CleanFlow(codec, framing, r.now) && FairRun(codec, framing, r, es, r')
    requires Balanced(codec, framing, r, g)
    ensures CleanFlow(codec, framing, r'.now)
    ensures var x := ExpectAll(codec, framing, r, g, es, r'); x.Some? ==> Balanced(codec, framing, r', x.value)
    decreases |es|
  {
    hide Invariant, PicsWellFormed, Balanced, Expect, Apply;
    RunsKeepUnits(codec, framing, r, es, r');
    if es != [] {
      var x := Expect(codec, framing, r.now, g, es[0]);
      ApplyKeeps(codec, framing, r, es[0]);
      ApplyBalances(codec, framing, r, g, es[0]);
      if x.Some? {
        RunsGroupUnits(codec, framing, Apply(codec, framing, r, es[0]), x.value, es[1..], r');
      }
    }
  }

  /** Every chunk submitted ends in a unit that says itself whether it opens a picture. */
  predicate SaidEvents(codec: Codec, framing: Framing, es: seq<Event>)
    requires CleanEvents(codec, framing, es)
  {
    forall i :: 0 <= i < |es| && es[i].Submit? ==> EndsSaid(codec, framing, es[i].chunk.data)
  }

  /** Then no write has a say in how units are met. */
  lemma ApplyKeepsSaid(codec: Codec, framing: Framing, r: Trace, e: Event)
    requires Accounted(codec, r) && SaidFlow(codec, framing, r.now)
    requires Allowed(codec, framing, r.now, e) && Fair(codec, framing, r.now, e)
    requires e.Submit? ==> EndsSaid(codec, framing, e.chunk.data)
    ensures SaidFlow(codec, framing, Apply(codec, framing, r, e).now) && Steady(codec, framing, r.now, e)
  {
    hide Invariant, PicsWellFormed, Clean, EndsSaid, Waiting, Step, Stranded, AllBytes, HasRoom;
    match e
    case Write(w) => WriteWaits(codec, framing, r.now, w);
    case Pass =>
      if r.now.pic.Some? {
        StepKeepsSaid(codec, framing, r.now);
      }
    case _ =>
  }

  predicate NeverEos(es: seq<Event>) {
    forall i :: 0 <= i < |es| && es[i].SetEos? ==> !es[i].eos
  }

  lemma ApplyEos(codec: Codec, framing: Framing, r: Trace, e: Event)
    requires Invariant(codec, r.now) && Allowed(codec, framing, r.now, e) && !r.now.eos && (e.SetEos? ==> !e.eos)
    ensures !Apply(codec, framing, r, e).now.eos
  {
    hide Step;
  }

  /** Before the end of the stream is announced, those are the units submitted, cut before each that opens a picture. */
  lemma {:induction false} ExpectFed(codec: Codec, framing: Framing, r: Trace, g: Groups, es: seq<Event>, r': Trace)
    requires Accounted(codec, r) && CleanFlow(codec, framing, r.now) && FairRun(codec, framing, r, es, r')
    requires !r.now.eos && NeverEos(es)
    requires SaidFlow(codec, framing, r.now) && CleanEvents(codec, framing, es) && SaidEvents(codec, framing, es)
    ensures !r'.now.eos
    ensures ExpectAll(codec, framing, r, g, es, r') == Some(FeedAll(g, AllSubmitted(codec, framing, es)))
    decreases |es|
  {
    hide Invariant, PicsWellFormed, CleanFlow, SaidFlow, Apply, Submitted, EndsSaid, Steady;
    if es != [] {
      var next := Apply(codec, framing, r, es[0]);
      ApplyKeeps(codec, framing, r, es[0]);
      ApplyKeepsClean(codec, framing, r, es[0]);
      ApplyKeepsSaid(codec, framing, r, es[0]);
      ApplyEos(codec, framing, r, es[0]);
      assert NeverEos(es[1..]);
      var x := Expect(codec, framing, r.now, g, es[0]).value;
      ExpectFed(codec, framing, next, x, es[1..], r');
      FeedAllAppend(g, Submitted(codec, framing, es[0]), AllSubmitted(codec, framing, es[1..]));
    }
  }

  // ----- a slice too short to hold its header

  /** An H.265 slice of two bytes, alone in a chunk; the byte behind makes it a first slice, for now. */
  const SHORT_SLICE := Chunk([0, 0, 1, 2, 1], HIGH_SPILL, -1)

  lemma ShortSliceIsCut()
    ensures CutUnit(Hevc, StartCode, SHORT_SLICE.data, NO_SPILL) == Cut(3, 2) && SHORT_SLICE.data[3..5] == [2, 1]
    ensures Clean(Hevc, StartCode, SHORT_SLICE.data)
  {
    var d := SHORT_SLICE.data;
    assert StartCodeAt(d, 0);
    FirstStartCodeIs(d, 0);
    assert d[3..] == [2, 1] && d[5..] == [];
  }

  lemma ShortSliceItems(spill: Spill)
    requires Clean(Hevc, StartCode, SHORT_SLICE.data)
    ensures Items(Hevc, StartCode, SHORT_SLICE.data, spill) == [Item([2, 1], false, spill[0] >= 128)]
  {
    ShortSliceIsCut();
    ItemsFront(Hevc, StartCode, SHORT_SLICE.data, spill);
    assert SHORT_SLICE.data[5..] == [] && (SHORT_SLICE.data + spill)[5] == spill[0];
    hide CutUnit;
  }

  /** The slice ends the picture in front of it. */
  lemma ShortSliceEnds(s: Flow)
    requires s.pic.Some? && s.found && s.cur.None? && s.chunks == [SHORT_SLICE] && HasRoom(s)
    ensures var u := s.(chunks := [], cur := Some(Cur(SHORT_SLICE.data, HIGH_SPILL, -1, true)));
            Step(Hevc, StartCode, s) == Done(Emit(u))
  {
    ShortSliceIsCut();
    SpillIsIdle(Hevc, StartCode, SHORT_SLICE.data, HIGH_SPILL, NO_SPILL);
    hide CutUnit;
  }

  lemma ShortSliceHeader(c: Cur)
    requires c.rest == SHORT_SLICE.data && c.spill == NO_SPILL
    ensures CutOf(Hevc, StartCode, c) == Cut(3, 2) && HeaderType(Hevc, c, 3) == 1
    ensures !HeaderFirst(Hevc, c, 3) && !HeaderOpens(Hevc, c, 3)
  {
    ShortSliceIsCut();
    assert (c.rest + c.spill)[3] == 2 && (c.rest + c.spill)[5] == 0;
    hide CutUnit;
  }

  lemma ShortSliceStored(s: Flow, t: Flow)
    requires s.pic == Some(Pic([], [], true, -1)) && s.cur == Some(Cur(SHORT_SLICE.data, NO_SPILL, -1, true))
    requires t == Store(s, 3, 2, 1)
    ensures t.pic == Some(Pic(SHORT_SLICE.data, [Nalu(1, 3, 2)], true, -1))
    ensures t.cur == Some(Cur([], NO_SPILL, -1, false))
  {
    var d := SHORT_SLICE.data;
    assert t.pic.value.bytes == d && t.cur.value.rest == [] && t.pic.value.nalus == [Nalu(1, 3, 2)];
  }

  /** And after the write it is stored as no first slice. */
  lemma ShortSliceStays(s: Flow)
    requires s.pic == Some(Pic([], [], true, -1)) && !s.found
    requires s.cur == Some(Cur(SHORT_SLICE.data, NO_SPILL, -1, true))
    ensures Step(Hevc, StartCode, s) == More(Store(s, 3, 2, 1))
  {
    ShortSliceHeader(s.cur.value);
    hide CutOf, HeaderType, HeaderFirst, HeaderOpens, Store;
    LookIs(Hevc, StartCode, s);
    assert s.(found := false) == s;
    hide Look;
    assert Step(Hevc, StartCode, s) == Look(Hevc, StartCode, s);
  }

  /**
   A picture with a first slice is being built and the slice waits behind it. A pass takes it for a first slice
   and ends the picture; the feeder writes a zero behind it; the next pass stores it as no first slice. The
   groups are then those of the units that wait for no byte behind the chunk at all.
   */
  lemma ShortSliceIsMetTwice(out: seq<Pic>, s: Flow) returns (v: Flow)
    requires Invariant(Hevc, s) && s.pic.Some? && s.found && s.cur.None? && s.chunks == [SHORT_SLICE] && HasRoom(s)
    requires |s.pics| + 1 < MAX_FRAME_PIC_NUM
    ensures Step(Hevc, StartCode, s).Done? && v == Written(Claim(Step(Hevc, StartCode, s).s), Spills(NO_SPILL, []))
    ensures v.pic.Some? && Step(Hevc, StartCode, v).More? && CleanFlow(Hevc, StartCode, Step(Hevc, StartCode, v).s)
    ensures Clean(Hevc, StartCode, SHORT_SLICE.data)
    ensures var w := Step(Hevc, StartCode, v).s; forall spill ::
              FeedAll(GroupsOf(out, w), Waiting(Hevc, StartCode, w)) !=
              FeedAll(GroupsOf(out, s), Items(Hevc, StartCode, SHORT_SLICE.data, spill))
  {
    ShortSliceIsCut();
    ShortSliceEnds(s);
    var u := s.(chunks := [], cur := Some(Cur(SHORT_SLICE.data, HIGH_SPILL, -1, true)));
    v := Written(Claim(Emit(u)), Spills(NO_SPILL, []));
    ShortSliceStays(v);
    var w := Step(Hevc, StartCode, v).s;
    ShortSliceStored(v, w);
    EmitCloses(out, u);
    var g, h := GroupsOf(out, s), GroupsOf(out, w);
    hide Step, CutUnit, Clean, Items;
    assert h.closed == g.closed + [g.open] && !h.found by {
      hide StoredIn;
      assert PicUnits(out + w.pics) == Close(g).closed;
    }
    assert w.pic.value.bytes[3..5] == [2, 1];
    assert h.open == [[2, 1]];
    NothingLeft(Hevc, StartCode, [], NO_SPILL);
    assert Waiting(Hevc, StartCode, w) == [];
    forall spill ensures FeedAll(h, []) != FeedAll(g, Items(Hevc, StartCode, SHORT_SLICE.data, spill)) {
      ShortSliceItems(spill);
      var x := Item([2, 1], false, spill[0] >= 128);
      assert FeedAll(g, [x]) == Feed(g, x);
      assert x.first || |Feed(g, x).closed| == |g.closed|;
    }
  }

  // ----- no picture overflows

  /** Cut at the units that open a picture, no list is too long for a detector. */
  predicate Fits(g: Groups, xs: seq<Item>)
    decreases |xs|
  {
    xs == [] || (|g.open| <= MAX_NALU_NUM_IN_FRAME && Fits(Feed(g, xs[0]), xs[1..]))
  }

  lemma FitsMoved(g: Groups, xs: seq<Item>, g': Groups, xs': seq<Item>, ended: bool, more: seq<Item>)
    requires Moved(g, xs, g', xs', ended) && Fits(g, xs + more)
    requires ended ==> (xs != [] && xs[0].Opens()) || (xs == [] && more == [])
    ensures Fits(g', xs' + more)
  {
    if xs != [] {
      assert (xs + more)[1..] == xs[1..] + more;
    }
  }

  /** The detector's own guard then never fires. */
  lemma FitsHasRoom(codec: Codec, framing: Framing, out: seq<Pic>, s: Flow, more: seq<Item>)
    requires Invariant(codec, s) && CleanFlow(codec, framing, s) && s.pic.Some?
    requires Fits(GroupsOf(out, s), Waiting(codec, framing, s) + more)
    ensures HasRoom(s)
  {
    hide Invariant, Items, Clean;
    if LookedAt(s).Some? {
      LookedAtWaits(codec, framing, s);
    }
  }

  lemma LookedAtWaits(codec: Codec, framing: Framing, s: Flow)
    requires CleanFlow(codec, framing, s) && LookedAt(s).Some?
    ensures Waiting(codec, framing, s) != []
  {
    if s.cur.Some? && |s.cur.value.rest| >= 5 {
      var x, tail := Front(codec, framing, s.cur.value.rest, s.cur.value.spill);
    } else {
      var c := s.chunks[0];
      assert Clean(codec, framing, c.data);
      var x, tail := Front(codec, framing, c.data, c.spill);
      hide Clean, Items;
    }
  }

  /** So a legal run on clean chunks that fit is fair, and what waits at its end fits. */
  lemma {:induction false} FittingRunIsFair(codec: Codec, framing: Framing, r: Trace, es: seq<Event>, r': Trace)
    requires Accounted(codec, r) && Run(codec, framing, r, es, r') && CleanFlow(codec, framing, r.now)
    requires !r.now.eos && NeverEos(es) && CleanEvents(codec, framing, es)
    requires SaidFlow(codec, framing, r.now) && SaidEvents(codec, framing, es)
    requires Fits(GroupsOf(r.out, r.now), Waiting(codec, framing, r.now) + AllSubmitted(codec, framing, es))
    ensures FairRun(codec, framing, r, es, r') && CleanFlow(codec, framing, r'.now)
    ensures Fits(GroupsOf(r'.out, r'.now), Waiting(codec, framing, r'.now))
    decreases |es|
  {
    hide Invariant, PicsWellFormed, CleanFlow, SaidFlow, Apply, Fits, Moved, GroupsOf, Waiting, HasRoom, EndsSaid;
    hide Steady;
    if es == [] {
      assert Waiting(codec, framing, r.now) + [] == Waiting(codec, framing, r.now);
    } else {
      var e := es[0];
      var g, w, more := GroupsOf(r.out, r.now), Waiting(codec, framing, r.now), AllSubmitted(codec, framing, es[1..]);
      if e.Pass? && r.now.pic.Some? {
        FitsHasRoom(codec, framing, r.out, r.now, AllSubmitted(codec, framing, es));
      }
      var next := Apply(codec, framing, r, e);
      ApplyKeeps(codec, framing, r, e);
      ApplyKeepsSaid(codec, framing, r, e);
      ApplyMoves(codec, framing, r, e);
      ApplyEos(codec, framing, r, e);
      Append(w, Submitted(codec, framing, e), more);
      FitsMoved(g, w + Submitted(codec, framing, e), GroupsOf(next.out, next.now), Waiting(codec, framing, next.now),
                false, more);
      FittingRunIsFair(codec, framing, next, es[1..], r');
    }
  }
}
