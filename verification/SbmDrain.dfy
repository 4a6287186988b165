/**
 The end of a stream: each call of a detector makes progress, so the pipeline drains; and what comes out over a
 whole run and the draining after it is what went in.
 */
module SbmDrain {
  import opened Common
  import opened NalUnits
  import opened SbmFlow
  import opened SbmUnits
  import opened SbmRuns
  import opened SbmRoundTrip

  // ----- every call makes progress

  function Work(s: Flow): nat {
    2 * ((if s.cur.Some? then 1 + |s.cur.value.rest| else 0) + |s.chunks| + |ChunkBytes(s.chunks)|)
    + if s.found then 1 else 0
  }

  lemma SupplyProgress(s: Flow)
    requires s.pic.Some?
    ensures Work(Supply(s).s) <= Work(s)
    ensures Supply(s).Starved? ==> Work(Supply(s).s) < Work(s) || (Supply(s).s == s && s.cur.None? && s.chunks == [])
  {
    if s.chunks != [] {
      assert ChunkBytes(s.chunks) == s.chunks[0].data + ChunkBytes(s.chunks[1..]);
    }
  }

  lemma LookProgress(codec: Codec, framing: Framing, s: Flow)
    requires s.pic.Some? && s.cur.Some? && s.cur.value.rest != [] && !Look(codec, framing, s).Astray?
    ensures Work(Look(codec, framing, s).s) < Work(s)
  {
    hide CutUnit, ChunkBytes, HeaderType, HeaderFirst, HeaderOpens;
  }

  predicate Idle(s: Flow) {
    s.cur.None? && s.chunks == [] && !(s.found && s.eos)
  }

  /** A pass consumes something or completes a picture, unless there is nothing to do. */
  lemma StepProgress(codec: Codec, framing: Framing, s: Flow)
    requires s.pic.Some? && !Step(codec, framing, s).Astray?
    ensures var r := Step(codec, framing, s); Work(r.s) < Work(s) || (r == Done(s) && Idle(s))
  {
    hide Look, ChunkBytes;
    if s.cur.None? || |s.cur.value.rest| < 5 {
      SupplyLooks(s);
      SupplyProgress(s);
      if Supply(s).Fed? {
        LookProgress(codec, framing, Supply(s).s);
      }
    } else {
      LookProgress(codec, framing, s);
    }
  }

  lemma {:induction false} LoopProgress(codec: Codec, framing: Framing, s: Flow)
    requires s.pic.Some? && !Loop(codec, framing, s).Astray?
    ensures Work(Loop(codec, framing, s).s) < Work(s) || Idle(s)
    decreases |s.chunks|, if s.cur.Some? then |s.cur.value.rest| else 0
  {
    hide Step, Work;
    StepProgress(codec, framing, s);
    var r := Step(codec, framing, s);
    if r.More? {
      LoopProgress(codec, framing, r.s);
    }
  }

  /** With a picture slot free, a call of the detector leaves less to do. */
  lemma DetectProgress(codec: Codec, framing: Framing, s: Flow)
    requires |s.pics| < MAX_FRAME_PIC_NUM && s.eos && Work(s) > 0 && !Detect(codec, framing, s).Astray?
    ensures Detect(codec, framing, s).s.eos && Work(Detect(codec, framing, s).s) < Work(s)
  {
    LoopProgress(codec, framing, Claim(s));
  }

  /** The decoder takes the pictures away and the detector is called, until nothing is left to do. */
  function Drain(codec: Codec, framing: Framing, s: Flow): (seq<Pic>, Flow)
    requires Invariant(codec, s) && s.eos
    decreases Work(s)
  {
    var t := s.(pics := [], taken := 0);
    if Work(s) == 0 || Detect(codec, framing, t).Astray? then (s.pics, t)
    else
      DetectProgress(codec, framing, t);
      DetectKeeps(codec, framing, t);
      var (ps, u) := Drain(codec, framing, Detect(codec, framing, t).s);
      (s.pics + ps, u)
  }

  // ----- draining keeps the groups

  /** The groups when all that waits is fed and the last picture is complete. */
  function Whole(codec: Codec, framing: Framing, out: seq<Pic>, s: Flow): Groups
    requires CleanFlow(codec, framing, s)
  {
    Close(FeedAll(GroupsOf(out, s), Waiting(codec, framing, s)))
  }

  predicate NoneEmpty(cs: seq<Chunk>) {
    forall i :: 0 <= i < |cs| ==> cs[i].data != []
  }

  /** No empty chunk is taken for the end of the stream; for H.264 that would do no harm. */
  predicate NoEarlyEnd(codec: Codec, s: Flow) {
    codec.Avc? || NoneEmpty(s.chunks)
  }

  /** Ready to be drained. */
  predicate Drainable(codec: Codec, framing: Framing, out: seq<Pic>, s: Flow) {
    && Invariant(codec, s) && CleanFlow(codec, framing, s) && NoEarlyEnd(codec, s)
    && Fits(GroupsOf(out, s), Waiting(codec, framing, s))
  }

  lemma AvcWaits(framing: Framing, s: Flow)
    requires CleanFlow(Avc, framing, s)
    ensures forall i :: 0 <= i < |Waiting(Avc, framing, s)| ==> Waiting(Avc, framing, s)[i].first
  {
    hide Items, ChunkItems, Clean, CleanChunks;
    AvcWaitingAreFirst(framing, s.chunks);
    if s.cur.Some? {
      AvcItemsAreFirst(framing, s.cur.value.rest, s.cur.value.spill);
    }
  }

  lemma EndsAtTheEnd(codec: Codec, framing: Framing, s: Flow)
    requires CleanFlow(codec, framing, s) && NoEarlyEnd(codec, s) && EndsStream(s)
    ensures Waiting(codec, framing, s) == [] || Waiting(codec, framing, s)[0].Opens()
  {
    hide Items, Clean;
    if codec.Avc? {
      AvcWaits(framing, s);
    } else if s.cur.Some? {
      NothingLeft(codec, framing, s.cur.value.rest, s.cur.value.spill);
    }
  }

  lemma MovedWhole(g: Groups, xs: seq<Item>, g': Groups, xs': seq<Item>, ended: bool)
    requires Moved(g, xs, g', xs', ended) && (ended ==> xs == [] || xs[0].Opens())
    ensures Close(FeedAll(g', xs')) == Close(FeedAll(g, xs))
    ensures Fits(g, xs) ==> Fits(g', xs')
  {
    MovedFeeds(g, xs, g', xs', ended);
    if ended && xs != [] {
      EarlyEndExactly(g, xs);
    }
  }

  lemma StepKeepsWhole(codec: Codec, framing: Framing, out: seq<Pic>, s: Flow)
    requires Drainable(codec, framing, out, s) && s.pic.Some?
    ensures var r := Step(codec, framing, s);
            && !r.Astray? && Drainable(codec, framing, out, r.s)
            && Whole(codec, framing, out, r.s) == Whole(codec, framing, out, s)
  {
    hide Invariant, CleanFlow, GroupsOf, Waiting, Step, Moved, Fits, FeedAll, Close, HasRoom, EndsStream;
    var w := Waiting(codec, framing, s);
    assert w + [] == w;
    FitsHasRoom(codec, framing, out, s, []);
    StepMoves(codec, framing, out, s);
    StepKeepsInvariant(codec, framing, s);
    ChunksLeft(codec, framing, s);
    var t := Step(codec, framing, s).s;
    if EndsStream(s) {
      EndsAtTheEnd(codec, framing, s);
    }
    MovedWhole(GroupsOf(out, s), w, GroupsOf(out, t), Waiting(codec, framing, t), EndsStream(s));
  }

  lemma {:induction false} LoopKeepsWhole(codec: Codec, framing: Framing, out: seq<Pic>, s: Flow)
    requires Drainable(codec, framing, out, s) && s.pic.Some?
    ensures var r := Loop(codec, framing, s);
            && !r.Astray? && Drainable(codec, framing, out, r.s)
            && Whole(codec, framing, out, r.s) == Whole(codec, framing, out, s)
    decreases |s.chunks|, if s.cur.Some? then |s.cur.value.rest| else 0
  {
    hide Invariant, CleanFlow, GroupsOf, Waiting, Step, Fits, FeedAll, Close, NoEarlyEnd, Whole;
    StepKeepsWhole(codec, framing, out, s);
    var r := Step(codec, framing, s);
    if r.More? {
      LoopKeepsWhole(codec, framing, out, r.s);
    }
  }

  lemma DetectKeepsWhole(codec: Codec, framing: Framing, out: seq<Pic>, s: Flow)
    requires Drainable(codec, framing, out, s)
    ensures var r := Detect(codec, framing, s);
            && !r.Astray? && Drainable(codec, framing, out, r.s)
            && Whole(codec, framing, out, r.s) == Whole(codec, framing, out, s)
  {
    var t := Claim(s);
    assert Invariant(codec, t);
    hide Invariant, CleanFlow, GroupsOf, Waiting, Fits, FeedAll, Close, Loop;
    if s.pic.None? {
      ClaimWaits(codec, framing, out, s);
    }
    if t.pic.Some? {
      LoopKeepsWhole(codec, framing, out, t);
    }
  }

  /** The decoder has taken all pictures away. */
  lemma TakeAway(codec: Codec, framing: Framing, out: seq<Pic>, s: Flow)
    requires Drainable(codec, framing, out, s)
    ensures var t := s.(pics := [], taken := 0);
            && Drainable(codec, framing, out + s.pics, t) && Work(t) == Work(s)
            && Whole(codec, framing, out + s.pics, t) == Whole(codec, framing, out, s)
  {
    hide WellFormed, Items, Clean, ChunkItems, CleanChunks, Fits, FeedAll, Close, PicUnits, StoredIn;
    var t := s.(pics := [], taken := 0);
    assert out + s.pics + [] == out + s.pics;
    assert GroupsOf(out + s.pics, t) == GroupsOf(out, s);
    assert Waiting(codec, framing, t) == Waiting(codec, framing, s);
  }

  lemma AllDone(codec: Codec, framing: Framing, out: seq<Pic>, s: Flow)
    requires CleanFlow(codec, framing, s) && Work(s) == 0
    ensures Whole(codec, framing, out, s) == GroupsOf(out, s) && s.cur.None? && s.chunks == [] && !s.found
  {
  }

  /**
   Draining hands over every unit, in well-formed pictures grouped as the units themselves say; what stays
   behind is the tail after the last picture, which has no first slice in it.
   */
  lemma {:induction false} DrainReturnsAll(codec: Codec, framing: Framing, out: seq<Pic>, s: Flow)
    requires Drainable(codec, framing, out, s) && s.eos
    ensures var (ps, u) := Drain(codec, framing, s);
            && GroupsOf(out + ps, u) == Whole(codec, framing, out, s)
            && PicsWellFormed(codec, ps) && Invariant(codec, u)
            && u.pics == [] && u.cur.None? && u.chunks == [] && !u.found
    decreases Work(s)
  {
    var t := s.(pics := [], taken := 0);
    TakeAway(codec, framing, out, s);
    assert PicsWellFormed(codec, s.pics) && Invariant(codec, t);
    hide Invariant, CleanFlow, GroupsOf, Waiting, Fits, FeedAll, Close, Detect, NoEarlyEnd, Work, Whole, WellFormed;
    if Work(s) == 0 {
      AllDone(codec, framing, out + s.pics, t);
    } else {
      DetectKeepsWhole(codec, framing, out + s.pics, t);
      DetectProgress(codec, framing, t);
      var d := Detect(codec, framing, t).s;
      DrainReturnsAll(codec, framing, out + s.pics, d);
      var (ps, u) := Drain(codec, framing, d);
      Append(out, s.pics, ps);
    }
  }

  // ----- the round trip

  /** The events submit the unit lists, packed one list to a chunk. */
  predicate Packs(codec: Codec, framing: Framing, es: seq<Event>, nals: seq<seq<Nal>>)
    decreases |es|
  {
    if es == [] then nals == []
    else if es[0].Submit? then
      && nals != [] && AllPackable(codec, framing, nals[0]) && EndsLong(framing, nals[0])
      && es[0].chunk.data == Pack(codec, framing, nals[0]) && Packs(codec, framing, es[1..], nals[1..])
    else Packs(codec, framing, es[1..], nals)
  }

  function ReceivedAll(nals: seq<seq<Nal>>): seq<seq<byte>> {
    if nals == [] then [] else Received(nals[0]) + ReceivedAll(nals[1..])
  }

  /** Packed lists are clean, and their units are what the run submits. */
  lemma {:induction false} PacksAreClean(codec: Codec, framing: Framing, es: seq<Event>, nals: seq<seq<Nal>>)
    requires Packs(codec, framing, es, nals)
    ensures CleanEvents(codec, framing, es) && UnitsIn(AllSubmitted(codec, framing, es)) == ReceivedAll(nals)
    decreases |es|
  {
    hide Clean, Items, Pack, Received, AllPackable, EndsLong;
    if es != [] {
      if es[0].Submit? {
        UnpackPack(codec, framing, nals[0]);
        PacksAreClean(codec, framing, es[1..], nals[1..]);
        ItemsAreUnits(codec, framing, es[0].chunk.data, es[0].chunk.spill);
      } else {
        PacksAreClean(codec, framing, es[1..], nals);
      }
      CleanEventsCons(codec, framing, es);
      UnitsInAppend(Submitted(codec, framing, es[0]), AllSubmitted(codec, framing, es[1..]));
    }
  }

  /** The last unit of each list says itself whether it opens a picture; for H.264 each one does. */
  predicate LastsSay(codec: Codec, nals: seq<seq<Nal>>) {
    forall i :: 0 <= i < |nals| && nals[i] != [] ==> codec.Avc? || SaysItself(codec, nals[i][|nals[i]| - 1].unit)
  }

  lemma {:induction false} ReceivedLast(us: seq<Nal>)
    requires us != []
    ensures Received(us)[|us| - 1] == us[|us| - 1].unit
  {
    ReceivedHead(us);
    if |us| == 1 {
      assert us[0].unit + Zeros(0) == us[0].unit;
    } else {
      ReceivedLast(us[1..]);
      assert Received(us)[|us| - 1] == Received(us)[1..][|us| - 2];
    }
  }

  lemma {:induction false} PacksAreSaid(codec: Codec, framing: Framing, es: seq<Event>, nals: seq<seq<Nal>>)
    requires Packs(codec, framing, es, nals) && LastsSay(codec, nals) && CleanEvents(codec, framing, es)
    ensures SaidEvents(codec, framing, es)
    decreases |es|
  {
    hide Clean, Pack, Received, AllPackable, EndsLong, SaysItself, Units;
    if es != [] {
      var later := if es[0].Submit? then nals[1..] else nals;
      assert LastsSay(codec, later);
      assert CleanEvents(codec, framing, es[1..]);
      PacksAreSaid(codec, framing, es[1..], later);
      if es[0].Submit? {
        UnpackPack(codec, framing, nals[0]);
        if nals[0] != [] {
          ReceivedLast(nals[0]);
        }
        assert EndsSaid(codec, framing, es[0].chunk.data);
      }
      hide EndsSaid;
      forall i | 0 <= i < |es| && es[i].Submit? ensures EndsSaid(codec, framing, es[i].chunk.data) {
        if i > 0 {
          assert es[i] == es[1..][i - 1];
        }
      }
    }
  }

  /** The units packed. */
  function Packed(nals: seq<seq<Nal>>): seq<seq<byte>> {
    if nals == [] then [] else UnitsOf(nals[0]) + Packed(nals[1..])
  }

  predicate NoZeroEnds(nals: seq<seq<Nal>>) {
    forall i, j :: 0 <= i < |nals| && 0 <= j < |nals[i]| ==> NoZeroEnd(nals[i][j].unit)
  }

  /** No zero byte stands between two units of a chunk. */
  predicate NoZerosBetween(nals: seq<seq<Nal>>) {
    forall i, j :: 0 <= i < |nals| && 1 <= j < |nals[i]| ==> nals[i][j].zeros == 0
  }

  lemma {:induction false} StripAppend(a: seq<seq<byte>>, b: seq<seq<byte>>)
    ensures StripAll(a + b) == StripAll(a) + StripAll(b)
  {
    if a == [] {
      assert a + b == b;
    } else {
      StripAppend(a[1..], b);
      assert (a + b)[1..] == a[1..] + b;
    }
  }

  /** Without their trailing zero bytes the units received are the units packed. */
  lemma {:induction false} AllStripped(nals: seq<seq<Nal>>)
    requires NoZeroEnds(nals)
    ensures StripAll(ReceivedAll(nals)) == Packed(nals)
  {
    hide StripZeros, Received, UnitsOf;
    if nals != [] {
      forall i, j | 0 <= i < |nals[1..]| && 0 <= j < |nals[1..][i]| ensures NoZeroEnd(nals[1..][i][j].unit) {
        assert nals[1..][i] == nals[i + 1];
      }
      AllStripped(nals[1..]);
      StrippedAsPacked(nals[0]);
      StripAppend(Received(nals[0]), ReceivedAll(nals[1..]));
    }
  }

  /** With them, exactly if no zero byte stands between two units of a chunk. */
  lemma {:induction false} AllReceivedAsPacked(nals: seq<seq<Nal>>)
    ensures |ReceivedAll(nals)| == |Packed(nals)|
    ensures ReceivedAll(nals) == Packed(nals) <==> NoZerosBetween(nals)
  {
    hide Received, UnitsOf;
    if nals != [] {
      var a, b, c, d := Received(nals[0]), UnitsOf(nals[0]), ReceivedAll(nals[1..]), Packed(nals[1..]);
      AllReceivedAsPacked(nals[1..]);
      ReceivedAsPacked(nals[0]);
      assert a + c == b + d ==> a == (a + c)[..|a|] == b && c == (a + c)[|a|..] == d;
      assert NoZerosBetween(nals) <==>
             NoZerosBetween(nals[1..]) && forall j :: 1 <= j < |nals[0]| ==> nals[0][j].zeros == 0 by {
        assert forall i :: 0 <= i < |nals[1..]| ==> nals[1..][i] == nals[i + 1];
      }
    }
  }

  lemma StartIs(codec: Codec, framing: Framing)
    ensures Accounted(codec, START) && CleanFlow(codec, framing, START.now)
    ensures GroupsOf(START.out, START.now) == NO_GROUPS && Waiting(codec, framing, START.now) == []
    ensures HeldBy(codec, framing, START) == [] && SaidFlow(codec, framing, START.now)
  {
    assert PicUnits([]) == [];
  }

  /** What a run and the draining after it hand over. */
  function HandedOver(codec: Codec, framing: Framing, r: Trace): Groups
    requires Invariant(codec, r.now)
  {
    EosKeeps(codec, r.now);
    var (ps, u) := Drain(codec, framing, r.now.(eos := true));
    GroupsOf(r.out + ps, u)
  }

  lemma EosKeeps(codec: Codec, s: Flow)
    requires Invariant(codec, s)
    ensures Invariant(codec, s.(eos := true))
  {
  }

  lemma HandedOverIs(codec: Codec, framing: Framing, r: Trace)
    requires Drainable(codec, framing, r.out, r.now)
    ensures HandedOver(codec, framing, r) == Whole(codec, framing, r.out, r.now)
  {
    hide Invariant, CleanFlow, GroupsOf, Waiting, Fits, Drain, FeedAll, Close;
    CursorWaits(codec, framing, r.out, r.now, r.now.taken, true);
    EosKeeps(codec, r.now);
    DrainReturnsAll(codec, framing, r.out, r.now.(eos := true));
  }

  /** A run before the end of the stream leaves what can be drained, and the groups are those of what it submits. */
  lemma RunIsDrainable(codec: Codec, framing: Framing, r: Trace, g: Groups, es: seq<Event>, r': Trace)
    requires Accounted(codec, r) && CleanFlow(codec, framing, r.now) && Balanced(codec, framing, r, g) && !r.now.eos
    requires Run(codec, framing, r, es, r') && NeverEos(es) && NoneEmpty(r'.now.chunks)
    requires SaidFlow(codec, framing, r.now) && CleanEvents(codec, framing, es) && SaidEvents(codec, framing, es)
    requires Fits(GroupsOf(r.out, r.now), Waiting(codec, framing, r.now) + AllSubmitted(codec, framing, es))
    ensures Drainable(codec, framing, r'.out, r'.now)
    ensures Whole(codec, framing, r'.out, r'.now) == Close(FeedAll(g, AllSubmitted(codec, framing, es)))
  {
    hide Invariant, PicsWellFormed, CleanFlow, GroupsOf, Waiting, Fits, Run, FairRun, AllSubmitted, FeedAll, Close;
    hide CleanEvents, SaidEvents, SaidFlow, NoneEmpty, NeverEos;
    FittingRunIsFair(codec, framing, r, es, r');
    RunsAreAccounted(codec, framing, r, es, r');
    RunsGroupUnits(codec, framing, r, g, es, r');
    ExpectFed(codec, framing, r, g, es, r');
  }

  /**
   Unit lists are packed one to a chunk and submitted, while detector and decoder do what they do, in any
   order, and the feeder writes behind the chunks; then the stream ends, with no empty chunk waiting. The units
   come back in order, grouped as they say themselves, each with the zero bytes of the start code behind it.
   */
  lemma RoundTrip(codec: Codec, framing: Framing, es: seq<Event>, r': Trace, nals: seq<seq<Nal>>)
    requires Accounted(codec, START) && Run(codec, framing, START, es, r')
    requires NeverEos(es) && NoneEmpty(r'.now.chunks) && Packs(codec, framing, es, nals) && LastsSay(codec, nals)
    requires CleanEvents(codec, framing, es) ==> Fits(NO_GROUPS, AllSubmitted(codec, framing, es))
    ensures CleanEvents(codec, framing, es) && Invariant(codec, r'.now)
    ensures HandedOver(codec, framing, r') == Close(FeedAll(NO_GROUPS, AllSubmitted(codec, framing, es)))
    ensures AllUnits(HandedOver(codec, framing, r')) == ReceivedAll(nals)
  {
    StartIs(codec, framing);
    PacksAreClean(codec, framing, es, nals);
    PacksAreSaid(codec, framing, es, nals);
    var xs := AllSubmitted(codec, framing, es);
    assert [] + xs == xs;
    assert Balanced(codec, framing, START, NO_GROUPS);
    hide *;
    RunIsDrainable(codec, framing, START, NO_GROUPS, es, r');
    DrainableIs(codec, framing, r'.out, r'.now);
    HandedOverIs(codec, framing, r');
    CloseKeepsUnits(FeedAll(NO_GROUPS, xs));
    FeedAllAddsUnits(NO_GROUPS, xs);
    assert AllUnits(NO_GROUPS) == [];
  }

  lemma DrainableIs(codec: Codec, framing: Framing, out: seq<Pic>, s: Flow)
    requires Drainable(codec, framing, out, s)
    ensures Invariant(codec, s)
  {
  }

  /** All units hold their headers. */
  predicate AllLong(us: seq<seq<byte>>) {
    forall k :: 0 <= k < |us| ==> |us[k]| >= 3
  }

  lemma LongSay(us: seq<seq<byte>>)
    requires AllLong(us)
    ensures AllSay(Hevc, us)
  {
  }

  lemma LongSplit(a: seq<seq<byte>>, b: seq<seq<byte>>)
    requires AllLong(a + b)
    ensures AllLong(a) && AllLong(b)
  {
    assert forall k :: 0 <= k < |a| ==> a[k] == (a + b)[k];
    assert forall k :: 0 <= k < |b| ==> b[k] == (a + b)[k + |a|];
  }

  /** Packed lists of such units are met as what they are, and say themselves whether they open a picture. */
  lemma {:induction false} PacksArePlain(framing: Framing, es: seq<Event>, nals: seq<seq<Nal>>)
    requires Packs(Hevc, framing, es, nals) && AllLong(ReceivedAll(nals)) && CleanEvents(Hevc, framing, es)
    ensures LastsSay(Hevc, nals) && AllSay(Hevc, ReceivedAll(nals))
    ensures AllSubmitted(Hevc, framing, es) == PlainItems(Hevc, ReceivedAll(nals))
    decreases |es|
  {
    hide Clean, Items, Pack, Received, AllPackable, EndsLong, SaysItself, Plain, Units;
    if es != [] {
      assert CleanEvents(Hevc, framing, es[1..]);
      if es[0].Submit? {
        var first, later := Received(nals[0]), ReceivedAll(nals[1..]);
        LongSplit(first, later);
        PacksArePlain(framing, es[1..], nals[1..]);
        UnpackPack(Hevc, framing, nals[0]);
        LongSay(first);
        ItemsArePlain(Hevc, framing, es[0].chunk.data, es[0].chunk.spill);
        PlainItemsAppend(Hevc, first, later);
        if nals[0] != [] {
          ReceivedLast(nals[0]);
          assert SaysItself(Hevc, first[|first| - 1]);
        }
        hide AllSay;
        LastsSayCons(Hevc, nals);
      } else {
        PacksArePlain(framing, es[1..], nals);
      }
    }
  }

  lemma LastsSayCons(codec: Codec, nals: seq<seq<Nal>>)
    requires nals != [] && LastsSay(codec, nals[1..])
    requires nals[0] != [] ==> SaysItself(codec, nals[0][|nals[0]| - 1].unit)
    ensures LastsSay(codec, nals)
  {
    hide SaysItself;
    forall i | 0 <= i < |nals| && nals[i] != [] ensures codec.Avc? || SaysItself(codec, nals[i][|nals[i]| - 1].unit) {
      if i > 0 {
        assert nals[i] == nals[1..][i - 1];
      }
    }
  }

  /**
   The pictures of an H.265 stream, and what stays behind, hold its units cut where their header bytes say: in
   front of each unit of type 32 to 35 or 39, or with the first-slice flag, behind a first slice; and nowhere else.
   */
  lemma RoundTripIsCut(framing: Framing, es: seq<Event>, r': Trace, nals: seq<seq<Nal>>)
    requires Accounted(Hevc, START) && Run(Hevc, framing, START, es, r')
    requires NeverEos(es) && NoneEmpty(r'.now.chunks) && Packs(Hevc, framing, es, nals) && AllLong(ReceivedAll(nals))
    requires CleanEvents(Hevc, framing, es) ==> Fits(NO_GROUPS, AllSubmitted(Hevc, framing, es))
    ensures Invariant(Hevc, r'.now)
    ensures CutFrom(ReceivedAll(nals), 0, Lists(HandedOver(Hevc, framing, r')))
  {
    hide *;
    PacksAreClean(Hevc, framing, es, nals);
    PacksArePlain(framing, es, nals);
    RoundTrip(Hevc, framing, es, r', nals);
    LongMeans(ReceivedAll(nals));
    GroupsAreCut(ReceivedAll(nals));
  }

  lemma LongMeans(us: seq<seq<byte>>)
    requires AllLong(us)
    ensures forall k :: 0 <= k < |us| ==> |us[k]| >= 3
  {
  }

  // ----- H.264

  lemma AvcIsSaid(framing: Framing, s: Flow)
    requires CleanFlow(Avc, framing, s)
    ensures SaidFlow(Avc, framing, s)
  {
    hide Clean;
  }

  /** Every unit opens a picture, so no picture overflows and every legal run on clean chunks is fair. */
  lemma {:induction false} AvcRunIsFair(framing: Framing, r: Trace, es: seq<Event>, r': Trace)
    requires Accounted(Avc, r) && Run(Avc, framing, r, es, r') && CleanFlow(Avc, framing, r.now)
    requires CleanEvents(Avc, framing, es)
    requires Singled(GroupsOf(r.out, r.now))
    ensures FairRun(Avc, framing, r, es, r') && Singled(GroupsOf(r'.out, r'.now))
    decreases |es|
  {
    hide WellFormed, PicsWellFormed, CleanFlow, Apply, Moved, GroupsOf, Waiting, HasRoom, Singled, Steady;
    if es != [] {
      AvcHasRoom(r.now);
      var next := Apply(Avc, framing, r, es[0]);
      ApplyKeeps(Avc, framing, r, es[0]);
      AvcIsSaid(framing, r.now);
      ApplyKeepsSaid(Avc, framing, r, es[0]);
      ApplyMoves(Avc, framing, r, es[0]);
      var xs := Waiting(Avc, framing, r.now) + Submitted(Avc, framing, es[0]);
      AvcWaits(framing, r.now);
      if es[0].Submit? {
        AvcItemsAreFirst(framing, es[0].chunk.data, es[0].chunk.spill);
      }
      SingledMoves(GroupsOf(r.out, r.now), xs, GroupsOf(next.out, next.now), Waiting(Avc, framing, next.now),
                   Ends(r.now, es[0]));
      AvcRunIsFair(framing, next, es[1..], r');
    }
  }

  lemma SingledMoves(g: Groups, xs: seq<Item>, g': Groups, xs': seq<Item>, ended: bool)
    requires Moved(g, xs, g', xs', ended) && Singled(g) && forall i :: 0 <= i < |xs| ==> xs[i].first
    ensures Singled(g')
  {
    SingledFeed(g, Item([], true, true));
    if xs != [] {
      SingledFeed(g, xs[0]);
    }
  }

  lemma {:induction false} SingledFits(g: Groups, xs: seq<Item>)
    requires Singled(g) && forall i :: 0 <= i < |xs| ==> xs[i].first
    ensures Fits(g, xs)
    decreases |xs|
  {
    if xs != [] {
      SingledFeed(g, xs[0]);
      SingledFits(Feed(g, xs[0]), xs[1..]);
    }
  }

  lemma AvcRunIsDrainable(framing: Framing, r: Trace, es: seq<Event>, r': Trace)
    requires Accounted(Avc, r) && CleanFlow(Avc, framing, r.now) && Singled(GroupsOf(r.out, r.now))
    requires Run(Avc, framing, r, es, r') && CleanEvents(Avc, framing, es)
    ensures Drainable(Avc, framing, r'.out, r'.now)
    ensures Whole(Avc, framing, r'.out, r'.now) ==
            Groups(Singles(HeldBy(Avc, framing, r) + UnitsIn(AllSubmitted(Avc, framing, es))), [], false)
  {
    hide Invariant, PicsWellFormed, CleanFlow, GroupsOf, Waiting, Fits, Run, FairRun, AllSubmitted, FeedAll, AllUnits;
    hide Singled;
    hide CleanEvents, Close;
    AvcRunIsFair(framing, r, es, r');
    RunsAreAccounted(Avc, framing, r, es, r');
    RunsKeepUnits(Avc, framing, r, es, r');
    var g, w := GroupsOf(r'.out, r'.now), Waiting(Avc, framing, r'.now);
    AvcWaits(framing, r'.now);
    SingledFits(g, w);
    AllFirstAreSingled(g, w);
    FeedAllAddsUnits(g, w);
    SingledIs(FeedAll(g, w));
  }

  lemma SingledIs(g: Groups)
    requires Singled(g)
    ensures Close(g) == Groups(Singles(AllUnits(g)), [], false)
  {
  }

  /**
   For H.264 each unit comes back as a picture of its own and nothing stays behind, whatever the chunks and
   wherever the stream is declared ended.
   */
  lemma AvcRoundTrip(framing: Framing, es: seq<Event>, r': Trace, nals: seq<seq<Nal>>)
    requires Accounted(Avc, START) && Run(Avc, framing, START, es, r')
    requires Packs(Avc, framing, es, nals)
    ensures Invariant(Avc, r'.now)
    ensures HandedOver(Avc, framing, r') == Groups(Singles(ReceivedAll(nals)), [], false)
  {
    StartIs(Avc, framing);
    PacksAreClean(Avc, framing, es, nals);
    assert Singled(NO_GROUPS) by { assert Singles([]) == []; }
    hide *;
    AvcRunIsDrainable(framing, START, es, r');
    DrainableIs(Avc, framing, r'.out, r'.now);
    HandedOverIs(Avc, framing, r');
    assert [] + ReceivedAll(nals) == ReceivedAll(nals);
  }
}
