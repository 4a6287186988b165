/**
 Units instead of bytes: which units wait in the chunks, how the pictures group those that are stored, and
 what one pass of a detector does to both.
 */
module SbmUnits {
  import opened Common
  import opened NalUnits
  import opened SbmFlow

  // ----- units that wait

  /** A unit as a detector meets it: what its header says about where it may stand. */
  datatype Item = Item(unit: seq<byte>, begins: bool, first: bool) {
    predicate Opens() {
      begins || first
    }
  }

  function Items(codec: Codec, framing: Framing, data: seq<byte>, spill: Spill): (xs: seq<Item>)
    requires Clean(codec, framing, data)
    decreases |data|
  {
    if data == [] then [] else
      var cut := CutUnit(codec, framing, data, NO_SPILL);
      var t := UnitType(codec, data[cut.skip]);
      [Item(data[cut.skip..cut.skip + cut.size], BeginsAccessUnit(codec, t),
            FirstSlice(codec, t, (data + spill)[cut.skip + 2]))]
      + Items(codec, framing, data[cut.skip + cut.size..], spill)
  }

  function UnitsIn(xs: seq<Item>): seq<seq<byte>> {
    if xs == [] then [] else [xs[0].unit] + UnitsIn(xs[1..])
  }

  lemma {:induction false} UnitsInAppend(a: seq<Item>, b: seq<Item>)
    ensures UnitsIn(a + b) == UnitsIn(a) + UnitsIn(b)
  {
    if a == [] {
      assert a + b == b;
    } else {
      UnitsInAppend(a[1..], b);
      assert (a + b)[1..] == a[1..] + b;
    }
  }

  predicate CleanChunks(codec: Codec, framing: Framing, cs: seq<Chunk>) {
    forall i :: 0 <= i < |cs| ==> Clean(codec, framing, cs[i].data)
  }

  /** Chunks are cut at unit boundaries, and no look ahead is short. */
  predicate CleanFlow(codec: Codec, framing: Framing, s: Flow) {
    (s.cur.Some? ==> Clean(codec, framing, s.cur.value.rest)) && CleanChunks(codec, framing, s.chunks)
  }

  function ChunkItems(codec: Codec, framing: Framing, cs: seq<Chunk>): seq<Item>
    requires CleanChunks(codec, framing, cs)
  {
    if cs == [] then []
    else Items(codec, framing, cs[0].data, cs[0].spill) + ChunkItems(codec, framing, cs[1..])
  }

  /** The units still waiting, in the order of submission. */
  function Waiting(codec: Codec, framing: Framing, s: Flow): seq<Item>
    requires CleanFlow(codec, framing, s)
  {
    (if s.cur.Some? then Items(codec, framing, s.cur.value.rest, s.cur.value.spill) else [])
    + ChunkItems(codec, framing, s.chunks)
  }

  // ----- units in pictures

  /** The unit lists of finished pictures, the list being gathered, and whether a first slice is in it. */
  datatype Groups = Groups(closed: seq<seq<seq<byte>>>, open: seq<seq<byte>>, found: bool)

  const NO_GROUPS := Groups([], [], false)

  function Close(g: Groups): Groups {
    if g.found then Groups(g.closed + [g.open], [], false) else g
  }

  /** The list is closed before a unit that opens, if a first slice is in it. */
  function Feed(g: Groups, i: Item): Groups {
    var h := if i.Opens() then Close(g) else g;
    Groups(h.closed, h.open + [i.unit], h.found || i.first)
  }

  function FeedAll(g: Groups, xs: seq<Item>): Groups
    decreases |xs|
  {
    if xs == [] then g else FeedAll(Feed(g, xs[0]), xs[1..])
  }

  function AllUnits(g: Groups): seq<seq<byte>> {
    Flatten(g.closed) + g.open
  }

  function StoredIn(b: seq<byte>, ns: seq<Nalu>): (us: seq<seq<byte>>)
    ensures |us| == |ns| && forall k :: 0 <= k < |ns| ==> us[k] == Slice(b, ns[k].off, ns[k].size)
  {
    seq(|ns|, k requires 0 <= k < |ns| => Slice(b, ns[k].off, ns[k].size))
  }

  function PicUnits(ps: seq<Pic>): (gs: seq<seq<seq<byte>>>)
    ensures |gs| == |ps| && forall k :: 0 <= k < |ps| ==> gs[k] == StoredIn(ps[k].bytes, ps[k].nalus)
  {
    seq(|ps|, k requires 0 <= k < |ps| => StoredIn(ps[k].bytes, ps[k].nalus))
  }

  /** How the units stored so far are grouped: `out` are the pictures the decoder is done with. */
  function GroupsOf(out: seq<Pic>, s: Flow): Groups {
    Groups(PicUnits(out + s.pics), if s.pic.Some? then StoredIn(s.pic.value.bytes, s.pic.value.nalus) else [], s.found)
  }

  // ----- what the grouping means

  lemma {:induction false} FeedAllAppend(g: Groups, a: seq<Item>, b: seq<Item>)
    ensures FeedAll(g, a + b) == FeedAll(FeedAll(g, a), b)
    decreases |a|
  {
    if a == [] {
      assert a + b == b;
    } else {
      FeedAllAppend(Feed(g, a[0]), a[1..], b);
      assert (a + b)[1..] == a[1..] + b;
    }
  }

  lemma CloseKeepsUnits(g: Groups)
    ensures AllUnits(Close(g)) == AllUnits(g)
  {
    FlattenAppend(g.closed, [g.open]);
    assert Flatten([g.open]) == g.open;
  }

  lemma FeedAddsUnit(g: Groups, i: Item)
    ensures AllUnits(Feed(g, i)) == AllUnits(g) + [i.unit]
  {
    CloseKeepsUnits(g);
    Append(Flatten(g.closed), g.open, [i.unit]);
    Append(Flatten(Close(g).closed), Close(g).open, [i.unit]);
  }

  /** However units are grouped, they stay the same units in the same order. */
  lemma {:induction false} FeedAllAddsUnits(g: Groups, xs: seq<Item>)
    ensures AllUnits(FeedAll(g, xs)) == AllUnits(g) + UnitsIn(xs)
    decreases |xs|
  {
    hide AllUnits, Feed;
    if xs != [] {
      FeedAddsUnit(g, xs[0]);
      FeedAllAddsUnits(Feed(g, xs[0]), xs[1..]);
      Append(AllUnits(g), [xs[0].unit], UnitsIn(xs[1..]));
    }
  }

  /** Closed lists stay as they are, and the open one only grows until it is closed. */
  lemma {:induction false} GroupsGrow(g: Groups, xs: seq<Item>)
    ensures var r := FeedAll(g, xs);
            && g.closed <= r.closed
            && (|r.closed| > |g.closed| ==> |g.open| <= |r.closed[|g.closed|]|)
    decreases |xs|
  {
    if xs != [] {
      var h := Feed(g, xs[0]);
      GroupsGrow(h, xs[1..]);
      var r := FeedAll(g, xs);
      assert g.closed <= h.closed <= r.closed;
      if |h.closed| > |g.closed| {
        assert r.closed[|g.closed|] == h.closed[|g.closed|] == g.open;
      }
    }
  }

  /** To end a picture early changes nothing about the grouping exactly if the next unit would have ended it. */
  lemma EarlyEndExactly(g: Groups, xs: seq<Item>)
    requires g.found && xs != []
    ensures FeedAll(Close(g), xs) == FeedAll(g, xs) <==> xs[0].Opens()
  {
    if !xs[0].Opens() {
      GroupsGrow(Close(g), xs);
      GroupsGrow(Feed(g, xs[0]), xs[1..]);
    }
  }

  /** What one pass may do to the groups g and the units xs that wait; `ended` says that the stream ends here. */
  predicate Moved(g: Groups, xs: seq<Item>, g': Groups, xs': seq<Item>, ended: bool) {
    || (!ended && g' == g && xs' == xs)
    || (g.found && g' == Close(g) && xs' == xs && (ended || (xs != [] && xs[0].Opens())))
    || (!ended && xs != [] && g' == Feed(g, xs[0]) && xs' == xs[1..])
  }

  /** Only the end of the stream ends a picture before the units that still wait. */
  lemma MovedFeeds(g: Groups, xs: seq<Item>, g': Groups, xs': seq<Item>, ended: bool)
    requires Moved(g, xs, g', xs', ended)
    ensures FeedAll(g', xs') == FeedAll(if ended then Close(g) else g, xs)
  {
    if g.found && xs != [] {
      EarlyEndExactly(g, xs);
    }
  }

  lemma MovedKeeps(g: Groups, xs: seq<Item>, g': Groups, xs': seq<Item>, ended: bool)
    requires Moved(g, xs, g', xs', ended)
    ensures AllUnits(g') + UnitsIn(xs') == AllUnits(g) + UnitsIn(xs)
  {
    MovedFeeds(g, xs, g', xs', ended);
    CloseKeepsUnits(g);
    FeedAllAddsUnits(g, xs);
    FeedAllAddsUnits(Close(g), xs);
    FeedAllAddsUnits(g', xs');
  }

  function Singles(us: seq<seq<byte>>): (r: seq<seq<seq<byte>>>)
    ensures |r| == |us| && forall k :: 0 <= k < |us| ==> r[k] == [us[k]]
  {
    seq(|us|, k requires 0 <= k < |us| => [us[k]])
  }

  /** One unit to a list. */
  predicate Singled(g: Groups) {
    Close(g) == Groups(Singles(AllUnits(g)), [], false)
  }

  lemma SingledFeed(g: Groups, x: Item)
    requires Singled(g) && x.first
    ensures Singled(Feed(g, x)) && Singled(Close(g)) && |g.open| <= 1
  {
    FeedAddsUnit(g, x);
    CloseKeepsUnits(g);
    var none: seq<seq<byte>> := [];
    assert Close(g).open == none && none + [x.unit] == [x.unit];
    assert Singles(AllUnits(g) + [x.unit]) == Singles(AllUnits(g)) + [[x.unit]];
    assert g.found ==> Close(g).closed[|g.closed|] == g.open;
  }

  /** If every unit is a first slice, each becomes a list of its own. */
  lemma {:induction false} AllFirstAreSingled(g: Groups, xs: seq<Item>)
    requires Singled(g) && forall i :: 0 <= i < |xs| ==> xs[i].first
    ensures Singled(FeedAll(g, xs))
    decreases |xs|
  {
    hide Singled, Feed;
    if xs != [] {
      SingledFeed(g, xs[0]);
      AllFirstAreSingled(Feed(g, xs[0]), xs[1..]);
    }
  }

  // ----- units whose header lies inside them

  /** A unit that the detectors need no byte behind it for: only an H.265 slice has to hold three. */
  predicate SaysItself(codec: Codec, unit: seq<byte>) {
    unit != [] && (codec.Avc? || |unit| >= 3 || UnitType(codec, unit[0]) > 21)
  }

  function Plain(codec: Codec, unit: seq<byte>): Item
    requires SaysItself(codec, unit)
  {
    var t := UnitType(codec, unit[0]);
    Item(unit, BeginsAccessUnit(codec, t), FirstSlice(codec, t, if |unit| >= 3 then unit[2] else 0))
  }

  predicate AllSay(codec: Codec, units: seq<seq<byte>>) {
    forall i :: 0 <= i < |units| ==> SaysItself(codec, units[i])
  }

  function PlainItems(codec: Codec, units: seq<seq<byte>>): seq<Item>
    requires AllSay(codec, units)
  {
    if units == [] then [] else [Plain(codec, units[0])] + PlainItems(codec, units[1..])
  }

  lemma {:induction false} PlainItemsAppend(codec: Codec, a: seq<seq<byte>>, b: seq<seq<byte>>)
    requires AllSay(codec, a) && AllSay(codec, b)
    ensures AllSay(codec, a + b) && PlainItems(codec, a + b) == PlainItems(codec, a) + PlainItems(codec, b)
  {
    hide SaysItself, Plain;
    if a == [] {
      assert a + b == b;
    } else {
      PlainItemsAppend(codec, a[1..], b);
      assert (a + b)[1..] == a[1..] + b;
    }
  }

  lemma FrontIsPlain(codec: Codec, data: seq<byte>, spill: Spill, skip: nat, size: nat)
    requires skip < |data| && skip + size <= |data| && SaysItself(codec, data[skip..skip + size])
    ensures var unit := data[skip..skip + size]; var t := UnitType(codec, data[skip]);
            Item(unit, BeginsAccessUnit(codec, t), FirstSlice(codec, t, (data + spill)[skip + 2])) == Plain(codec, unit)
  {
    var unit := data[skip..skip + size];
    assert unit[0] == data[skip];
    if size >= 3 {
      assert unit[2] == data[skip + 2] == (data + spill)[skip + 2];
    }
  }

  lemma UnitsFront(codec: Codec, framing: Framing, data: seq<byte>)
    requires Clean(codec, framing, data) && data != []
    ensures var cut := CutUnit(codec, framing, data, NO_SPILL); var tail := data[cut.skip + cut.size..];
            Clean(codec, framing, tail) &&
            Units(codec, framing, data) == [data[cut.skip..cut.skip + cut.size]] + Units(codec, framing, tail)
  {
    hide CutUnit;
  }

  lemma ItemsFront(codec: Codec, framing: Framing, data: seq<byte>, spill: Spill)
    requires Clean(codec, framing, data) && data != []
    requires var cut := CutUnit(codec, framing, data, NO_SPILL); Clean(codec, framing, data[cut.skip + cut.size..])
    ensures var cut := CutUnit(codec, framing, data, NO_SPILL); var t := UnitType(codec, data[cut.skip]);
            Items(codec, framing, data, spill) ==
            [Item(data[cut.skip..cut.skip + cut.size], BeginsAccessUnit(codec, t),
                  FirstSlice(codec, t, (data + spill)[cut.skip + 2]))]
            + Items(codec, framing, data[cut.skip + cut.size..], spill)
  {
    hide CutUnit, Clean, UnitType, BeginsAccessUnit, FirstSlice;
  }

  lemma AllAreFirst()
    ensures forall t: nat, b: byte :: FirstSlice(Avc, t, b)
  {
  }

  /** The first unit of some data and what follows it. */
  lemma Front(codec: Codec, framing: Framing, data: seq<byte>, spill: Spill) returns (x: Item, tail: seq<byte>)
    requires Clean(codec, framing, data) && data != []
    ensures Clean(codec, framing, tail) && |tail| < |data|
    ensures Items(codec, framing, data, spill) == [x] + Items(codec, framing, tail, spill)
    ensures Units(codec, framing, data) == [x.unit] + Units(codec, framing, tail)
    ensures SaysItself(codec, x.unit) ==> x == Plain(codec, x.unit)
    ensures codec.Avc? ==> x.first
  {
    AllAreFirst();
    hide CutUnit, UnitType, BeginsAccessUnit, FirstSlice, SaysItself, Plain, Items, Units;
    UnitsFront(codec, framing, data);
    ItemsFront(codec, framing, data, spill);
    var cut := CutUnit(codec, framing, data, NO_SPILL);
    tail := data[cut.skip + cut.size..];
    x := Items(codec, framing, data, spill)[0];
    if SaysItself(codec, x.unit) {
      FrontIsPlain(codec, data, spill, cut.skip, cut.size);
    }
  }

  lemma {:induction false} ItemsAreUnits(codec: Codec, framing: Framing, data: seq<byte>, spill: Spill)
    requires Clean(codec, framing, data)
    ensures UnitsIn(Items(codec, framing, data, spill)) == Units(codec, framing, data)
    decreases |data|
  {
    if data != [] {
      var x, tail := Front(codec, framing, data, spill);
      ItemsAreUnits(codec, framing, tail, spill);
    }
  }

  /** Such units are met as what they are. */
  lemma {:induction false} ItemsArePlain(codec: Codec, framing: Framing, data: seq<byte>, spill: Spill)
    requires Clean(codec, framing, data) && AllSay(codec, Units(codec, framing, data))
    ensures Items(codec, framing, data, spill) == PlainItems(codec, Units(codec, framing, data))
    decreases |data|
  {
    hide SaysItself, Plain;
    if data != [] {
      var x, tail := Front(codec, framing, data, spill);
      hide Clean, Units, Items;
      assert forall i :: 0 <= i < |Units(codec, framing, tail)| ==>
          Units(codec, framing, tail)[i] == Units(codec, framing, data)[i + 1];
      ItemsArePlain(codec, framing, tail, spill);
      assert Units(codec, framing, data)[0] == x.unit;
      assert Units(codec, framing, data)[1..] == Units(codec, framing, tail);
    }
  }

  // ----- bytes behind a chunk that change

  /** The last unit of some data says itself whether it opens a picture; for H.264 each one does. */
  predicate EndsSaid(codec: Codec, framing: Framing, data: seq<byte>)
    requires Clean(codec, framing, data)
  {
    var us := Units(codec, framing, data);
    codec.Avc? || us == [] || SaysItself(codec, us[|us| - 1])
  }

  lemma EndsSaidBehind(codec: Codec, framing: Framing, data: seq<byte>)
    requires Clean(codec, framing, data) && data != []
    ensures var cut := CutUnit(codec, framing, data, NO_SPILL); var tail := data[cut.skip + cut.size..];
            && Clean(codec, framing, tail)
            && (EndsSaid(codec, framing, data) <==>
                if tail == [] then codec.Avc? || SaysItself(codec, data[cut.skip..cut.skip + cut.size])
                else EndsSaid(codec, framing, tail))
  {
    UnitsFront(codec, framing, data);
    hide CutUnit, SaysItself;
  }

  /** Whether the first unit is met as a first slice depends on what lies behind the data if it is the last one. */
  lemma FrontIdle(codec: Codec, framing: Framing, data: seq<byte>, spill: Spill, other: Spill)
    requires Clean(codec, framing, data) && data != []
    ensures var cut := CutUnit(codec, framing, data, NO_SPILL); var t := UnitType(codec, data[cut.skip]);
            var tail := data[cut.skip + cut.size..];
            codec.Avc? || tail != [] || SaysItself(codec, data[cut.skip..cut.skip + cut.size]) ==>
              FirstSlice(codec, t, (data + spill)[cut.skip + 2]) == FirstSlice(codec, t, (data + other)[cut.skip + 2])
  {
    UnitsFront(codec, framing, data);
    var cut := CutUnit(codec, framing, data, NO_SPILL);
    var tail := data[cut.skip + cut.size..];
    assert tail != [] ==> |tail| >= 5;
    hide CutUnit, Units, Clean;
  }

  lemma {:induction false} ItemsIdle(codec: Codec, framing: Framing, data: seq<byte>, spill: Spill, other: Spill)
    requires Clean(codec, framing, data) && EndsSaid(codec, framing, data)
    ensures Items(codec, framing, data, spill) == Items(codec, framing, data, other)
    decreases |data|
  {
    if data == [] {
    } else {
      EndsSaidBehind(codec, framing, data);
      FrontIdle(codec, framing, data, spill, other);
      ItemsFront(codec, framing, data, spill);
      ItemsFront(codec, framing, data, other);
      hide CutUnit, Items, Clean, EndsSaid, SaysItself, FirstSlice, UnitType, BeginsAccessUnit;
      var cut := CutUnit(codec, framing, data, NO_SPILL);
      var tail := data[cut.skip + cut.size..];
      if tail == [] {
        NothingLeft(codec, framing, tail, spill);
        NothingLeft(codec, framing, tail, other);
      } else {
        ItemsIdle(codec, framing, tail, spill, other);
      }
    }
  }

  const HIGH_SPILL: Spill := [255, 255, 255, 255, 255, 255]

  lemma LastDiffers(codec: Codec, framing: Framing, data: seq<byte>)
    requires Clean(codec, framing, data) && data != []
    requires var cut := CutUnit(codec, framing, data, NO_SPILL);
             && data[cut.skip + cut.size..] == []
             && !(codec.Avc? || SaysItself(codec, data[cut.skip..cut.skip + cut.size]))
    ensures var cut := CutUnit(codec, framing, data, NO_SPILL); var t := UnitType(codec, data[cut.skip]);
            FirstSlice(codec, t, (data + NO_SPILL)[cut.skip + 2]) !=
            FirstSlice(codec, t, (data + HIGH_SPILL)[cut.skip + 2])
  {
    var cut := CutUnit(codec, framing, data, NO_SPILL);
    assert (data + NO_SPILL)[cut.skip + 2] == 0 && (data + HIGH_SPILL)[cut.skip + 2] == 255;
  }

  lemma {:induction false} ItemsDiffer(codec: Codec, framing: Framing, data: seq<byte>)
    requires Clean(codec, framing, data) && !EndsSaid(codec, framing, data)
    ensures Items(codec, framing, data, NO_SPILL) != Items(codec, framing, data, HIGH_SPILL)
    decreases |data|
  {
    EndsSaidBehind(codec, framing, data);
    ItemsFront(codec, framing, data, NO_SPILL);
    ItemsFront(codec, framing, data, HIGH_SPILL);
    var cut := CutUnit(codec, framing, data, NO_SPILL);
    var tail := data[cut.skip + cut.size..];
    if tail == [] {
      LastDiffers(codec, framing, data);
    } else {
      ItemsDiffer(codec, framing, tail);
    }
    hide CutUnit, Items, Clean, EndsSaid, SaysItself, FirstSlice, UnitType, BeginsAccessUnit;
    var a, b := Items(codec, framing, data, NO_SPILL), Items(codec, framing, data, HIGH_SPILL);
    assert a[0].first == b[0].first ==> a[1..] != b[1..];
  }

  /**
   What lies behind some data has no say in the units met in it exactly if the last of them holds its own
   header: it may be any H.264 unit, and only an H.265 slice has to hold three bytes.
   */
  lemma MetTheSameExactly(codec: Codec, framing: Framing, data: seq<byte>)
    requires Clean(codec, framing, data)
    ensures (forall spill, other :: Items(codec, framing, data, spill) == Items(codec, framing, data, other)) <==>
            EndsSaid(codec, framing, data)
  {
    if EndsSaid(codec, framing, data) {
      forall spill, other ensures Items(codec, framing, data, spill) == Items(codec, framing, data, other) {
        ItemsIdle(codec, framing, data, spill, other);
      }
    } else {
      ItemsDiffer(codec, framing, data);
    }
  }

  predicate SaidChunks(codec: Codec, framing: Framing, cs: seq<Chunk>)
    requires CleanChunks(codec, framing, cs)
  {
    forall i :: 0 <= i < |cs| ==> EndsSaid(codec, framing, cs[i].data)
  }

  /** Every chunk ends in a unit that says itself whether it opens a picture. */
  predicate SaidFlow(codec: Codec, framing: Framing, s: Flow) {
    && CleanFlow(codec, framing, s)
    && (s.cur.Some? ==> EndsSaid(codec, framing, s.cur.value.rest)) && SaidChunks(codec, framing, s.chunks)
  }

  lemma {:induction false} ChunkItemsIdle(codec: Codec, framing: Framing, cs: seq<Chunk>, ds: seq<Chunk>)
    requires CleanChunks(codec, framing, cs) && |ds| == |cs|
    requires forall i :: 0 <= i < |cs| ==> ds[i].data == cs[i].data
    ensures CleanChunks(codec, framing, ds)
    ensures UnitsIn(ChunkItems(codec, framing, ds)) == UnitsIn(ChunkItems(codec, framing, cs))
    ensures SaidChunks(codec, framing, cs) ==>
              SaidChunks(codec, framing, ds) && ChunkItems(codec, framing, ds) == ChunkItems(codec, framing, cs)
  {
    hide Clean, Items, EndsSaid, Units;
    if cs != [] {
      assert Clean(codec, framing, cs[0].data);
      ChunkItemsIdle(codec, framing, cs[1..], ds[1..]);
      ItemsAreUnits(codec, framing, cs[0].data, cs[0].spill);
      ItemsAreUnits(codec, framing, cs[0].data, ds[0].spill);
      UnitsInAppend(Items(codec, framing, cs[0].data, cs[0].spill), ChunkItems(codec, framing, cs[1..]));
      UnitsInAppend(Items(codec, framing, cs[0].data, ds[0].spill), ChunkItems(codec, framing, ds[1..]));
      assert CleanChunks(codec, framing, ds);
      if SaidChunks(codec, framing, cs) {
        assert EndsSaid(codec, framing, cs[0].data);
        ItemsIdle(codec, framing, cs[0].data, cs[0].spill, ds[0].spill);
      }
    }
  }

  /** A write behind chunks changes no unit that waits, and how it is met only where a chunk ends in a short slice. */
  lemma WriteWaits(codec: Codec, framing: Framing, s: Flow, w: Spills)
    requires CleanFlow(codec, framing, s) && |w.chunks| == |s.chunks|
    ensures var t := Written(s, w);
            && CleanFlow(codec, framing, t)
            && UnitsIn(Waiting(codec, framing, t)) == UnitsIn(Waiting(codec, framing, s))
            && (SaidFlow(codec, framing, s) ==>
                  SaidFlow(codec, framing, t) && Waiting(codec, framing, t) == Waiting(codec, framing, s))
  {
    hide Clean, Items, ChunkItems, EndsSaid, Units, CleanChunks, SaidChunks, UnitsIn;
    var t := Written(s, w);
    ChunkItemsIdle(codec, framing, s.chunks, t.chunks);
    if s.cur.None? {
      var none: seq<Item> := [];
      assert none + ChunkItems(codec, framing, s.chunks) == ChunkItems(codec, framing, s.chunks);
      assert none + ChunkItems(codec, framing, t.chunks) == ChunkItems(codec, framing, t.chunks);
    } else {
      var c := s.cur.value;
      ItemsAreUnits(codec, framing, c.rest, c.spill);
      ItemsAreUnits(codec, framing, c.rest, w.cur);
      UnitsInAppend(Items(codec, framing, c.rest, c.spill), ChunkItems(codec, framing, s.chunks));
      UnitsInAppend(Items(codec, framing, c.rest, w.cur), ChunkItems(codec, framing, t.chunks));
      if SaidFlow(codec, framing, s) {
        ItemsIdle(codec, framing, c.rest, c.spill, w.cur);
      }
    }
  }

  // ----- what one pass does

  lemma PicUnitsAppend(ps: seq<Pic>, p: Pic)
    ensures PicUnits(ps + [p]) == PicUnits(ps) + [StoredIn(p.bytes, p.nalus)]
  {
  }

  lemma EmitCloses(out: seq<Pic>, s: Flow)
    requires s.pic.Some? && s.found
    ensures GroupsOf(out, Emit(s)) == Close(GroupsOf(out, s))
  {
    hide StoredIn;
    var p := s.pic.value.(pts := FirstKnown(s.ptsList));
    Append(out, s.pics, [p]);
    PicUnitsAppend(out + s.pics, p);
  }

  lemma StoredExtended(codec: Codec, b: seq<byte>, ns: seq<Nalu>, more: seq<byte>)
    requires WellFormed(codec, b, ns)
    ensures StoredIn(b + more, ns) == StoredIn(b, ns)
  {
    forall k | 0 <= k < |ns| ensures Slice(b + more, ns[k].off, ns[k].size) == Slice(b, ns[k].off, ns[k].size) {
      assert Sound(codec, b, ns[k]);
    }
  }

  lemma StoreAdds(codec: Codec, p: Pic, rest: seq<byte>, skip: nat, size: nat, t: nat)
    requires WellFormed(codec, p.bytes, p.nalus) && skip + size <= |rest|
    ensures StoredIn(p.bytes + rest[..skip + size], p.nalus + [Nalu(t, |p.bytes| + skip, size)]) ==
            StoredIn(p.bytes, p.nalus) + [rest[skip..skip + size]]
  {
    StoredExtended(codec, p.bytes, p.nalus, rest[..skip + size]);
    hide WellFormed;
    var b := p.bytes + rest[..skip + size];
    assert b[|p.bytes| + skip..|p.bytes| + skip + size] == rest[skip..skip + size];
  }

  lemma StoreShape(s: Flow, found: bool, skip: nat, size: nat, t: nat)
    requires s.pic.Some? && s.cur.Some? && skip + size <= |s.cur.value.rest|
    ensures var p := s.pic.value; var u := Store(s.(found := found), skip, size, t);
            && u.pics == s.pics && u.found == found && u.pic.Some?
            && u.pic.value.bytes == p.bytes + s.cur.value.rest[..skip + size]
            && u.pic.value.nalus == p.nalus + [Nalu(t, |p.bytes| + skip, size)]
  {
  }

  /** The pictures, the open list and the first slice after a unit is stored. */
  lemma StoreFeeds(codec: Codec, out: seq<Pic>, s: Flow, x: Item, skip: nat, size: nat, t: nat)
    requires Invariant(codec, s) && s.pic.Some? && s.cur.Some? && skip + size <= |s.cur.value.rest|
    requires x.unit == s.cur.value.rest[skip..skip + size] && !(s.found && x.Opens())
    ensures GroupsOf(out, Store(s.(found := s.found || x.first), skip, size, t)) == Feed(GroupsOf(out, s), x)
  {
    assert WellFormed(codec, s.pic.value.bytes, s.pic.value.nalus);
    hide WellFormed, StoredIn, PicUnits, Store, Invariant;
    StoreShape(s, s.found || x.first, skip, size, t);
    StoreAdds(codec, s.pic.value, s.cur.value.rest, skip, size, t);
    var u := Store(s.(found := s.found || x.first), skip, size, t);
    assert GroupsOf(out, u).open == GroupsOf(out, s).open + [x.unit];
    FeedsOn(GroupsOf(out, s), GroupsOf(out, u), x);
  }

  lemma FeedsOn(g: Groups, h: Groups, x: Item)
    requires !(g.found && x.Opens()) && h.closed == g.closed && h.open == g.open + [x.unit]
    requires h.found == (g.found || x.first)
    ensures h == Feed(g, x)
  {
  }

  /** The unit in front of a clean chunk, as `Look` sees it. */
  lemma FrontItem(codec: Codec, framing: Framing, c: Cur) returns (x: Item, cut: Cut)
    requires c.rest != [] && Clean(codec, framing, c.rest)
    ensures |c.rest| >= 5 && cut.Cut? && cut == CutOf(codec, framing, c)
    ensures Clean(codec, framing, c.rest[cut.skip + cut.size..])
    ensures x.unit == c.rest[cut.skip..cut.skip + cut.size]
    ensures x.Opens() == HeaderOpens(codec, c, cut.skip) && x.first == HeaderFirst(codec, c, cut.skip)
    ensures Items(codec, framing, c.rest, c.spill) ==
            [x] + Items(codec, framing, c.rest[cut.skip + cut.size..], c.spill)
  {
    SpillIsIdle(codec, framing, c.rest, c.spill, NO_SPILL);
    hide CutUnit, UnitType, BeginsAccessUnit, FirstSlice, Items, Units;
    UnitsFront(codec, framing, c.rest);
    ItemsFront(codec, framing, c.rest, c.spill);
    cut := CutUnit(codec, framing, c.rest, NO_SPILL);
    x := Items(codec, framing, c.rest, c.spill)[0];
  }

  /** What a look at a clean chunk does while the picture has room. */
  lemma LookIs(codec: Codec, framing: Framing, s: Flow)
    requires s.pic.Some? && s.cur.Some? && s.cur.value.rest != [] && CutOf(codec, framing, s.cur.value).Cut?
    requires UnitsSoFar(s) <= MAX_NALU_NUM_IN_FRAME
    ensures var c := s.cur.value; var cut := CutOf(codec, framing, c);
            Look(codec, framing, s) ==
            if s.found && HeaderOpens(codec, c, cut.skip) then Done(Emit(s))
            else More(Store(s.(found := s.found || HeaderFirst(codec, c, cut.skip)), cut.skip, cut.size,
                            HeaderType(codec, c, cut.skip)))
  {
  }

  lemma LookFeeds(codec: Codec, framing: Framing, out: seq<Pic>, s: Flow)
    requires Invariant(codec, s) && s.pic.Some? && s.cur.Some? && s.cur.value.rest != [] && CleanFlow(codec, framing, s)
    requires UnitsSoFar(s) <= MAX_NALU_NUM_IN_FRAME
    ensures var r := Look(codec, framing, s);
            && !r.Astray? && CleanFlow(codec, framing, r.s)
            && Moved(GroupsOf(out, s), Waiting(codec, framing, s), GroupsOf(out, r.s), Waiting(codec, framing, r.s),
                     false)
  {
    hide CutOf, Items, ChunkItems, Clean, CleanChunks, GroupsOf, Look, HeaderOpens, HeaderFirst, HeaderType, Invariant;
    hide Feed, Close;
    var c := s.cur.value;
    var x, cut := FrontItem(codec, framing, c);
    LookIs(codec, framing, s);
    var w := Waiting(codec, framing, s);
    Append([x], Items(codec, framing, c.rest[cut.skip + cut.size..], c.spill), ChunkItems(codec, framing, s.chunks));
    assert w[0] == x;
    if s.found && x.Opens() {
      EmitCloses(out, s);
      assert Waiting(codec, framing, Emit(s)) == w;
      FoundIs(out, s);
    } else {
      StoreFeeds(codec, out, s, x, cut.skip, cut.size, HeaderType(codec, c, cut.skip));
      assert w[1..] == Waiting(codec, framing, Look(codec, framing, s).s);
    }
  }

  lemma FoundIs(out: seq<Pic>, s: Flow)
    ensures GroupsOf(out, s).found == s.found
  {
  }

  /** A picture is complete because the stream has ended, as far as this pass can see. */
  predicate EndsStream(s: Flow) {
    s.pic.Some? && LookedAt(s).None? && s.found && s.eos
  }

  predicate HasRoom(s: Flow) {
    LookedAt(s).Some? ==> UnitsSoFar(s) <= MAX_NALU_NUM_IN_FRAME
  }

  lemma NothingLeft(codec: Codec, framing: Framing, data: seq<byte>, spill: Spill)
    requires Clean(codec, framing, data) && |data| < 5
    ensures data == [] && Items(codec, framing, data, spill) == []
  {
  }

  lemma LeaveFeeds(codec: Codec, framing: Framing, s: Flow)
    requires s.pic.Some? && CleanFlow(codec, framing, s) && (s.cur.None? || |s.cur.value.rest| < 5)
    ensures LeaveChunk(s) == s.(cur := None) && CleanFlow(codec, framing, s.(cur := None))
    ensures Waiting(codec, framing, s.(cur := None)) == Waiting(codec, framing, s)
  {
    hide Clean, Items, ChunkItems, CleanChunks;
    if s.cur.Some? {
      NothingLeft(codec, framing, s.cur.value.rest, s.cur.value.spill);
      assert s.pic.value.bytes + s.cur.value.rest == s.pic.value.bytes;
    }
  }

  lemma OpenFeeds(codec: Codec, framing: Framing, s: Flow)
    requires CleanFlow(codec, framing, s) && s.cur.None?
    ensures var t := OpenChunk(s).s;
            && CleanFlow(codec, framing, t) && Waiting(codec, framing, t) == Waiting(codec, framing, s)
            && t == s.(chunks := t.chunks, cur := t.cur)
  {
    hide Clean, Items;
    if s.chunks != [] {
      assert Clean(codec, framing, s.chunks[0].data);
      if s.chunks[0].data == [] {
        NothingLeft(codec, framing, s.chunks[0].data, s.chunks[0].spill);
      }
    }
  }

  /** What a call for data does to a clean flow: nothing, as far as units are concerned. */
  lemma SupplyFeeds(codec: Codec, framing: Framing, out: seq<Pic>, s: Flow)
    requires s.pic.Some? && CleanFlow(codec, framing, s) && (s.cur.None? || |s.cur.value.rest| < 5)
    ensures var t := Supply(s).s;
            && CleanFlow(codec, framing, t) && GroupsOf(out, t) == GroupsOf(out, s)
            && Waiting(codec, framing, t) == Waiting(codec, framing, s)
            && t.pic.Some? && t.found == s.found && t.eos == s.eos
  {
    LeaveFeeds(codec, framing, s);
    OpenFeeds(codec, framing, s.(cur := None));
    hide CleanFlow, Waiting, LeaveChunk, OpenChunk, StoredIn, PicUnits;
  }

  /**
   One pass of a detector, while the picture has room for the unit it finds, stores the first unit that
   waits, or ends the picture in front of it, or ends the picture because the stream has ended.
   */
  lemma StepMoves(codec: Codec, framing: Framing, out: seq<Pic>, s: Flow)
    requires Invariant(codec, s) && s.pic.Some? && CleanFlow(codec, framing, s) && HasRoom(s)
    ensures var r := Step(codec, framing, s);
            && !r.Astray? && CleanFlow(codec, framing, r.s)
            && Moved(GroupsOf(out, s), Waiting(codec, framing, s), GroupsOf(out, r.s), Waiting(codec, framing, r.s),
                     EndsStream(s))
  {
    hide Look, Supply, CleanFlow, Waiting, GroupsOf, FeedAll, Invariant, Close, Feed;
    if s.cur.None? || |s.cur.value.rest| < 5 {
      SupplyLooks(s);
      SupplyFeeds(codec, framing, out, s);
      SupplyKeepsInvariant(codec, s);
      var t := Supply(s).s;
      if Supply(s).Fed? {
        LookFeeds(codec, framing, out, t);
      } else if t.found && t.eos {
        EmitCloses(out, t);
        EmitWaits(codec, framing, t);
        FoundIs(out, s);
      }
    } else {
      LookFeeds(codec, framing, out, s);
    }
  }

  lemma EmitWaits(codec: Codec, framing: Framing, s: Flow)
    requires s.pic.Some? && CleanFlow(codec, framing, s)
    ensures CleanFlow(codec, framing, Emit(s)) && Waiting(codec, framing, Emit(s)) == Waiting(codec, framing, s)
  {
  }

  lemma LookKeepsSaid(codec: Codec, framing: Framing, s: Flow)
    requires s.pic.Some? && s.cur.Some? && s.cur.value.rest != [] && SaidFlow(codec, framing, s)
    requires UnitsSoFar(s) <= MAX_NALU_NUM_IN_FRAME
    ensures var r := Look(codec, framing, s); !r.Astray? && SaidFlow(codec, framing, r.s)
  {
    hide CutUnit, Items, Clean, CleanChunks, SaidChunks, Look, HeaderOpens, HeaderFirst, HeaderType, EndsSaid;
    hide SaysItself;
    var c := s.cur.value;
    var x, cut := FrontItem(codec, framing, c);
    LookIs(codec, framing, s);
    SpillIsIdle(codec, framing, c.rest, c.spill, NO_SPILL);
    EndsSaidBehind(codec, framing, c.rest);
    NothingIsSaid(codec, framing);
  }

  lemma NothingIsSaid(codec: Codec, framing: Framing)
    ensures Clean(codec, framing, []) && EndsSaid(codec, framing, [])
  {
  }

  lemma SupplyKeepsSaid(codec: Codec, framing: Framing, s: Flow)
    requires s.pic.Some? && SaidFlow(codec, framing, s)
    ensures SaidFlow(codec, framing, Supply(s).s)
  {
    hide Clean, EndsSaid;
  }

  /** A pass keeps it so. */
  lemma StepKeepsSaid(codec: Codec, framing: Framing, s: Flow)
    requires s.pic.Some? && SaidFlow(codec, framing, s) && HasRoom(s)
    ensures var r := Step(codec, framing, s); !r.Astray? && SaidFlow(codec, framing, r.s)
  {
    hide Look, Supply, Clean, CleanChunks, SaidChunks, EndsSaid;
    if s.cur.None? || |s.cur.value.rest| < 5 {
      SupplyLooks(s);
      SupplyKeepsSaid(codec, framing, s);
      if Supply(s).Fed? {
        LookKeepsSaid(codec, framing, Supply(s).s);
      }
    } else {
      LookKeepsSaid(codec, framing, s);
    }
  }

  /**
   A pass that takes an empty chunk for the end of the stream, while units wait behind it, keeps their
   grouping exactly if the next of them opens a picture.
   */
  lemma EndsEarlyExactly(codec: Codec, framing: Framing, out: seq<Pic>, s: Flow)
    requires Invariant(codec, s) && CleanFlow(codec, framing, s) && EndsStream(s) && Waiting(codec, framing, s) != []
    ensures var r := Step(codec, framing, s);
            && !r.Astray? && CleanFlow(codec, framing, r.s)
            && (FeedAll(GroupsOf(out, r.s), Waiting(codec, framing, r.s)) ==
                FeedAll(GroupsOf(out, s), Waiting(codec, framing, s))
                <==> Waiting(codec, framing, s)[0].Opens())
  {
    hide Step, Waiting, CleanFlow, Invariant, FeedAll, Close, Feed;
    StepMoves(codec, framing, out, s);
    FoundIs(out, s);
    EarlyEndExactly(GroupsOf(out, s), Waiting(codec, framing, s));
  }

  // ----- units are kept exactly while the picture has room

  /** Stored and waiting units together. */
  function Held(codec: Codec, framing: Framing, out: seq<Pic>, s: Flow): seq<seq<byte>>
    requires CleanFlow(codec, framing, s)
  {
    AllUnits(GroupsOf(out, s)) + UnitsIn(Waiting(codec, framing, s))
  }

  lemma DisposeUnits(codec: Codec, out: seq<Pic>, s: Flow)
    requires Invariant(codec, s) && s.pic.Some? && s.cur.Some?
    ensures AllUnits(GroupsOf(out, Dispose(s))) == AllUnits(GroupsOf(out, s))
  {
    var p := s.pic.value;
    StoredExtended(codec, p.bytes, p.nalus, s.cur.value.rest);
    hide WellFormed, StoredIn;
    if Dispose(s).pic.None? {
      var q := p.(bytes := p.bytes + s.cur.value.rest, ok := false);
      Append(out, s.pics, [q]);
      PicUnitsAppend(out + s.pics, q);
      CloseKeepsUnits(GroupsOf(out, s).(found := true));
    }
  }

  lemma DisposeWaits(codec: Codec, framing: Framing, s: Flow)
    requires s.pic.Some? && s.cur.Some? && CleanFlow(codec, framing, s)
    ensures CleanFlow(codec, framing, Dispose(s))
    ensures Waiting(codec, framing, Dispose(s)) == ChunkItems(codec, framing, s.chunks)
    ensures Waiting(codec, framing, s) ==
            Items(codec, framing, s.cur.value.rest, s.cur.value.spill) + ChunkItems(codec, framing, s.chunks)
  {
    hide Clean, Items, ChunkItems, CleanChunks;
  }

  /** Data given up takes its units with it. */
  lemma DisposeLoses(codec: Codec, framing: Framing, out: seq<Pic>, s: Flow)
    requires Invariant(codec, s) && s.pic.Some? && s.cur.Some? && s.cur.value.rest != [] && CleanFlow(codec, framing, s)
    ensures CleanFlow(codec, framing, Dispose(s))
    ensures |Held(codec, framing, out, Dispose(s))| < |Held(codec, framing, out, s)|
  {
    DisposeUnits(codec, out, s);
    DisposeWaits(codec, framing, s);
    var c := s.cur.value;
    var x, tail := Front(codec, framing, c.rest, c.spill);
    hide Items, ChunkItems, AllUnits, GroupsOf, Clean, Dispose, CleanFlow, Waiting, Invariant, Units;
    assert UnitsIn(Items(codec, framing, c.rest, c.spill)) != [];
    hide UnitsIn;
    UnitsInAppend(Items(codec, framing, c.rest, c.spill), ChunkItems(codec, framing, s.chunks));
  }

  /** A pass keeps all units exactly if the picture has room, or there is nothing to look at. */
  lemma StepKeepsUnitsExactly(codec: Codec, framing: Framing, out: seq<Pic>, s: Flow)
    requires Invariant(codec, s) && s.pic.Some? && CleanFlow(codec, framing, s)
    ensures var r := Step(codec, framing, s);
            && !r.Astray? && CleanFlow(codec, framing, r.s)
            && (Held(codec, framing, out, r.s) == Held(codec, framing, out, s) <==> HasRoom(s))
  {
    hide Supply, Dispose, CleanFlow, Waiting, GroupsOf, Invariant, AllUnits, HeaderOpens, HeaderFirst, HeaderType;
    hide CutOf, Store, Emit, Moved;
    if HasRoom(s) {
      StepMoves(codec, framing, out, s);
      var t := Step(codec, framing, s).s;
      MovedKeeps(GroupsOf(out, s), Waiting(codec, framing, s), GroupsOf(out, t), Waiting(codec, framing, t),
                 EndsStream(s));
    } else if s.cur.None? || |s.cur.value.rest| < 5 {
      SupplyLooks(s);
      SupplyFeeds(codec, framing, out, s);
      SupplyKeepsInvariant(codec, s);
      DisposeLoses(codec, framing, out, Supply(s).s);
    } else {
      DisposeLoses(codec, framing, out, s);
    }
  }

  /** In the H.264 detector, whose every unit opens a picture, it always has. */
  lemma AvcHasRoom(s: Flow)
    requires Invariant(Avc, s)
    ensures HasRoom(s)
  {
    if s.pic.Some? {
      OneUnitOnly(s.pic.value.bytes, s.pic.value.nalus);
    }
  }

  lemma OneUnitOnly(b: seq<byte>, ns: seq<Nalu>)
    requires WellFormed(Avc, b, ns)
    ensures |ns| <= 1
  {
    assert |ns| > 1 ==> IsFirst(Avc, b, ns[0]) && Opens(Avc, b, ns[1]);
  }

  lemma {:induction false} AvcItemsAreFirst(framing: Framing, data: seq<byte>, spill: Spill)
    requires Clean(Avc, framing, data)
    ensures forall i :: 0 <= i < |Items(Avc, framing, data, spill)| ==> Items(Avc, framing, data, spill)[i].first
    decreases |data|
  {
    hide Items, Clean;
    if data == [] {
      NoItems(Avc, framing, spill);
    } else {
      var x, tail := Front(Avc, framing, data, spill);
      AvcItemsAreFirst(framing, tail, spill);
      FirstAndRest(x, Items(Avc, framing, tail, spill));
    }
  }

  lemma NoItems(codec: Codec, framing: Framing, spill: Spill)
    ensures Clean(codec, framing, []) && Items(codec, framing, [], spill) == []
  {
  }

  lemma FirstAndRest(x: Item, rest: seq<Item>)
    requires x.first && forall i :: 0 <= i < |rest| ==> rest[i].first
    ensures var xs := [x] + rest; forall i :: 0 <= i < |xs| ==> xs[i].first
  {
  }

  /** And every unit that waits for it is one that opens a picture. */
  lemma {:induction false} AvcWaitingAreFirst(framing: Framing, cs: seq<Chunk>)
    requires CleanChunks(Avc, framing, cs)
    ensures forall i :: 0 <= i < |ChunkItems(Avc, framing, cs)| ==> ChunkItems(Avc, framing, cs)[i].first
  {
    hide Items, Clean;
    if cs != [] {
      AvcItemsAreFirst(framing, cs[0].data, cs[0].spill);
      AvcWaitingAreFirst(framing, cs[1..]);
    }
  }

  // ----- the detectors' decision on the bytes of a unit

  /** The unit in front of what a pass looks at. */
  predicate Meets(codec: Codec, framing: Framing, s: Flow, u: seq<byte>) {
    && LookedAt(s).Some? && var c := LookedAt(s).value; var cut := CutOf(codec, framing, c);
       cut.Cut? && u == c.rest[cut.skip..cut.skip + cut.size]
  }

  /** A pass that meets a unit either ends the picture in front of it or stores it. */
  predicate EndsBefore(s: Flow, r: Outcome) {
    && r.Done? && s.pic.Some? && r.s.pic.None? && !r.s.found
    && |r.s.pics| == |s.pics| + 1 && r.s.pics[..|s.pics|] == s.pics
    && r.s.pics[|s.pics|].nalus == s.pic.value.nalus && r.s.pics[|s.pics|].ok == s.pic.value.ok
  }

  predicate Stores(s: Flow, r: Outcome, nType: nat, size: nat, found: bool) {
    && r.More? && s.pic.Some? && r.s.pic.Some? && r.s.pics == s.pics && r.s.found == found
    && var a, b := s.pic.value.nalus, r.s.pic.value.nalus;
       && |b| == |a| + 1 && b[..|a|] == a && b[|a|].nType == nType && b[|a|].size == size
  }

  lemma LookDecides(codec: Codec, framing: Framing, s: Flow)
    requires s.pic.Some? && s.cur.Some? && s.cur.value.rest != [] && CutOf(codec, framing, s.cur.value).Cut?
    requires UnitsSoFar(s) <= MAX_NALU_NUM_IN_FRAME
    ensures var c := s.cur.value; var cut := CutOf(codec, framing, c); var r := Look(codec, framing, s);
            if s.found && HeaderOpens(codec, c, cut.skip) then EndsBefore(s, r)
            else Stores(s, r, HeaderType(codec, c, cut.skip), cut.size, s.found || HeaderFirst(codec, c, cut.skip))
  {
    LookIs(codec, framing, s);
    hide CutOf, HeaderOpens, HeaderFirst, HeaderType, FirstKnown, Look;
  }

  lemma StepDecides(codec: Codec, framing: Framing, s: Flow, u: seq<byte>)
    requires s.pic.Some? && Meets(codec, framing, s, u) && UnitsSoFar(s) <= MAX_NALU_NUM_IN_FRAME
    ensures var c := LookedAt(s).value; var cut := CutOf(codec, framing, c); var r := Step(codec, framing, s);
            if s.found && HeaderOpens(codec, c, cut.skip) then EndsBefore(s, r)
            else Stores(s, r, HeaderType(codec, c, cut.skip), |u|, s.found || HeaderFirst(codec, c, cut.skip))
  {
    hide CutOf, HeaderOpens, HeaderFirst, HeaderType, Look, EndsBefore, Stores;
    if s.cur.Some? && |s.cur.value.rest| >= 5 {
      LookDecides(codec, framing, s);
    } else {
      SupplyLooks(s);
      var t := Supply(s).s;
      assert t.pics == s.pics && t.pic.value.nalus == s.pic.value.nalus && t.pic.value.ok == s.pic.value.ok;
      hide Supply;
      LookDecides(codec, framing, t);
      SameDecision(s, t, Look(codec, framing, t));
    }
  }

  lemma SameDecision(s: Flow, t: Flow, r: Outcome)
    requires s.pic.Some? && t.pic.Some? && t.pics == s.pics && t.found == s.found
    requires t.pic.value.nalus == s.pic.value.nalus && t.pic.value.ok == s.pic.value.ok
    ensures EndsBefore(t, r) == EndsBefore(s, r)
    ensures forall n, size, found :: Stores(t, r, n, size, found) == Stores(s, r, n, size, found)
  {
  }

  lemma HevcType(b: byte)
    ensures UnitType(Hevc, b) == b / 2 % 64
  {
  }

  /** The decision of an H.265 detector, on the bytes. */
  lemma HevcHeader(c: Cur, skip: nat, u: seq<byte>)
    requires |u| >= 3 && skip + |u| <= |c.rest| && u == c.rest[skip..skip + |u|]
    ensures var h := u[0] / 2 % 64;
            && HeaderType(Hevc, c, skip) == h && HeaderFirst(Hevc, c, skip) == (h <= 21 && u[2] >= 128)
            && HeaderOpens(Hevc, c, skip) ==
               (h == 32 || h == 33 || h == 34 || h == 35 || h == 39 || (h <= 21 && u[2] >= 128))
  {
    HeaderBytes(c, skip, u);
    HevcType(u[0]);
    hide UnitType;
  }

  lemma HeaderBytes(c: Cur, skip: nat, u: seq<byte>)
    requires |u| >= 3 && skip + |u| <= |c.rest| && u == c.rest[skip..skip + |u|]
    ensures (c.rest + c.spill)[skip] == u[0] && (c.rest + c.spill)[skip + 2] == u[2]
  {
    assert u[0] == c.rest[skip] && u[2] == c.rest[skip + 2];
  }

  /**
   Behind a first slice the H.265 detectors end the picture in front of a VPS, SPS, PPS, access unit delimiter or
   prefix SEI, and in front of another first slice; they store every other unit.
   */
  lemma HevcEndsExactly(framing: Framing, s: Flow, u: seq<byte>)
    requires s.pic.Some? && s.found && Meets(Hevc, framing, s, u) && |u| >= 3 && |s.pic.value.nalus| <= 1024
    ensures var r := Step(Hevc, framing, s); var h := u[0] / 2 % 64;
            if h == 32 || h == 33 || h == 34 || h == 35 || h == 39 || (h <= 21 && u[2] >= 128) then EndsBefore(s, r)
            else Stores(s, r, h, |u|, true)
  {
    StepDecides(Hevc, framing, s, u);
    HevcHeader(LookedAt(s).value, CutOf(Hevc, framing, LookedAt(s).value).skip, u);
    hide CutOf, Step, EndsBefore, Stores, HeaderType, HeaderFirst, HeaderOpens;
  }

  /** Before the first slice they store every unit, and look out for the flag in it. */
  lemma HevcStoresExactly(framing: Framing, s: Flow, u: seq<byte>)
    requires s.pic.Some? && !s.found && Meets(Hevc, framing, s, u) && |u| >= 3 && |s.pic.value.nalus| <= 1024
    ensures var h := u[0] / 2 % 64; Stores(s, Step(Hevc, framing, s), h, |u|, h <= 21 && u[2] >= 128)
  {
    StepDecides(Hevc, framing, s, u);
    HevcHeader(LookedAt(s).value, CutOf(Hevc, framing, LookedAt(s).value).skip, u);
    hide CutOf, Step, EndsBefore, Stores, HeaderType, HeaderFirst, HeaderOpens;
  }

  /** The H.264 detectors store one unit and end the picture in front of the next. */
  lemma AvcEndsExactly(framing: Framing, s: Flow, u: seq<byte>)
    requires s.pic.Some? && Meets(Avc, framing, s, u) && |u| >= 1 && |s.pic.value.nalus| <= 1024
    ensures var r := Step(Avc, framing, s);
            if s.found then EndsBefore(s, r) else Stores(s, r, u[0] % 32, |u|, true)
  {
    StepDecides(Avc, framing, s, u);
    var c := LookedAt(s).value;
    var skip := CutOf(Avc, framing, c).skip;
    assert (c.rest + c.spill)[skip] == c.rest[skip] == u[0];
    hide CutOf, Step, EndsBefore, Stores;
  }

  /** With nothing to look at a picture is complete exactly if it has a first slice and the stream has ended. */
  lemma EndOfDataExactly(codec: Codec, framing: Framing, s: Flow)
    requires s.pic.Some? && LookedAt(s).None?
    ensures var r := Step(codec, framing, s);
            if s.found && s.eos then EndsBefore(s, r) else r.Done? && r.s.pics == s.pics && r.s.pic.Some?
  {
    hide FirstKnown;
  }

  /**
   Without a unit to store, the chunk is counted to the picture; the picture is given up, marked invalid, if nothing
   but this chunk is in it or if it has got longer than a megabyte.
   */
  lemma GivesUpExactly(codec: Codec, framing: Framing, s: Flow)
    requires s.pic.Some? && LookedAt(s).Some?
    requires CutOf(codec, framing, LookedAt(s).value).NoUnit? || |s.pic.value.nalus| > 1024
    ensures var r := Step(codec, framing, s); var c := LookedAt(s).value; var p := s.pic.value;
            var left := if s.cur.Some? && |s.cur.value.rest| < 5 then s.cur.value.rest else [];
            var q := p.(bytes := p.bytes + left + c.rest);
            && r.Done? && r.s.cur.None? && r.s.found == s.found
            && if (c.whole && p.bytes + left == []) || |q.bytes| > 1048576
               then r.s.pic.None? && r.s.pics == s.pics + [q.(ok := false)]
               else r.s.pic == Some(q) && r.s.pics == s.pics
  {
    var t := StepGivesUp(codec, framing, s);
    DisposeIs(t);
    hide CutOf, Step, Dispose, LookedAt;
  }

  lemma StepGivesUp(codec: Codec, framing: Framing, s: Flow) returns (t: Flow)
    requires s.pic.Some? && LookedAt(s).Some?
    requires CutOf(codec, framing, LookedAt(s).value).NoUnit? || |s.pic.value.nalus| > 1024
    ensures t.pic.Some? && t.cur == LookedAt(s) && t.found == s.found && t.pics == s.pics
    ensures var left := if s.cur.Some? && |s.cur.value.rest| < 5 then s.cur.value.rest else [];
            t.pic == Some(s.pic.value.(bytes := s.pic.value.bytes + left))
    ensures Step(codec, framing, s) == Done(Dispose(t))
  {
    var none: seq<byte> := [];
    assert s.pic.value.bytes + none == s.pic.value.bytes;
    hide CutOf, Look, Dispose;
    if s.cur.Some? && |s.cur.value.rest| >= 5 {
      t := s;
    } else {
      SupplyLooks(s);
      SupplyAdds(s);
      hide Supply;
      t := Supply(s).s;
    }
    LookGivesUp(codec, framing, t);
  }

  lemma SupplyAdds(s: Flow)
    requires s.pic.Some? && (s.cur.None? || |s.cur.value.rest| < 5)
    ensures var t := Supply(s).s; var left := if s.cur.Some? then s.cur.value.rest else [];
            && t.pics == s.pics && t.found == s.found && t.pic.Some?
            && t.pic == Some(s.pic.value.(bytes := s.pic.value.bytes + left))
  {
    var none: seq<byte> := [];
    assert s.pic.value.bytes + none == s.pic.value.bytes;
  }

  lemma DisposeIs(s: Flow)
    requires s.pic.Some? && s.cur.Some?
    ensures var c := s.cur.value; var p := s.pic.value; var q := p.(bytes := p.bytes + c.rest);
            && Dispose(s).cur.None? && Dispose(s).found == s.found
            && if (c.whole && p.bytes == []) || |q.bytes| > 1048576
               then Dispose(s).pic.None? && Dispose(s).pics == s.pics + [q.(ok := false)]
               else Dispose(s).pic == Some(q) && Dispose(s).pics == s.pics
  {
  }

  lemma LookGivesUp(codec: Codec, framing: Framing, s: Flow)
    requires s.pic.Some? && s.cur.Some? && s.cur.value.rest != []
    requires CutOf(codec, framing, s.cur.value).NoUnit? || |s.pic.value.nalus| > 1024
    ensures Look(codec, framing, s) == Done(Dispose(s))
  {
    hide CutUnit, HeaderOpens, HeaderFirst, HeaderType, Emit, Store, Dispose;
  }

  // ----- what is in a picture

  /** Units carry the type in their header; and behind a first slice no unit is stored that opens a picture. */
  lemma PicturesByBytes(b: seq<byte>, ns: seq<Nalu>, j: nat, k: nat)
    requires WellFormed(Hevc, b, ns) && j < k < |ns| && ns[j].size >= 3 && ns[k].size >= 3
    ensures ns[j].off + ns[j].size < ns[k].off && ns[k].off + ns[k].size <= |b|
    ensures var h, g := b[ns[j].off] / 2 % 64, b[ns[k].off] / 2 % 64;
            && ns[j].nType == h && ns[k].nType == g
            && (h <= 21 && b[ns[j].off + 2] >= 128 ==>
                  g != 32 && g != 33 && g != 34 && g != 35 && g != 39 && !(g <= 21 && b[ns[k].off + 2] >= 128))
  {
    assert Sound(Hevc, b, ns[j]) && Sound(Hevc, b, ns[k]);
    HevcType(b[ns[j].off]);
    HevcType(b[ns[k].off]);
    hide UnitType;
  }

  // ----- where the lists of a stream are cut

  /** An H.265 unit that can only stand in front of a picture's first slice, or is one. */
  predicate OpensByBytes(u: seq<byte>) {
    |u| >= 3 && var h := u[0] / 2 % 64; (32 <= h <= 35 || h == 39 || (h <= 21 && u[2] >= 128))
  }

  predicate FirstByBytes(u: seq<byte>) {
    |u| >= 3 && u[0] / 2 % 64 <= 21 && u[2] >= 128
  }

  /** Unit k starts a new list: it opens a picture, and a first slice is among the units from i on. */
  ghost predicate CutAt(us: seq<seq<byte>>, i: nat, k: nat)
    requires i <= k < |us|
  {
    OpensByBytes(us[k]) && exists j :: i <= j < k && FirstByBytes(us[j])
  }

  /** The lists gs, one after the other, are the units from i on, cut exactly there. */
  ghost predicate CutFrom(us: seq<seq<byte>>, i: nat, gs: seq<seq<seq<byte>>>)
    requires i <= |us|
    decreases |gs|
  {
    if gs == [] then i == |us|
    else
      var n := i + |gs[0]|;
      && i < n <= |us| && gs[0] == us[i..n]
      && (forall k :: i <= k < n ==> !CutAt(us, i, k))
      && (n < |us| ==> CutAt(us, i, n))
      && CutFrom(us, n, gs[1..])
  }

  /** The lists of some groups, the one being gathered among them. */
  function Lists(g: Groups): seq<seq<seq<byte>>> {
    g.closed + if g.open == [] then [] else [g.open]
  }

  lemma CutCons(us: seq<seq<byte>>, i: nat, n: nat, gs: seq<seq<seq<byte>>>)
    requires i < n < |us| && CutAt(us, i, n) && CutFrom(us, n, gs) && forall k :: i <= k < n ==> !CutAt(us, i, k)
    ensures CutFrom(us, i, [us[i..n]] + gs)
  {
    assert ([us[i..n]] + gs)[1..] == gs;
  }

  lemma PlainByBytes(u: seq<byte>)
    requires |u| >= 3
    ensures SaysItself(Hevc, u) && Plain(Hevc, u).unit == u
    ensures Plain(Hevc, u).Opens() == OpensByBytes(u) && Plain(Hevc, u).first == FirstByBytes(u)
  {
    HevcType(u[0]);
    hide UnitType;
  }

  lemma {:induction false} FeedCuts(us: seq<seq<byte>>, i: nat, m: nat, g: Groups)
    requires i <= m <= |us| && AllSay(Hevc, us[m..]) && forall k :: 0 <= k < |us| ==> |us[k]| >= 3
    requires g.open == us[i..m] && g.found == exists j :: i <= j < m && FirstByBytes(us[j])
    requires forall k :: i <= k < m ==> !CutAt(us, i, k)
    ensures var r := FeedAll(g, PlainItems(Hevc, us[m..]));
            g.closed <= r.closed && CutFrom(us, i, Lists(r)[|g.closed|..])
    decreases |us| - m
  {
    hide SaysItself, Plain, OpensByBytes, FirstByBytes, CutAt;
    if m == |us| {
      assert us[m..] == [] && PlainItems(Hevc, us[m..]) == [];
      assert Lists(g)[|g.closed|..] == if i == m then [] else [us[i..m]];
      CutEnds(us, i);
    } else {
      var u := us[m];
      assert us[m..][0] == u && us[m..][1..] == us[m + 1..];
      PlainByBytes(u);
      var x, h := Plain(Hevc, u), Feed(g, Plain(Hevc, u));
      AllSayBehind(us, m);
      assert PlainItems(Hevc, us[m..]) == [x] + PlainItems(Hevc, us[m + 1..]);
      assert CutAt(us, i, m) <==> x.Opens() && g.found by { CutAtIs(us, i, m); }
      if x.Opens() && g.found {
        assert i < m;
        assert h.open == us[m..m + 1];
        NoCutAtStart(us, m);
        FeedCuts(us, m, m + 1, h);
        var r := FeedAll(h, PlainItems(Hevc, us[m + 1..]));
        assert Lists(r)[|g.closed|..] == [us[i..m]] + Lists(r)[|h.closed|..];
        CutCons(us, i, m, Lists(r)[|h.closed|..]);
      } else {
        assert h.open == us[i..m + 1];
        FeedCuts(us, i, m + 1, h);
      }
    }
  }

  lemma AllSayBehind(us: seq<seq<byte>>, m: nat)
    requires m < |us| && AllSay(Hevc, us[m..])
    ensures AllSay(Hevc, us[m + 1..])
  {
    hide SaysItself;
    var a, b := us[m..], us[m + 1..];
    forall k | 0 <= k < |b| ensures SaysItself(Hevc, b[k]) {
      assert b[k] == a[k + 1];
    }
  }

  lemma CutAtIs(us: seq<seq<byte>>, i: nat, k: nat)
    requires i <= k < |us|
    ensures CutAt(us, i, k) <==> OpensByBytes(us[k]) && exists j :: i <= j < k && FirstByBytes(us[j])
  {
  }

  lemma NoCutAtStart(us: seq<seq<byte>>, i: nat)
    requires i < |us|
    ensures !CutAt(us, i, i)
    ensures (exists j :: i <= j < i + 1 && FirstByBytes(us[j])) <==> FirstByBytes(us[i])
  {
  }

  lemma CutEnds(us: seq<seq<byte>>, i: nat)
    requires i <= |us| && forall k :: i <= k < |us| ==> !CutAt(us, i, k)
    ensures CutFrom(us, i, if i == |us| then [] else [us[i..]]) && us[i..|us|] == us[i..]
  {
    hide CutAt;
    if i < |us| {
      assert [us[i..]][1..] == [];
    }
  }

  /** Units that hold their headers are cut into lists by the bytes of those headers. */
  lemma GroupsAreCut(us: seq<seq<byte>>)
    requires forall k :: 0 <= k < |us| ==> |us[k]| >= 3
    ensures AllSay(Hevc, us) && CutFrom(us, 0, Lists(FeedAll(NO_GROUPS, PlainItems(Hevc, us))))
    ensures Lists(Close(FeedAll(NO_GROUPS, PlainItems(Hevc, us)))) == Lists(FeedAll(NO_GROUPS, PlainItems(Hevc, us)))
  {
    assert us[0..] == us;
    FeedCuts(us, 0, 0, NO_GROUPS);
    var g := FeedAll(NO_GROUPS, PlainItems(Hevc, us));
    assert Lists(g)[0..] == Lists(g);
    hide PlainItems;
    FoundHasUnits(NO_GROUPS, PlainItems(Hevc, us));
  }

  lemma {:induction false} FoundHasUnits(g: Groups, xs: seq<Item>)
    requires g.found ==> g.open != []
    ensures FeedAll(g, xs).found ==> FeedAll(g, xs).open != []
    decreases |xs|
  {
    if xs != [] {
      FoundHasUnits(Feed(g, xs[0]), xs[1..]);
    }
  }

  // ----- the time stamp of a picture

  /** stamps are the time stamps of the chunks in which the units of the picture being built lay; it has none yet. */
  predicate Stamped(s: Flow, stamps: seq<int>) {
    s.pic.Some? ==>
      && |stamps| == |s.pic.value.nalus| && s.pic.value.ok && s.pic.value.pts == -1
      && forall k :: 0 <= k < 10 ==> s.ptsList[k] == if k < |stamps| then stamps[k] else -1
  }

  lemma ClaimStamps(s: Flow)
    requires s.pic.None?
    ensures Stamped(Claim(s), [])
  {
  }

  /** The first known among the first ten, or none. */
  ghost predicate Earliest(pts: int, stamps: seq<int>) {
    if pts == -1 then forall k :: 0 <= k < |stamps| && k < 10 ==> stamps[k] == -1
    else exists k :: 0 <= k < |stamps| && k < 10 && stamps[k] == pts && forall j :: 0 <= j < k ==> stamps[j] == -1
  }

  lemma EarliestIs(list: PtsList, stamps: seq<int>)
    requires forall k :: 0 <= k < 10 ==> list[k] == if k < |stamps| then stamps[k] else -1
    ensures Earliest(FirstKnown(list), stamps)
  {
    var r := FirstKnown(list);
    if r != -1 {
      var k :| 0 <= k < |list| && list[k] == r && forall j :: 0 <= j < k ==> list[j] == -1;
      assert stamps[k] == r && forall j :: 0 <= j < k ==> list[j] == stamps[j];
    } else {
      assert forall k :: 0 <= k < |list| ==> list[k] == -1;
    }
    hide FirstKnown;
  }

  lemma EmitStamps(s: Flow, stamps: seq<int>)
    requires s.pic.Some? && Stamped(s, stamps)
    ensures Emit(s).pic.None? && |Emit(s).pics| == |s.pics| + 1 && Emit(s).pics[|s.pics|].ok
    ensures Earliest(Emit(s).pics[|s.pics|].pts, stamps)
  {
    EarliestIs(s.ptsList, stamps);
    hide FirstKnown, Earliest;
  }

  lemma LookStamps(codec: Codec, framing: Framing, s: Flow, stamps: seq<int>)
    requires s.pic.Some? && s.cur.Some? && s.cur.value.rest != [] && !Look(codec, framing, s).Astray?
    requires Stamped(s, stamps)
    ensures var r := Look(codec, framing, s);
            && (r.More? ==> Stamped(r.s, stamps + [s.cur.value.pts]))
            && (r.Done? && r.s.pic.Some? ==> Stamped(r.s, stamps))
            && (r.Done? && r.s.pic.None? ==> StampedLast(s, r.s, stamps))
  {
    hide CutOf, HeaderOpens, HeaderFirst, HeaderType, Emit, Earliest;
    EmitStamps(s, stamps);
  }

  /** The picture that t has more than s has its time stamp, or is given up and has none. */
  ghost predicate StampedLast(s: Flow, t: Flow, stamps: seq<int>) {
    && |t.pics| == |s.pics| + 1
    && var p := t.pics[|s.pics|]; if p.ok then Earliest(p.pts, stamps) else p.pts == -1
  }

  /**
   A finished picture has the first known time stamp among those of the chunks in which its first ten units lay:
   each pass that stores a unit notes the time stamp of the chunk it looks at, and one that ends the picture chooses.
   */
  lemma PassStamps(codec: Codec, framing: Framing, s: Flow, stamps: seq<int>)
    requires s.pic.Some? && Stamped(s, stamps) && !Step(codec, framing, s).Astray?
    ensures var r := Step(codec, framing, s);
            && (r.More? ==> LookedAt(s).Some? && Stamped(r.s, stamps + [if s.cur.Some? && |s.cur.value.rest| >= 5
                                                                        then s.cur.value.pts else s.chunks[0].pts]))
            && (r.Done? && r.s.pic.Some? ==> Stamped(r.s, stamps))
            && (r.Done? && r.s.pic.None? ==> StampedLast(s, r.s, stamps))
  {
    hide Look, Earliest, Emit;
    if s.cur.Some? && |s.cur.value.rest| >= 5 {
      LookStamps(codec, framing, s, stamps);
    } else {
      SupplyLooks(s);
      SupplyAdds(s);
      var t := Supply(s).s;
      assert t.ptsList == s.ptsList;
      hide Supply;
      if Supply(s).Fed? {
        LookStamps(codec, framing, t, stamps);
      } else {
        EmitStamps(t, stamps);
      }
    }
  }
}
