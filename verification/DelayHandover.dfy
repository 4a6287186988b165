/**
 What showing a delayed picture does to its record and which calls it makes on the frame
 buffer manager; and that frames a record stops owning are exactly those given back.
 */
module DelayHandover {
  import opened Common
  import opened DelayOrder
  import opened DelaySteps

  /** A call on one of the two frame buffer managers. */
  datatype Handover = Returned(scaled: bool, frame: nat, valid: bool) | Shared(frame: nat)

  datatype Config = Config(bDispErrorFrame: bool, bIs3DStream: bool, bScaledOutput: bool,
                           nBufIndexOffset: nat, nMaxValidFrmBufNum: nat)

  predicate Presentable(c: Config, p: PicInfo) {
    c.bDispErrorFrame || c.bIs3DStream || !p.bDecErrorFlag
  }

  // ----- how often a frame is owned, and how often it is given back

  /** A frame of the main or of the scaled-output manager. */
  datatype Frame = Frame(scaled: bool, frame: nat)

  function OwnedBy(p: PicInfo, f: Frame): nat {
    if (if f.scaled then p.pScaleDownVPicture else p.pVPicture) == Some(f.frame) then 1 else 0
  }

  function Owned(pics: seq<PicInfo>, f: Frame): nat {
    if pics == [] then 0 else Owned(pics[..|pics| - 1], f) + OwnedBy(pics[|pics| - 1], f)
  }

  function GivenBack(hs: seq<Handover>, f: Frame): nat {
    if hs == [] then 0
    else
      (if hs[0].Returned? && Frame(hs[0].scaled, hs[0].frame) == f then 1 else 0) + GivenBack(hs[1..], f)
  }

  lemma OwnedSnoc(pics: seq<PicInfo>, p: PicInfo, f: Frame)
    ensures Owned(pics + [p], f) == Owned(pics, f) + OwnedBy(p, f)
  {
    assert (pics + [p])[..|pics|] == pics;
  }

  lemma {:induction false} OwnedUpdate(pics: seq<PicInfo>, s: nat, p: PicInfo, f: Frame)
    requires s < |pics|
    ensures Owned(pics[s := p], f) + OwnedBy(pics[s], f) == Owned(pics, f) + OwnedBy(p, f)
    decreases |pics|
  {
    hide Owned, OwnedBy;
    var n := |pics| - 1;
    var most := pics[..n];
    assert pics == most + [pics[n]];
    OwnedSnoc(most, pics[n], f);
    if s < n {
      OwnedUpdate(most, s, p, f);
      assert pics[s := p] == most[s := p] + [pics[n]];
      OwnedSnoc(most[s := p], pics[n], f);
    } else {
      assert pics[s := p] == most + [p];
      OwnedSnoc(most, p, f);
    }
  }

  lemma {:induction false} GivenBackAppend(a: seq<Handover>, b: seq<Handover>, f: Frame)
    ensures GivenBack(a + b, f) == GivenBack(a, f) + GivenBack(b, f)
  {
    if a == [] {
      assert a + b == b;
    } else {
      assert (a + b)[1..] == a[1..] + b;
      GivenBackAppend(a[1..], b, f);
    }
  }

  lemma GivenBackOne(h: Handover, f: Frame)
    ensures GivenBack([h], f) == if h.Returned? && Frame(h.scaled, h.frame) == f then 1 else 0
    ensures GivenBack([], f) == 0
  {
    var none: seq<Handover> := [];
    assert [h][1..] == none;
  }

  // ----- showing the picture chosen while decoding goes on

  function Show(c: Config, p: PicInfo): (r: (PicInfo, seq<Handover>)) {
    var flag := Presentable(c, p);
    var q := p.(bHasDispedFlag := true, bDropBFrame := false);
    if c.bScaledOutput then
      var scaled := if p.pScaleDownVPicture.Some? then [Returned(true, p.pScaleDownVPicture.value, flag)] else [];
      if !IsReference(p) && p.pVPicture.Some?
      then (q.(pScaleDownVPicture := None, pVPicture := None, nReference := 0),
            scaled + [Returned(false, p.pVPicture.value, false)])
      else (q.(pScaleDownVPicture := None), scaled)
    else if !IsReference(p) then
      (q.(pVPicture := None, nReference := 0, bHasDispedFlag := false),
       if p.pVPicture.Some? then [Returned(false, p.pVPicture.value, flag)] else [])
    else (q, if flag && p.pVPicture.Some? then [Shared(p.pVPicture.value)] else [])
  }

  /** Showing gives back exactly the frames the record lets go of; a reference frame stays with the decoder. */
  lemma ShowConserves(c: Config, p: PicInfo, f: Frame)
    ensures var (q, hs) := Show(c, p);
            && OwnedBy(q, f) + GivenBack(hs, f) == OwnedBy(p, f)
            && q.nPoc == p.nPoc && q.bKeyFrame == p.bKeyFrame && q.nDispBufIndex == p.nDispBufIndex
            && (IsReference(p) ==> q.pVPicture == p.pVPicture)
  {
    var (q, hs) := Show(c, p);
    if |hs| == 2 {
      assert hs == [hs[0]] + [hs[1]];
      GivenBackAppend([hs[0]], [hs[1]], f);
      GivenBackOne(hs[0], f);
      GivenBackOne(hs[1], f);
    } else if |hs| == 1 {
      GivenBackOne(hs[0], f);
    }
  }

  /** The calls that put a frame on display. */
  predicate Displays(h: Handover) {
    match h
    case Returned(_, _, valid) => valid
    case Shared(_) => true
  }

  /**
   Which frame of a picture is displayed, and when: with scaled or turned output the scaled frame, and otherwise
   the picture's own, by a share if it stays as reference; unless the picture is in error and error pictures of a
   stream that is not 3D are not displayed. A frame that is not a reference goes back either way.
   */
  lemma ShowDisplays(c: Config, p: PicInfo, h: Handover)
    ensures var hs := Show(c, p).1;
            var fine := c.bDispErrorFrame || c.bIs3DStream || !p.bDecErrorFlag;
            var reference := p.nReference != 0 && p.nReference != 4;
            && (h in hs && Displays(h) <==>
                  && fine
                  && if c.bScaledOutput then
                       p.pScaleDownVPicture.Some? && h == Returned(true, p.pScaleDownVPicture.value, true)
                     else
                       p.pVPicture.Some?
                       && h == (if reference then Shared(p.pVPicture.value)
                                else Returned(false, p.pVPicture.value, true)))
            && (h in hs && !Displays(h) <==>
                  || (c.bScaledOutput && p.pScaleDownVPicture.Some? && !fine
                      && h == Returned(true, p.pScaleDownVPicture.value, false))
                  || (!reference && p.pVPicture.Some? && (c.bScaledOutput || !fine)
                      && h == Returned(false, p.pVPicture.value, false)))
            && |hs| <= 2
  {
  }

  /** What the record of a picture says after it has been shown. */
  lemma ShowLeaves(c: Config, p: PicInfo)
    ensures var q := Show(c, p).0; var reference := p.nReference != 0 && p.nReference != 4;
            var lets := !reference && (c.bScaledOutput ==> p.pVPicture.Some?);
            && q.nReference == (if lets then 0 else p.nReference)
            && q.pVPicture == (if lets then None else p.pVPicture)
            && q.pScaleDownVPicture == (if c.bScaledOutput then None else p.pScaleDownVPicture)
            && q.bHasDispedFlag == (c.bScaledOutput || reference) && !q.bDropBFrame
            && q.nPoc == p.nPoc && q.bKeyFrame == p.bKeyFrame && q.bDecErrorFlag == p.bDecErrorFlag
            && q.nDecodeBufIndex == p.nDecodeBufIndex && q.nDispBufIndex == p.nDispBufIndex
            && q.nDecFrameOrder == p.nDecFrameOrder
  {
  }

  // ----- a flush

  function HandOne(c: Config, p: PicInfo): (r: (PicInfo, seq<Handover>)) {
    if p.pScaleDownVPicture.Some? then
      (p.(pScaleDownVPicture := None), [Returned(true, p.pScaleDownVPicture.value, Presentable(c, p))])
    else if p.pVPicture.Some? then
      (p.(pVPicture := None), [Returned(false, p.pVPicture.value, Presentable(c, p))])
    else (p, [])
  }

  lemma HandOneConserves(c: Config, p: PicInfo, f: Frame)
    ensures var (q, hs) := HandOne(c, p);
            && OwnedBy(q, f) + GivenBack(hs, f) == OwnedBy(p, f)
            && q.nPoc == p.nPoc && q.bKeyFrame == p.bKeyFrame && q.nDispBufIndex == p.nDispBufIndex
  {
    var (q, hs) := HandOne(c, p);
    if |hs| == 1 {
      GivenBackOne(hs[0], f);
    }
  }

  /** A flush hands over the scaled frame if there is one, or else the picture's own; valid if it may be displayed. */
  lemma HandOneDisplays(c: Config, p: PicInfo)
    ensures var (q, hs) := HandOne(c, p); var fine := c.bDispErrorFrame || c.bIs3DStream || !p.bDecErrorFlag;
            && hs == (if p.pScaleDownVPicture.Some? then [Returned(true, p.pScaleDownVPicture.value, fine)]
                      else if p.pVPicture.Some? then [Returned(false, p.pVPicture.value, fine)] else [])
            && q.pScaleDownVPicture == None
            && q.pVPicture == if p.pScaleDownVPicture.Some? then p.pVPicture else None
  {
  }

  function HandAll(c: Config, pics: seq<PicInfo>, order: seq<nat>): (r: (seq<PicInfo>, seq<Handover>))
    requires Inside(pics, order)
    ensures |r.0| == |pics|
    decreases |order|
  {
    if order == [] then (pics, [])
    else
      var (q, hs) := HandOne(c, pics[order[0]]);
      var (after, rest) := HandAll(c, pics[order[0] := q], order[1..]);
      (after, hs + rest)
  }

  /** What is left in a record goes back undisplayed. */
  function Drop(p: PicInfo): (r: (PicInfo, seq<Handover>)) {
    (p.(pVPicture := None, pScaleDownVPicture := None, nReference := 0, nDecFrameOrder := 0),
     (if p.pVPicture.Some? then [Returned(false, p.pVPicture.value, false)] else []) +
     (if p.pScaleDownVPicture.Some? then [Returned(true, p.pScaleDownVPicture.value, false)] else []))
  }

  lemma DropConserves(p: PicInfo, f: Frame)
    ensures var (q, hs) := Drop(p); OwnedBy(q, f) == 0 && GivenBack(hs, f) == OwnedBy(p, f)
  {
    var plain := if p.pVPicture.Some? then [Returned(false, p.pVPicture.value, false)] else [];
    var scaled := if p.pScaleDownVPicture.Some? then [Returned(true, p.pScaleDownVPicture.value, false)] else [];
    GivenBackAppend(plain, scaled, f);
    if plain != [] {
      GivenBackOne(plain[0], f);
    }
    if scaled != [] {
      GivenBackOne(scaled[0], f);
    }
  }

  /** None of it is displayed. */
  lemma DropDisplaysNone(p: PicInfo, h: Handover)
    ensures h in Drop(p).1 ==> !Displays(h)
    ensures Drop(p).0.nReference == 0 && Drop(p).0.nDecFrameOrder == 0
  {
  }

  /** Slots lo up to hi, in order. */
  function DropAll(pics: seq<PicInfo>, lo: nat, hi: nat): (r: (seq<PicInfo>, seq<Handover>))
    requires lo <= hi <= |pics|
    ensures |r.0| == |pics|
  {
    if lo == hi then (pics, [])
    else
      var (before, hs) := DropAll(pics, lo, hi - 1);
      var (q, h) := Drop(before[hi - 1]);
      (before[hi - 1 := q], hs + h)
  }

  lemma {:induction false} DropAllConserves(pics: seq<PicInfo>, lo: nat, hi: nat, f: Frame)
    requires lo <= hi <= |pics|
    ensures var (after, hs) := DropAll(pics, lo, hi);
            Owned(after, f) + GivenBack(hs, f) == Owned(pics, f)
  {
    hide Drop, Owned, OwnedBy, GivenBack;
    if lo < hi {
      DropAllConserves(pics, lo, hi - 1, f);
      var (before, hs) := DropAll(pics, lo, hi - 1);
      var (q, h) := Drop(before[hi - 1]);
      DropConserves(before[hi - 1], f);
      OwnedUpdate(before, hi - 1, q, f);
      GivenBackAppend(hs, h, f);
    } else {
      NoneGivenBack(f);
    }
  }

  lemma NoneGivenBack(f: Frame)
    ensures GivenBack([], f) == 0
  {
  }

  lemma {:induction false} DropAllClears(pics: seq<PicInfo>, lo: nat, hi: nat, i: nat)
    requires lo <= hi <= |pics| && i < |pics|
    ensures DropAll(pics, lo, hi).0[i] == if lo <= i < hi then Drop(pics[i]).0 else pics[i]
  {
    hide Drop;
    if lo < hi {
      DropAllClears(pics, lo, hi - 1, i);
      DropAllClears(pics, lo, hi - 1, hi - 1);
    }
  }

  // ----- a flush of a list that holds each record once

  /** Handing over changes neither order counts nor key-frame flags, and no picture of an entry that still waits. */
  ghost predicate SameWaiting(pics: seq<PicInfo>, now: seq<PicInfo>, l: seq<nat>)
    requires Inside(pics, l)
  {
    && |pics| == |now|
    && (forall i :: 0 <= i < |pics| ==> pics[i].nPoc == now[i].nPoc && pics[i].bKeyFrame == now[i].bKeyFrame)
    && (forall i :: 0 <= i < |l| ==> HasFrame(now[l[i]]) == HasFrame(pics[l[i]]))
  }

  lemma {:induction false} SameFirstOwned(pics: seq<PicInfo>, now: seq<PicInfo>, l: seq<nat>, n: nat)
    requires Inside(pics, l) && SameWaiting(pics, now, l) && 0 < n <= |l|
    ensures FirstOwned(pics, l, n) == FirstOwned(now, l, n) && Gap(pics, l, n) == Gap(now, l, n)
  {
    if n > 1 {
      SameFirstOwned(pics, now, l, n - 1);
    }
  }

  lemma {:induction false} SamePiece(pics: seq<PicInfo>, now: seq<PicInfo>, l: seq<nat>)
    requires Inside(pics, l) && SameWaiting(pics, now, l) && l != []
    ensures Piece(pics, l) == Piece(now, l)
  {
    if |l| > 1 && !pics[l[1]].bKeyFrame {
      assert SameWaiting(pics, now, l[1..]);
      SamePiece(pics, now, l[1..]);
    }
  }

  /** A round sees the same list as at the start. */
  lemma SameRound(pics: seq<PicInfo>, now: seq<PicInfo>, l: seq<nat>)
    requires Inside(pics, l) && SameWaiting(pics, now, l) && l != []
    ensures Inside(now, l) && Taken(now, l) == Taken(pics, l) && Left(now, l) == Left(pics, l)
  {
    SamePiece(pics, now, l);
    SameFirstOwned(pics, now, l, Piece(pics, l));
    hide Piece, FirstOwned, Gap, Without, SameWaiting;
  }

  lemma KeptIs(l: seq<nat>, kept: seq<nat>, k: nat)
    requires Distinct(l) && kept <= l && k < |l|
    ensures var r := if k < |kept| then Without(kept, k) else kept;
            Distinct(r) && forall i :: 0 <= i < |r| ==> r[i] in l && r[i] != l[k]
  {
    var r := if k < |kept| then Without(kept, k) else kept;
    forall i | 0 <= i < |r| ensures r[i] == l[if i < k then i else i + if k < |kept| then 1 else 0] {
      assert kept[if i < k then i else i + if k < |kept| then 1 else 0] == r[i];
    }
  }

  /** What a round leaves are entries of the list other than the one taken out, each once. */
  lemma LeftIs(pics: seq<PicInfo>, l: seq<nat>)
    requires Inside(pics, l) && l != [] && Distinct(l)
    ensures var r, k := Left(pics, l), Taken(pics, l);
            Distinct(r) && forall i :: 0 <= i < |r| ==> r[i] in l && r[i] != l[k]
  {
    hide Piece, FirstOwned, Gap, Distinct, Without;
    var h := Gap(pics, l, Piece(pics, l));
    KeptIs(l, if h == Piece(pics, l) then l else l[..h], Taken(pics, l));
  }

  lemma SameAfter(pics: seq<PicInfo>, now: seq<PicInfo>, l: seq<nat>, r: seq<nat>, s: nat, q: PicInfo)
    requires Inside(pics, l) && Inside(pics, r) && SameWaiting(pics, now, l) && s < |now|
    requires q.nPoc == now[s].nPoc && q.bKeyFrame == now[s].bKeyFrame
    requires forall i :: 0 <= i < |r| ==> r[i] in l && r[i] != s
    ensures SameWaiting(pics, now[s := q], r)
  {
  }

  lemma HandCons(c: Config, now: seq<PicInfo>, s: nat, order: seq<nat>)
    requires s < |now| && Inside(now, order)
    ensures var (q, hs) := HandOne(c, now[s]); var (after, rest) := HandAll(c, now[s := q], order);
            Inside(now, [s] + order) && HandAll(c, now, [s] + order) == (after, hs + rest)
  {
    hide HandOne;
    assert ([s] + order)[1..] == order;
  }

  /** One round: the entry handed over is the first of the order, and what is left waits as before. */
  lemma HandStep(c: Config, pics: seq<PicInfo>, now: seq<PicInfo>, l: seq<nat>)
    requires Inside(pics, l) && SameWaiting(pics, now, l) && l != [] && Distinct(l)
    ensures var s := l[Taken(pics, l)]; var rest := Left(pics, l);
            var (q, hs) := HandOne(c, now[s]); var later := now[s := q];
            && SameWaiting(pics, later, rest) && Distinct(rest)
            && HandAll(c, now, FlushOrder(pics, l))
               == (HandAll(c, later, FlushOrder(pics, rest)).0, hs + HandAll(c, later, FlushOrder(pics, rest)).1)
  {
    assert |now| == |pics|;
    hide Taken, Left, HandAll, HandOne, Distinct, SameWaiting;
    var s, rest := l[Taken(pics, l)], Left(pics, l);
    LeftIs(pics, l);
    HandOneConserves(c, now[s], Frame(false, 0));
    SameAfter(pics, now, l, rest, s, HandOne(c, now[s]).0);
    HandCons(c, now, s, FlushOrder(pics, rest));
  }
}
