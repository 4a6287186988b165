/**
 The H.264 delay list in place: an array of record indices, NULL behind the last one,
 scanned, compacted and emptied as the decoder goes.
 */
module DelayedPictures {
  import opened Common
  import opened DelayOrder
  import opened DelaySteps
  import opened DelayHandover

  const NULL := -1

  /** How a call ends: the program may call abort, or read through a picture it has not found. */
  datatype Ending = Finished | Aborted | Crashed

  /** The initial value of an index into the list: none found. */
  const NOWHERE := 0xff

  class DelayedPictures {
    const picture: array<PicInfo>
    const pDelayedPic: array<int>
    var nDelayedPicNum: nat
    var nMinDispPoc: int
    var pDelayedOutPutPic: int
    var pCurPicturePtr: int
    var handovers: seq<Handover>

    ghost predicate Sized() {
      picture.Length == MAX_PICTURE_COUNT && pDelayedPic.Length == MAX_PICTURE_COUNT
    }

    /** Record indices first, then NULL: no holes. */
    ghost predicate Compact()
      reads this`nDelayedPicNum, pDelayedPic
    {
      && Sized() && nDelayedPicNum < MAX_PICTURE_COUNT && pDelayedPic[nDelayedPicNum] == NULL
      && forall i :: 0 <= i < nDelayedPicNum ==> 0 <= pDelayedPic[i] < MAX_PICTURE_COUNT
    }

    ghost function List(): (l: seq<nat>)
      reads this`nDelayedPicNum, pDelayedPic
      requires Compact()
      ensures |l| == nDelayedPicNum && forall i :: 0 <= i < |l| ==> l[i] == pDelayedPic[i] && l[i] < MAX_PICTURE_COUNT
    {
      pDelayedPic[..nDelayedPicNum]
    }

    ghost function LastOut(): Option<nat>
      reads this`pDelayedOutPutPic
    {
      if pDelayedOutPutPic >= 0 then Some(pDelayedOutPutPic) else None
    }

    ghost function Value(): Delay
      reads this, pDelayedPic
      requires Compact()
    {
      Delay(List(), nMinDispPoc, LastOut())
    }

    constructor ()
      ensures Compact() && Value() == Delay([], 0, None) && pCurPicturePtr == NULL && handovers == []
      ensures fresh(picture) && fresh(pDelayedPic)
      ensures forall i :: 0 <= i < picture.Length ==> picture[i].nDispBufIndex == i
    {
      picture := new PicInfo[MAX_PICTURE_COUNT](i =>
        PicInfo(0, false, 0, None, None, false, false, false, if i < 0 then 0 else i, if i < 0 then 0 else i, 0));
      pDelayedPic := new int[MAX_PICTURE_COUNT](_ => NULL);
      nDelayedPicNum, nMinDispPoc, pDelayedOutPutPic, pCurPicturePtr, handovers := 0, 0, NULL, NULL, [];
    }

    // ----- a decoded picture joins

    /** The current picture goes behind the last entry. */
    method AppendCurrent(cur: nat)
      requires Compact() && cur < MAX_PICTURE_COUNT && nDelayedPicNum + 1 < MAX_PICTURE_COUNT
      modifies this`nDelayedPicNum, this`pCurPicturePtr, pDelayedPic
      ensures Compact() && List() == old(List()) + [cur] && pCurPicturePtr == NULL
    {
      pDelayedPic[nDelayedPicNum] := cur;
      pDelayedPic[nDelayedPicNum + 1] := NULL;
      nDelayedPicNum := nDelayedPicNum + 1;
      pCurPicturePtr := NULL;
    }

    /** A record that lent its decoder slot to the current picture is emptied. */
    method ClearDecodeSlot(cur: nat)
      requires Sized() && cur < picture.Length && picture[cur].nDecodeBufIndex < MAX_PICTURE_COUNT
      modifies picture
      ensures picture[..] == Unlent(old(picture[..]), cur)
    {
      if picture[cur].nDecodeBufIndex != picture[cur].nDispBufIndex {
        var lent := picture[cur].nDecodeBufIndex;
        picture[lent] := picture[lent].(pVPicture := None);
        picture[lent] := picture[lent].(pScaleDownVPicture := None);
        picture[lent] := picture[lent].(nReference := 0);
      }
    }

    /** One pass over the list: the entry to take out, the least entry, and how many are references. */
    method Scan() returns (delayedBufIndex: nat, anciDelayedBufIndex: nat, minPoc: int, nonRefFrameNum: nat,
                           refFrameNum: nat)
      requires Compact() && nDelayedPicNum > 0
      ensures Inside(picture[..], List())
      ensures delayedBufIndex ==
              Seen(picture[..], List(), First(picture[..], List(), HeadRun(picture[..], List(), nMinDispPoc)))
      ensures anciDelayedBufIndex == Seen(picture[..], List(), First(picture[..], List(), nDelayedPicNum))
      ensures minPoc == picture[pDelayedPic[First(picture[..], List(), nDelayedPicNum)]].nPoc
      ensures nonRefFrameNum == 0 <==> AllReference(picture[..], List())
      ensures nonRefFrameNum + refFrameNum == nDelayedPicNum
    {
      hide First, ResetAt, Seen;
      ghost var pics, l := picture[..], List();
      assert Inside(pics, l);
      minPoc, delayedBufIndex, anciDelayedBufIndex := MAX_POC, NOWHERE, NOWHERE;
      nonRefFrameNum, refFrameNum := 0, 0;
      var findDispFlag := false;
      var i := 0;
      while i < nDelayedPicNum
        invariant 0 <= i <= |l| && nonRefFrameNum + refFrameNum == i
        invariant nonRefFrameNum == 0 <==> forall j :: 0 <= j < i ==> IsReference(pics[l[j]])
        invariant Scanned(pics, l, nMinDispPoc, i, findDispFlag, delayedBufIndex, anciDelayedBufIndex, minPoc)
      {
        assert pDelayedPic[i] == l[i] && picture[pDelayedPic[i]] == pics[l[i]];
        ScanStep(pics, l, nMinDispPoc, i, findDispFlag, delayedBufIndex, anciDelayedBufIndex, minPoc);
        if picture[pDelayedPic[i]].nReference == 0 || picture[pDelayedPic[i]].nReference == 4 {
          nonRefFrameNum := nonRefFrameNum + 1;
        } else {
          refFrameNum := refFrameNum + 1;
        }
        if picture[pDelayedPic[i]].nPoc < minPoc {
          minPoc := picture[pDelayedPic[i]].nPoc;
          anciDelayedBufIndex := i;
          if !findDispFlag {
            if picture[pDelayedPic[i]].nPoc <= nMinDispPoc && i != 0 {
              findDispFlag := true;
            } else {
              delayedBufIndex := i;
            }
          }
        }
        i := i + 1;
      }
    }

    /** Moves the entries behind k one place down. */
    method ShiftDown(k: nat, n: nat)
      requires Sized() && k < n < MAX_PICTURE_COUNT
      modifies pDelayedPic
      ensures forall j :: 0 <= j < MAX_PICTURE_COUNT ==>
                pDelayedPic[j] == old(pDelayedPic[if k <= j < n then j + 1 else j])
    {
      var i := k;
      while i < n
        invariant k <= i <= n
        invariant forall j :: 0 <= j < MAX_PICTURE_COUNT ==>
                  pDelayedPic[j] == old(pDelayedPic[if k <= j < i then j + 1 else j])
      {
        pDelayedPic[i] := pDelayedPic[i + 1];
        i := i + 1;
      }
    }

    /** Takes entry k out and closes the gap. */
    method Remove(k: nat)
      requires Compact() && k < nDelayedPicNum
      modifies this`nDelayedPicNum, pDelayedPic
      ensures Compact() && List() == Without(old(List()), k)
    {
      ShiftDown(k, nDelayedPicNum);
      pDelayedPic[nDelayedPicNum] := NULL;
      nDelayedPicNum := nDelayedPicNum - 1;
    }

    /** The record, and the array slot it is shown from, let go of the scaled frame. */
    method ForgetScaled(out: nat)
      requires Sized() && out < picture.Length && picture[out].nDispBufIndex == out
      modifies picture
      ensures picture[..] == old(picture[..])[out := old(picture[out]).(pScaleDownVPicture := None)]
    {
      var slot := picture[out].nDispBufIndex;
      picture[slot] := picture[slot].(pScaleDownVPicture := None);
      picture[out] := picture[out].(pScaleDownVPicture := None);
    }

    method ForgetMain(out: nat)
      requires Sized() && out < picture.Length && picture[out].nDispBufIndex == out
      modifies picture
      ensures picture[..] == old(picture[..])[out := old(picture[out]).(pVPicture := None)]
    {
      var slot := picture[out].nDispBufIndex;
      picture[slot] := picture[slot].(pVPicture := None);
      picture[out] := picture[out].(pVPicture := None);
    }

    /** A picture with scaled output goes out by its scaled frame; the other stays if it is a reference. */
    method ShowScaled(out: nat, bDispFrameFlag: bool)
      requires Sized() && out < picture.Length && picture[out].nDispBufIndex == out
      modifies this`handovers, picture
      ensures var p := old(picture[out]); var q := p.(pScaleDownVPicture := None);
              var scaled := if p.pScaleDownVPicture.None? then []
                            else [Returned(true, p.pScaleDownVPicture.value, bDispFrameFlag)];
              if !IsReference(p) && p.pVPicture.Some? then
                && picture[..] == old(picture[..])[out := q.(pVPicture := None, nReference := 0)]
                && handovers == old(handovers) + (scaled + [Returned(false, p.pVPicture.value, false)])
              else picture[..] == old(picture[..])[out := q] && handovers == old(handovers) + scaled
    {
      FbmReturnBuffer(true, picture[out].pScaleDownVPicture, bDispFrameFlag);
      ForgetScaled(out);
      if (picture[out].nReference == 0 || picture[out].nReference == 4) && picture[out].pVPicture.Some? {
        FbmReturnBuffer(false, picture[out].pVPicture, false);
        ForgetMain(out);
        picture[out] := picture[out].(nReference := 0);
      }
    }

    /** Hands the chosen picture to the display. */
    method ShowPicture(c: Config, out: nat)
      requires Sized() && out < picture.Length && picture[out].nDispBufIndex == out
      modifies this`handovers, picture
      ensures var (q, hs) := DelayHandover.Show(c, old(picture[out]));
              picture[..] == old(picture[..])[out := q.(bDropBFrame := old(picture[out]).bDropBFrame)]
              && handovers == old(handovers) + hs
    {
      picture[out] := picture[out].(bHasDispedFlag := true);
      var bDispFrameFlag := true;
      if !c.bDispErrorFrame {
        bDispFrameFlag := if !c.bIs3DStream then !picture[out].bDecErrorFlag else true;
      }
      if c.bScaledOutput {
        ShowScaled(out, bDispFrameFlag);
      } else if picture[out].nReference == 0 || picture[out].nReference == 4 {
        FbmReturnBuffer(false, picture[out].pVPicture, bDispFrameFlag);
        ForgetMain(out);
        picture[out] := picture[out].(nReference := 0, bHasDispedFlag := false);
      } else if bDispFrameFlag {
        if picture[out].pVPicture.Some? {
          handovers := handovers + [Shared(picture[out].pVPicture.value)];
        }
      }
    }

    /** Without a frame the call has no effect. */
    method FbmReturnBuffer(scaled: bool, frame: Option<nat>, valid: bool)
      modifies this`handovers
      ensures handovers == old(handovers) + if frame.Some? then [Returned(scaled, frame.value, valid)] else []
    {
      if frame.Some? {
        handovers := handovers + [Returned(scaled, frame.value, valid)];
      }
    }

    /** Whether the chosen picture may be shown now; the entry shown may be another one. */
    method Judge(v: Stream) returns (verdict: Verdict, delayedBufIndex: nat, crashed: bool)
      requires Compact() && nDelayedPicNum > 0
      ensures Inside(picture[..], List())
      ensures crashed <==> pDelayedOutPutPic >= 0 && Undecided(picture[..], List(), nMinDispPoc)
      ensures !crashed ==>
                var k := Choose(picture[..], List(), nMinDispPoc, pDelayedOutPutPic >= 0);
                && verdict == Decide(picture[..], List(), k, nMinDispPoc, pDelayedOutPutPic >= 0, v)
                && delayedBufIndex == if Undecided(picture[..], List(), nMinDispPoc) then NOWHERE else k
    {
      hide First, ResetAt, HeadRun, AllReference;
      ghost var pics, l := picture[..], List();
      var anciDelayedBufIndex, minPoc, nonRefFrameNum, refFrameNum;
      delayedBufIndex, anciDelayedBufIndex, minPoc, nonRefFrameNum, refFrameNum := Scan();
      verdict, crashed := if delayedBufIndex == NOWHERE then Hold else Verdict.Show, false;
      if pDelayedOutPutPic >= 0 {
        if delayedBufIndex == NOWHERE {
          crashed := true;
          return;
        }
        if picture[pDelayedPic[delayedBufIndex]].nPoc == 0 {
          if minPoc < 0 {
            delayedBufIndex := anciDelayedBufIndex;
          }
        }
        var out := picture[pDelayedPic[delayedBufIndex]];
        var flag2 := out.nPoc == 0;
        var flag3 := out.nPoc - nMinDispPoc == v.nPicPocDeltaNum;
        if !flag2 && !flag3 && nonRefFrameNum == 0 {
          var flag4 := out.nPoc - nMinDispPoc < 0;
          var flag5 := out.nPoc - nMinDispPoc > 32;
          if !flag4 && !flag5 {
            if out.pScaleDownVPicture.Some? {
              return Hold, delayedBufIndex, false;
            } else if refFrameNum <= v.nRefFrmCount {
              return Hold, delayedBufIndex, false;
            }
          } else {
            return Resync, delayedBufIndex, false;
          }
        }
        if flag3 && v.nCurFrmNum == 2 && v.nPicPocDeltaNum == 2 && v.nRefFrmCount > 1 && !out.bDropBFrame {
          return Hold, delayedBufIndex, false;
        }
      }
    }

    /** Shows entry k and takes it out. */
    method Emit(c: Config, k: nat)
      requires Compact() && k < nDelayedPicNum && picture[pDelayedPic[k]].nDispBufIndex == pDelayedPic[k]
      modifies this`handovers, this`nDelayedPicNum, this`nMinDispPoc, this`pDelayedOutPutPic, picture, pDelayedPic
      ensures Compact()
      ensures var out := old(List())[k]; var p := old(picture[..])[out];
              && Value() == Delay(Without(old(List()), k), p.nPoc, Some(out))
              && picture[..] == old(picture[..])[out := DelayHandover.Show(c, p).0]
              && handovers == old(handovers) + DelayHandover.Show(c, p).1
    {
      hide DelayHandover.Show;
      var out := pDelayedPic[k];
      ghost var p := picture[out];
      ShowPicture(c, out);
      ShowDetails(c, p);
      Remove(k);
      nMinDispPoc := picture[out].nPoc;
      pDelayedOutPutPic := out;
      if picture[out].bDropBFrame {
        picture[out] := picture[out].(bDropBFrame := false);
      }
    }

    /**
     A decoded picture joins the list, and at most one picture leaves it for the display. The program aborts
     exactly if the list is full, and otherwise crashes exactly if nothing is chosen although a picture was shown.
     */
    method SortDisplayFrameOrder(c: Config, v: Stream) returns (ending: Ending)
      requires Compact() && 0 <= pCurPicturePtr < MAX_PICTURE_COUNT
      requires picture[pCurPicturePtr].nDecodeBufIndex < MAX_PICTURE_COUNT
      requires forall i :: 0 <= i < picture.Length ==> picture[i].nDispBufIndex == i
      modifies this, picture, pDelayedPic
      ensures ending == Aborted <==> old(nDelayedPicNum) + 1 >= 32
      ensures Inside(Unlent(old(picture[..]), old(pCurPicturePtr)), old(List()))
      ensures ending != Aborted ==>
                var pics := Unlent(old(picture[..]), old(pCurPicturePtr));
                ending == Crashed <==> Crashes(pics, old(Value()), old(pCurPicturePtr))
      ensures ending == Finished ==> Compact() && pCurPicturePtr == NULL
      ensures ending == Finished ==>
                var pics := Unlent(old(picture[..]), old(pCurPicturePtr));
                var (d, out) := Join(pics, old(Value()), old(pCurPicturePtr), v);
                && Value() == d
                && (out.None? ==> picture[..] == pics && handovers == old(handovers))
                && (out.Some? ==>
                      && out.value < |pics|
                      && picture[..] == pics[out.value := DelayHandover.Show(c, pics[out.value]).0]
                      && handovers == old(handovers) + DelayHandover.Show(c, pics[out.value]).1)
    {
      hide First, ResetAt, HeadRun, AllReference, Choose, Decide, Undecided, DelayHandover.Show;
      var cur := pCurPicturePtr;
      ClearDecodeSlot(cur);
      ghost var pics, l := picture[..], List();
      if nDelayedPicNum + 1 >= MAX_PICTURE_COUNT {
        return Aborted;
      }
      AppendCurrent(cur);
      var verdict, delayedBufIndex, crashed := Judge(v);
      if crashed {
        return Crashed;
      }
      if Undecided(picture[..], List(), nMinDispPoc) {
        HoldsUndecided(picture[..], List(), nMinDispPoc, pDelayedOutPutPic >= 0, v);
      }
      if verdict == Hold {
        return Finished;
      }
      var out := pDelayedPic[delayedBufIndex];
      if verdict == Resync {
        nMinDispPoc := picture[out].nPoc - v.nPicPocDeltaNum;
        return Finished;
      }
      Emit(c, delayedBufIndex);
      return Finished;
    }

    // ----- the end of the stream: the list is emptied

    /** Slot e of the index array is NULL, and those before it are NULL or a record. */
    ghost predicate Slots(e: nat)
      reads pDelayedPic
    {
      && Sized() && e < MAX_PICTURE_COUNT && pDelayedPic[e] == NULL
      && forall i :: 0 <= i < e ==> pDelayedPic[i] == NULL || 0 <= pDelayedPic[i] < MAX_PICTURE_COUNT
    }

    /** The list as a flush sees it: the entries before the first NULL, each record once. */
    ghost predicate Listed(l: seq<nat>)
      reads pDelayedPic
    {
      && Sized() && |l| < MAX_PICTURE_COUNT && pDelayedPic[|l|] == NULL && pDelayedPic[..|l|] == l
      && (forall i :: 0 <= i < |l| ==> l[i] < MAX_PICTURE_COUNT) && Distinct(l)
    }

    /**
     Looks for the first least entry before the next key frame. An entry that owns no picture
     any more is struck out on the way, and so ends the list there.
     */
    method ScanPiece(ghost e: nat, ghost l: seq<nat>, ghost ready: bool) returns (out: nat, outIdx: nat)
      requires Slots(e) && pDelayedPic[0] != NULL
      requires ready ==> Listed(l)
      modifies pDelayedPic
      ensures Slots(e) && outIdx < e && pDelayedPic[outIdx] == out
      ensures ready ==>
                && l != [] && Inside(picture[..], l) && outIdx == Taken(picture[..], l) && out == l[outIdx]
                && StruckOut(picture[..], l, Piece(picture[..], l), old(pDelayedPic[..]), pDelayedPic[..])
    {
      hide FirstOwned, Piece, Distinct;
      ghost var pics, was := picture[..], pDelayedPic[..];
      out, outIdx := pDelayedPic[0], 0;
      var i := 1;
      if ready {
        ReadList(l);
        FirstOne(pics, l);
      }
      while pDelayedPic[i] != NULL && !picture[pDelayedPic[i]].bKeyFrame
        invariant 1 <= i <= e && outIdx < i && pDelayedPic[outIdx] == out && Slots(e)
        invariant ready ==>
                    && i <= |l| && outIdx == FirstOwned(pics, l, i) && out == l[outIdx]
                    && (forall j :: 1 <= j < i ==> !pics[l[j]].bKeyFrame)
                    && StruckOut(pics, l, i, was, pDelayedPic[..])
        decreases e - i
      {
        if ready {
          assert was[i] == pDelayedPic[i] && i < |l|;
          FirstNext(pics, l, i);
        }
        if picture[pDelayedPic[i]].pVPicture.None? && picture[pDelayedPic[i]].pScaleDownVPicture.None? {
          pDelayedPic[i] := NULL;
        } else if picture[pDelayedPic[i]].nPoc < picture[out].nPoc {
          out := pDelayedPic[i];
          outIdx := i;
        }
        i := i + 1;
      }
      if ready {
        PieceUnique(pics, l, i);
      }
    }

    lemma ReadList(l: seq<nat>)
      requires Listed(l) && pDelayedPic[0] != NULL
      ensures l != [] && Inside(picture[..], l) && forall i :: 0 <= i < |l| ==> pDelayedPic[i] == l[i]
    {
      assert forall i :: 0 <= i < |l| ==> pDelayedPic[..|l|][i] == pDelayedPic[i];
    }

    /** Moves down what stands between entry k and the next NULL, which is z. */
    method ShiftToNull(k: nat, ghost e: nat) returns (ghost z: nat)
      requires Slots(e) && k < e && pDelayedPic[k] != NULL
      modifies pDelayedPic
      ensures k < z <= e && Slots(z - 1)
      ensures old(pDelayedPic[z]) == NULL && forall j :: k <= j < z ==> old(pDelayedPic[j]) != NULL
      ensures forall j :: 0 <= j < MAX_PICTURE_COUNT ==>
                pDelayedPic[j] == old(pDelayedPic[if k <= j < z then j + 1 else j])
    {
      var i := k;
      while pDelayedPic[i] != NULL
        invariant k <= i <= e
        invariant forall j :: 0 <= j < MAX_PICTURE_COUNT ==>
                  pDelayedPic[j] == old(pDelayedPic[if k <= j < i then j + 1 else j])
        invariant forall j :: k <= j < i ==> old(pDelayedPic[j]) != NULL
        decreases e - i
      {
        pDelayedPic[i] := pDelayedPic[i + 1];
        i := i + 1;
      }
      z := i;
    }

    /** Hands a delayed picture over, its scaled frame if it has one. */
    method HandOver(c: Config, out: nat)
      requires Sized() && out < picture.Length && picture[out].nDispBufIndex == out
      modifies this`handovers, picture
      ensures var (q, hs) := HandOne(c, old(picture[out]));
              picture[..] == old(picture[..])[out := q] && handovers == old(handovers) + hs
    {
      var bDispFrameFlag := true;
      if !c.bDispErrorFrame {
        bDispFrameFlag := if !c.bIs3DStream then !picture[out].bDecErrorFlag else true;
      }
      if picture[out].pScaleDownVPicture.Some? {
        FbmReturnBuffer(true, picture[out].pScaleDownVPicture, bDispFrameFlag);
        ForgetScaled(out);
      } else if picture[out].pVPicture.Some? {
        FbmReturnBuffer(false, picture[out].pVPicture, bDispFrameFlag);
        ForgetMain(out);
      } else {
        assert picture[..] == old(picture[..])[out := old(picture[out])];
      }
    }

    /** What records still own goes back undisplayed. */
    method DropLeftovers(lo: nat, hi: nat)
      requires Sized() && lo <= hi <= MAX_PICTURE_COUNT
      modifies this`handovers, picture
      ensures var (after, hs) := DropAll(old(picture[..]), lo, hi);
              picture[..] == after && handovers == old(handovers) + hs
    {
      hide Drop;
      ghost var pics := picture[..];
      var i := lo;
      while i < hi
        invariant lo <= i <= hi
        invariant picture[..] == DropAll(pics, lo, i).0 && handovers == old(handovers) + DropAll(pics, lo, i).1
      {
        ghost var before, hs := picture[..], DropAll(pics, lo, i).1;
        DropSlot(i);
        Common.Append(old(handovers), hs, Drop(before[i]).1);
        i := i + 1;
      }
    }

    method DropSlot(i: nat)
      requires Sized() && i < picture.Length
      modifies this`handovers, picture
      ensures var (q, hs) := Drop(old(picture[i]));
              picture[..] == old(picture[..])[i := q] && handovers == old(handovers) + hs
    {
      if picture[i].pVPicture.Some? {
        FbmReturnBuffer(false, picture[i].pVPicture, false);
      }
      if picture[i].pScaleDownVPicture.Some? {
        FbmReturnBuffer(true, picture[i].pScaleDownVPicture, false);
      }
      picture[i] := picture[i].(pVPicture := None, pScaleDownVPicture := None, nReference := 0, nDecFrameOrder := 0);
    }

    /** How often a frame is owned, now or by a call already made. */
    ghost function Balance(f: Frame): nat
      reads this`handovers, picture
    {
      Owned(picture[..], f) + GivenBack(handovers, f)
    }

    /** Everything a flush of l hands over from here on, behind what was handed over before. */
    ghost function Outcome(c: Config, pics: seq<PicInfo>, l: seq<nat>): (r: (seq<PicInfo>, seq<Handover>))
      requires Inside(pics, l) && |pics| == picture.Length
      reads this`handovers, picture
    {
      var (after, hs) := HandAll(c, picture[..], FlushOrder(pics, l));
      (after, handovers + hs)
    }

    /** Takes one delayed picture out of the array; the list ends earlier than before. */
    method TakeOut(ghost e: nat, ghost l: seq<nat>, ghost ready: bool)
      returns (out: nat, ghost e': nat, ghost rest: seq<nat>)
      requires Slots(e) && pDelayedPic[0] != NULL
      requires ready ==> Listed(l)
      modifies pDelayedPic
      ensures Slots(e') && e' < e && out < MAX_PICTURE_COUNT
      ensures ready ==>
                && l != [] && Inside(picture[..], l) && out == l[Taken(picture[..], l)]
                && rest == Left(picture[..], l) && Listed(rest)
    {
      hide Distinct, Piece, FirstOwned, Gap, Left, Taken;
      ghost var pics, was := picture[..], pDelayedPic[..];
      if ready {
        ReadList(l);
      }
      var outIdx;
      out, outIdx := ScanPiece(e, l, ready);
      ghost var struck := pDelayedPic[..];
      ghost var z := ShiftToNull(outIdx, e);
      e', rest := z - 1, [];
      if ready {
        rest := Left(pics, l);
        LeftIs(pics, l);
        LeftLies(pics, l, was, struck, pDelayedPic[..], z);
      }
    }

    /** Hands over one delayed picture. */
    method FlushOne(c: Config, ghost pics: seq<PicInfo>, ghost e: nat, ghost l: seq<nat>, ghost ready: bool)
      returns (ghost e': nat, ghost rest: seq<nat>)
      requires Slots(e) && pDelayedPic[0] != NULL
      requires forall i :: 0 <= i < MAX_PICTURE_COUNT ==> picture[i].nDispBufIndex == i
      requires ready ==> Listed(l) && Inside(pics, l) && SameWaiting(pics, picture[..], l)
      requires |pics| == MAX_PICTURE_COUNT
      modifies this`handovers, picture, pDelayedPic
      ensures Slots(e') && e' < e
      ensures forall i :: 0 <= i < MAX_PICTURE_COUNT ==> picture[i].nDispBufIndex == i
      ensures forall f :: Balance(f) == old(Balance(f))
      ensures ready ==> Listed(rest) && Inside(pics, rest) && SameWaiting(pics, picture[..], rest)
      ensures ready ==> Outcome(c, pics, rest) == old(Outcome(c, pics, l))
    {
      hide Taken, Left, Distinct, HandOne, HandAll, SameWaiting, FlushOrder, Owned, GivenBack;
      ghost var was, calls := picture[..], handovers;
      var out;
      out, e', rest := TakeOut(e, l, ready);
      HandOver(c, out);
      forall f ensures Balance(f) == old(Balance(f)) {
        HandOneConserves(c, was[out], f);
        OwnedUpdate(was, out, HandOne(c, was[out]).0, f);
        GivenBackAppend(calls, HandOne(c, was[out]).1, f);
      }
      HandOneConserves(c, was[out], Frame(false, 0));
      if ready {
        SameRound(pics, was, l);
        HandStep(c, pics, was, l);
        Common.Append(calls, HandOne(c, was[out]).1, HandAll(c, picture[..], FlushOrder(pics, rest)).1);
      }
    }

    /**
     Empties the list: the waiting pictures are handed over in the declared order, and what records still own
     goes back undisplayed.
     */
    method FlushDelayedPictures(c: Config)
      requires Compact() && c.nBufIndexOffset + c.nMaxValidFrmBufNum <= MAX_PICTURE_COUNT
      requires forall i :: 0 <= i < MAX_PICTURE_COUNT ==> picture[i].nDispBufIndex == i
      modifies this`handovers, this`nDelayedPicNum, picture, pDelayedPic
      ensures Compact() && List() == [] && forall i :: 0 <= i < MAX_PICTURE_COUNT ==> pDelayedPic[i] == NULL
      ensures forall f :: Balance(f) == old(Balance(f))
      ensures forall i, f :: c.nBufIndexOffset <= i < c.nBufIndexOffset + c.nMaxValidFrmBufNum ==>
                OwnedBy(picture[i], f) == 0
      ensures Inside(old(picture[..]), old(List()))
      ensures Distinct(old(List())) ==>
                var (shown, calls) := HandAll(c, old(picture[..]), ShownOrder(old(picture[..]), old(List())));
                var (after, leftovers) := DropAll(shown, c.nBufIndexOffset, c.nBufIndexOffset + c.nMaxValidFrmBufNum);
                picture[..] == after && handovers == old(handovers) + calls + leftovers
    {
      hide Distinct, HandAll, SameWaiting, FlushOrder, ShownOrder, Owned, GivenBack, DropAll, OwnedBy;
      ghost var pics, calls, l := picture[..], handovers, List();
      ghost var ready := Distinct(l);
      ghost var e: nat, rest: seq<nat> := nDelayedPicNum, l;
      SameWaitingSelf(pics, l);
      FlushIsShownOrder(pics, l);
      while pDelayedPic[0] != NULL
        modifies this`handovers, picture, pDelayedPic
        invariant Slots(e)
        invariant forall i :: 0 <= i < MAX_PICTURE_COUNT ==> picture[i].nDispBufIndex == i
        invariant forall f :: Balance(f) == old(Balance(f))
        invariant ready ==> Listed(rest) && Inside(pics, rest) && SameWaiting(pics, picture[..], rest)
        invariant ready ==> Outcome(c, pics, rest) == old(Outcome(c, pics, l))
        decreases e
      {
        e, rest := FlushOne(c, pics, e, rest, ready);
      }
      ghost var shown, sofar := picture[..], handovers;
      if ready {
        assert rest == [];
        HandNone(c, pics, shown);
      }
      ClearList();
      var lo, hi := c.nBufIndexOffset, c.nBufIndexOffset + c.nMaxValidFrmBufNum;
      DropLeftovers(lo, hi);
      forall f ensures Balance(f) == old(Balance(f)) {
        DropAllConserves(shown, lo, hi, f);
        GivenBackAppend(sofar, DropAll(shown, lo, hi).1, f);
      }
      forall i, f | lo <= i < hi ensures OwnedBy(picture[i], f) == 0 {
        DropAllClears(shown, lo, hi, i);
        DropConserves(shown[i], f);
      }
    }

    method ClearList()
      requires Sized()
      modifies this`nDelayedPicNum, pDelayedPic
      ensures Compact() && nDelayedPicNum == 0 && forall i :: 0 <= i < MAX_PICTURE_COUNT ==> pDelayedPic[i] == NULL
    {
      for i := 0 to MAX_PICTURE_COUNT
        invariant forall j :: 0 <= j < i ==> pDelayedPic[j] == NULL
      {
        pDelayedPic[i] := NULL;
      }
      nDelayedPicNum := 0;
    }
  }

  lemma SameWaitingSelf(pics: seq<PicInfo>, l: seq<nat>)
    requires Inside(pics, l)
    ensures SameWaiting(pics, pics, l)
  {
  }

  /** Among the first n entries those without a picture are struck out, all but the head. */
  ghost predicate StruckOut(pics: seq<PicInfo>, l: seq<nat>, n: nat, was: seq<int>, now: seq<int>)
    requires Inside(pics, l) && n <= |l| && |was| == |now| == MAX_PICTURE_COUNT
  {
    forall i :: 0 <= i < MAX_PICTURE_COUNT ==>
      now[i] == (if 1 <= i < n && !HasFrame(pics[l[i]]) then NULL else was[i])
  }

  /** After striking out and shifting, what a round leaves lies at the front of the array. */
  lemma LeftLies(pics: seq<PicInfo>, l: seq<nat>, was: seq<int>, struck: seq<int>, now: seq<int>, z: nat)
    requires Inside(pics, l) && l != [] && |was| == |struck| == |now| == MAX_PICTURE_COUNT
    requires |l| < MAX_PICTURE_COUNT && was[|l|] == NULL && forall i :: 0 <= i < |l| ==> was[i] == l[i]
    requires StruckOut(pics, l, Piece(pics, l), was, struck)
    requires var k := Taken(pics, l);
             && k < z < MAX_PICTURE_COUNT && struck[z] == NULL && (forall j :: k <= j < z ==> struck[j] != NULL)
             && forall j :: 0 <= j < MAX_PICTURE_COUNT ==> now[j] == struck[if k <= j < z then j + 1 else j]
    ensures var r := Left(pics, l); |r| < MAX_PICTURE_COUNT && now[|r|] == NULL && now[..|r|] == r
  {
    hide Piece, FirstOwned;
    var k, h, r := Taken(pics, l), Gap(pics, l, Piece(pics, l)), Left(pics, l);
    assert forall i :: 0 <= i < h ==> struck[i] == l[i];
    forall i | 0 <= i < |r| ensures now[i] == r[i] {
    }
  }

  lemma HandNone(c: Config, pics: seq<PicInfo>, now: seq<PicInfo>)
    ensures FlushOrder(pics, []) == [] && HandAll(c, now, []) == (now, [])
  {
  }

  function Unlent(pics: seq<PicInfo>, cur: nat): (r: seq<PicInfo>)
    requires cur < |pics| && pics[cur].nDecodeBufIndex < |pics|
    ensures |r| == |pics|
  {
    var lent := pics[cur].nDecodeBufIndex;
    if lent == pics[cur].nDispBufIndex then pics
    else pics[lent := pics[lent].(pVPicture := None, pScaleDownVPicture := None, nReference := 0)]
  }

  /** Only a record that lent its decoder slot is changed: it owns nothing any more and is no reference. */
  lemma UnlentIs(pics: seq<PicInfo>, cur: nat, i: nat)
    requires cur < |pics| && pics[cur].nDecodeBufIndex < |pics| && i < |pics|
    ensures Unlent(pics, cur)[i] ==
            if i == pics[cur].nDecodeBufIndex != pics[cur].nDispBufIndex
            then pics[i].(pVPicture := None, pScaleDownVPicture := None, nReference := 0) else pics[i]
  {
  }

  lemma FirstOne(pics: seq<PicInfo>, l: seq<nat>)
    requires Inside(pics, l) && l != []
    ensures FirstOwned(pics, l, 1) == 0
  {
  }

  lemma FirstNext(pics: seq<PicInfo>, l: seq<nat>, i: nat)
    requires Inside(pics, l) && 0 < i < |l|
    ensures var k := FirstOwned(pics, l, i);
            FirstOwned(pics, l, i + 1) == if HasFrame(pics[l[i]]) && Poc(pics, l[i]) < Poc(pics, l[k]) then i else k
  {
  }

  lemma ShowDetails(c: Config, p: PicInfo)
    ensures DelayHandover.Show(c, p).0.nPoc == p.nPoc && !DelayHandover.Show(c, p).0.bDropBFrame
  {
  }

  /** The index an entry is found at: the scan looks for counts below the largest there is. */
  function Seen(pics: seq<PicInfo>, l: seq<nat>, k: nat): nat
    requires Inside(pics, l) && k < |l|
  {
    if Poc(pics, l[k]) == MAX_POC then NOWHERE else k
  }

  /** What the scan knows after i entries. */
  ghost predicate Scanned(pics: seq<PicInfo>, l: seq<nat>, nMin: int, i: nat, found: bool, k: nat, least: nat,
                          minPoc: int)
    requires Inside(pics, l) && i <= |l|
  {
    if i == 0 then !found && k == least == NOWHERE && minPoc == MAX_POC
    else
      var r := ResetAt(pics, l, nMin, i);
      && least == Seen(pics, l, First(pics, l, i)) && minPoc == Poc(pics, l[First(pics, l, i)])
      && found == (r < i)
      && k == Seen(pics, l, First(pics, l, r))
  }

  lemma ScanStep(pics: seq<PicInfo>, l: seq<nat>, nMin: int, i: nat, found: bool, k: nat, least: nat, minPoc: int)
    requires Inside(pics, l) && i < |l| && Scanned(pics, l, nMin, i, found, k, least, minPoc)
    ensures var less := Poc(pics, l[i]) < minPoc;
            var restart := less && !found && i != 0 && Poc(pics, l[i]) <= nMin;
            Scanned(pics, l, nMin, i + 1, found || restart,
                    if less && !found && !restart then i else k, if less then i else least,
                    if less then Poc(pics, l[i]) else minPoc)
  {
    if i > 0 {
      FirstIsFirst(pics, l, i);
      assert IsReset(pics, l, nMin, i) <==> Poc(pics, l[i]) < minPoc && Poc(pics, l[i]) <= nMin;
    }
  }

  lemma HoldsUndecided(pics: seq<PicInfo>, l: seq<nat>, nMin: int, shownBefore: bool, v: Stream)
    requires Inside(pics, l) && l != [] && Undecided(pics, l, nMin)
    ensures Decide(pics, l, Choose(pics, l, nMin, shownBefore), nMin, shownBefore, v) == Hold
  {
    ChosenUnlessUndecided(pics, l, nMin, shownBefore);
    hide Choose, AllReference;
  }
}
