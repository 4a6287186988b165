/**
 One decoded picture joins the delay list and at most one leaves it: which one, when
 the list holds back instead, and what that means over runs of pictures and flushes.
 */
module DelaySteps {
  import opened Common
  import opened DelayOrder

  datatype Stream = Stream(nCurFrmNum: nat, nPicPocDeltaNum: nat, nRefFrmCount: nat)

  /** What the list remembers from picture to picture. */
  datatype Delay = Delay(list: seq<nat>, nMinDispPoc: int, lastOut: Option<nat>)

  datatype Verdict = Hold | Resync | Show

  predicate IsReference(p: PicInfo) {
    p.nReference != 0 && p.nReference != 4
  }

  // ----- which entry is next

  /** Entry i restarts the picture order count: it is below all before it and below what was last shown. */
  predicate IsReset(pics: seq<PicInfo>, l: seq<nat>, nMin: int, i: nat)
    requires Inside(pics, l) && i < |l|
  {
    i > 0 && Poc(pics, l[i]) <= nMin && forall j :: 0 <= j < i ==> Poc(pics, l[i]) < Poc(pics, l[j])
  }

  /** The first restart among the first n entries, or n. */
  function ResetAt(pics: seq<PicInfo>, l: seq<nat>, nMin: int, n: nat): (r: nat)
    requires Inside(pics, l) && n <= |l|
    ensures r <= n && (n > 0 ==> r > 0)
    ensures r < n ==> IsReset(pics, l, nMin, r)
    ensures forall i :: 0 <= i < r ==> !IsReset(pics, l, nMin, i)
  {
    if n == 0 then 0
    else
      var r := ResetAt(pics, l, nMin, n - 1);
      if r < n - 1 || IsReset(pics, l, nMin, n - 1) then r else n
  }

  function Choose(pics: seq<PicInfo>, l: seq<nat>, nMin: int, shownBefore: bool): (k: nat)
    requires Inside(pics, l) && l != []
    ensures k < |l|
  {
    var k := First(pics, l, HeadRun(pics, l, nMin));
    var least := First(pics, l, |l|);
    if shownBefore && Poc(pics, l[k]) == 0 && Poc(pics, l[least]) < 0 then least else k
  }

  /** How many entries stand before the first restart. */
  function HeadRun(pics: seq<PicInfo>, l: seq<nat>, nMin: int): (n: nat)
    requires Inside(pics, l) && l != []
    ensures 0 < n <= |l|
  {
    ResetAt(pics, l, nMin, |l|)
  }

  /** The entry chosen is never later than any entry before the first restart. */
  lemma ChosenIsEarliest(pics: seq<PicInfo>, l: seq<nat>, nMin: int, shownBefore: bool, i: nat)
    requires Inside(pics, l) && l != [] && i < HeadRun(pics, l, nMin)
    ensures var k := Choose(pics, l, nMin, shownBefore);
            && Poc(pics, l[k]) <= Poc(pics, l[i])
            && (Poc(pics, l[k]) == Poc(pics, l[i]) ==> k <= i)
  {
    var n := HeadRun(pics, l, nMin);
    FirstIsFirst(pics, l, n);
    FirstIsFirst(pics, l, |l|);
  }

  /** Only the head of the list, or a negative count beside a zero one, goes back behind what was last shown. */
  lemma ChosenMovesOn(pics: seq<PicInfo>, l: seq<nat>, nMin: int, shownBefore: bool)
    requires Inside(pics, l) && l != []
    ensures var k := Choose(pics, l, nMin, shownBefore);
            k == 0 || Poc(pics, l[k]) > nMin || (shownBefore && Poc(pics, l[k]) < 0)
  {
    var n := HeadRun(pics, l, nMin);
    FirstIsFirst(pics, l, n);
    var k := First(pics, l, n);
    assert !IsReset(pics, l, nMin, k);
  }

  /** The scan looks for a count below the largest there is; then there is none before the first restart. */
  predicate Undecided(pics: seq<PicInfo>, l: seq<nat>, nMin: int)
    requires Inside(pics, l) && l != []
  {
    Poc(pics, l[First(pics, l, HeadRun(pics, l, nMin))]) == MAX_POC
  }

  lemma UndecidedExactly(pics: seq<PicInfo>, l: seq<nat>, nMin: int)
    requires Inside(pics, l) && l != []
    ensures Undecided(pics, l, nMin) <==> forall i :: 0 <= i < HeadRun(pics, l, nMin) ==> Poc(pics, l[i]) == MAX_POC
  {
    var n := HeadRun(pics, l, nMin);
    FirstIsFirst(pics, l, n);
    hide First, HeadRun;
    assert forall i :: 0 <= i < n ==> Poc(pics, l[First(pics, l, n)]) <= Poc(pics, l[i]);
  }

  /** Nothing is chosen exactly then. */
  lemma ChosenUnlessUndecided(pics: seq<PicInfo>, l: seq<nat>, nMin: int, shownBefore: bool)
    requires Inside(pics, l) && l != []
    ensures Undecided(pics, l, nMin) <==> Poc(pics, l[Choose(pics, l, nMin, shownBefore)]) == MAX_POC
  {
    hide First, HeadRun;
  }

  // ----- hold back or show

  function Decide(pics: seq<PicInfo>, l: seq<nat>, k: nat, nMin: int, shownBefore: bool, v: Stream): Verdict
    requires Inside(pics, l) && k < |l|
  {
    var out := pics[l[k]];
    var ahead := out.nPoc - nMin;
    if out.nPoc == MAX_POC then Hold
    else if !shownBefore then Show
    else if out.nPoc != 0 && ahead != v.nPicPocDeltaNum && AllReference(pics, l) && !(0 <= ahead <= 32) then Resync
    else if out.nPoc != 0 && ahead != v.nPicPocDeltaNum && AllReference(pics, l)
            && (out.pScaleDownVPicture.Some? || |l| <= v.nRefFrmCount) then Hold
    else if ahead == v.nPicPocDeltaNum && v.nCurFrmNum == 2 && v.nPicPocDeltaNum == 2 && v.nRefFrmCount > 1
            && !out.bDropBFrame then Hold
    else Show
  }

  predicate AllReference(pics: seq<PicInfo>, l: seq<nat>)
    requires Inside(pics, l)
  {
    forall i :: 0 <= i < |l| ==> IsReference(pics[l[i]])
  }

  /** With a picture shown before, the program reads through the entry it has not chosen. */
  predicate Crashes(pics: seq<PicInfo>, d: Delay, cur: nat)
    requires Inside(pics, d.list) && cur < |pics|
  {
    d.lastOut.Some? && Undecided(pics, d.list + [cur], d.nMinDispPoc)
  }

  function Join(pics: seq<PicInfo>, d: Delay, cur: nat, v: Stream): (r: (Delay, Option<nat>))
    requires Inside(pics, d.list) && cur < |pics|
  {
    var l := d.list + [cur];
    var k := Choose(pics, l, d.nMinDispPoc, d.lastOut.Some?);
    match Decide(pics, l, k, d.nMinDispPoc, d.lastOut.Some?, v)
    case Hold => (d.(list := l), None)
    case Resync => (d.(list := l, nMinDispPoc := Poc(pics, l[k]) - v.nPicPocDeltaNum), None)
    case Show => (Delay(Without(l, k), Poc(pics, l[k]), Some(l[k])), Some(l[k]))
  }

  /** One call: none leaves or exactly one, the earliest of those before the first restart. */
  lemma JoinTakesOne(pics: seq<PicInfo>, d: Delay, cur: nat, v: Stream)
    requires Inside(pics, d.list) && cur < |pics|
    ensures var (e, out) := Join(pics, d, cur, v);
            var l := d.list + [cur];
            && Inside(pics, e.list) && Inside(pics, l)
            && (out.None? ==> e.list == l && (d.lastOut.Some? || Undecided(pics, l, d.nMinDispPoc)))
            && (out.Some? ==>
                  && out.value < |pics|
                  && multiset(e.list) + multiset{out.value} == multiset(l)
                  && e.nMinDispPoc == Poc(pics, out.value) && e.lastOut == out
                  && (forall i :: 0 <= i < HeadRun(pics, l, d.nMinDispPoc) ==> Poc(pics, out.value) <= Poc(pics, l[i])))
  {
    var l := d.list + [cur];
    var k := Choose(pics, l, d.nMinDispPoc, d.lastOut.Some?);
    WithoutInside(pics, l, k);
    WithoutBag(l, k);
    ChosenUnlessUndecided(pics, l, d.nMinDispPoc, d.lastOut.Some?);
    forall i | 0 <= i < HeadRun(pics, l, d.nMinDispPoc) ensures Poc(pics, l[k]) <= Poc(pics, l[i]) {
      ChosenIsEarliest(pics, l, d.nMinDispPoc, d.lastOut.Some?, i);
    }
  }

  // ----- the same on counts and flags alone

  /**
   n entries stand before the first that restarts the order count: that is below all before it and not above what
   was last shown.
   */
  ghost predicate RestartsBehind(pics: seq<PicInfo>, l: seq<nat>, nMin: int, n: nat)
    requires Inside(pics, l)
  {
    && 0 < n <= |l|
    && (forall i :: 1 <= i < n && pics[l[i]].nPoc <= nMin ==>
          exists j :: 0 <= j < i && pics[l[j]].nPoc <= pics[l[i]].nPoc)
    && (n < |l| ==> pics[l[n]].nPoc <= nMin && forall j :: 0 <= j < n ==> pics[l[n]].nPoc < pics[l[j]].nPoc)
  }

  lemma RestartIs(pics: seq<PicInfo>, l: seq<nat>, nMin: int, n: nat)
    requires Inside(pics, l) && RestartsBehind(pics, l, nMin, n)
    ensures HeadRun(pics, l, nMin) == n
  {
    assert n < |l| ==> IsReset(pics, l, nMin, n);
  }

  lemma RestartExists(pics: seq<PicInfo>, l: seq<nat>, nMin: int) returns (n: nat)
    requires Inside(pics, l) && l != []
    ensures RestartsBehind(pics, l, nMin, n)
  {
    n := HeadRun(pics, l, nMin);
    forall i | 1 <= i < n && pics[l[i]].nPoc <= nMin
      ensures exists j :: 0 <= j < i && pics[l[j]].nPoc <= pics[l[i]].nPoc
    {
      assert !IsReset(pics, l, nMin, i);
    }
  }

  lemma ReferencesAre(pics: seq<PicInfo>, l: seq<nat>)
    requires Inside(pics, l)
    ensures AllReference(pics, l) <==>
            forall i :: 0 <= i < |l| ==> pics[l[i]].nReference != 0 && pics[l[i]].nReference != 4
  {
  }

  lemma DecideExactly(pics: seq<PicInfo>, l: seq<nat>, k: nat, nMin: int, shownBefore: bool, v: Stream)
    requires Inside(pics, l) && k < |l|
    ensures var out := pics[l[k]]; var ahead := out.nPoc - nMin; var r := Decide(pics, l, k, nMin, shownBefore, v);
            && (r == Show <==>
                  && out.nPoc != 0x7fff_ffff
                  && (!shownBefore ||
                      if ahead == v.nPicPocDeltaNum then
                        !(v.nCurFrmNum == 2 && v.nPicPocDeltaNum == 2 && v.nRefFrmCount > 1 && !out.bDropBFrame)
                      else
                        || out.nPoc == 0 || !AllReference(pics, l)
                        || (0 <= ahead <= 32 && out.pScaleDownVPicture.None? && |l| > v.nRefFrmCount)))
            && (r == Resync <==>
                  && out.nPoc != 0x7fff_ffff && shownBefore && AllReference(pics, l) && out.nPoc != 0
                  && ahead != v.nPicPocDeltaNum && !(0 <= ahead <= 32))
  {
    hide AllReference;
  }

  /**
   Which entry is chosen: the first least one before the first restart, m; or, if that has the count zero behind a
   picture shown, and a negative one waits, the first least of all.
   */
  lemma ChosenExactly(pics: seq<PicInfo>, l: seq<nat>, nMin: int, shownBefore: bool, n: nat, m: nat, least: nat)
    requires Inside(pics, l) && RestartsBehind(pics, l, nMin, n)
    requires m < n && (forall j :: 0 <= j < m ==> pics[l[m]].nPoc < pics[l[j]].nPoc)
             && forall j :: m <= j < n ==> pics[l[m]].nPoc <= pics[l[j]].nPoc
    requires least < |l| && (forall j :: 0 <= j < least ==> pics[l[least]].nPoc < pics[l[j]].nPoc)
             && forall j :: least <= j < |l| ==> pics[l[least]].nPoc <= pics[l[j]].nPoc
    ensures Choose(pics, l, nMin, shownBefore) ==
            if shownBefore && pics[l[m]].nPoc == 0 && pics[l[least]].nPoc < 0 then least else m
  {
    RestartIs(pics, l, nMin, n);
    FirstUnique(pics, l, n, m);
    FirstUnique(pics, l, |l|, least);
  }

  /** The program reads through NULL exactly if it has shown a picture and all entries before the restart are latest. */
  lemma CrashesExactly(pics: seq<PicInfo>, d: Delay, cur: nat, n: nat)
    requires Inside(pics, d.list) && cur < |pics| && Inside(pics, d.list + [cur])
    requires RestartsBehind(pics, d.list + [cur], d.nMinDispPoc, n)
    ensures var l := d.list + [cur];
            Crashes(pics, d, cur) <==> d.lastOut.Some? && forall i :: 0 <= i < n ==> pics[l[i]].nPoc == 0x7fff_ffff
  {
    var l := d.list + [cur];
    RestartIs(pics, l, d.nMinDispPoc, n);
    UndecidedExactly(pics, l, d.nMinDispPoc);
    hide RestartsBehind, HeadRun, Undecided;
  }

  lemma JoinFollows(pics: seq<PicInfo>, d: Delay, cur: nat, v: Stream, l: seq<nat>, k: nat)
    requires Inside(pics, d.list) && cur < |pics| && l == d.list + [cur] && Inside(pics, l)
    requires k < |l| && k == Choose(pics, l, d.nMinDispPoc, d.lastOut.Some?)
    ensures var r := Decide(pics, l, k, d.nMinDispPoc, d.lastOut.Some?, v); var (e, shown) := Join(pics, d, cur, v);
            && (r == Show ==>
                  shown == Some(l[k]) && e == Delay(l[..k] + l[k + 1..], pics[l[k]].nPoc, Some(l[k])))
            && (r == Hold ==> shown.None? && e == Delay(l, d.nMinDispPoc, d.lastOut))
            && (r == Resync ==> shown.None? && e == Delay(l, pics[l[k]].nPoc - v.nPicPocDeltaNum, d.lastOut))
  {
    hide Choose, Decide, AllReference;
  }

  /**
   When that entry is shown at once, and what the list remembers: at the start; or if it is the next expected, save
   for the second picture of a stream; or else if its count is zero, or not all entries are references, or more wait
   than the stream has references and it is neither scaled nor out of range.
   */
  lemma JoinExactly(pics: seq<PicInfo>, d: Delay, cur: nat, v: Stream, l: seq<nat>, k: nat)
    requires Inside(pics, d.list) && cur < |pics| && l == d.list + [cur] && Inside(pics, l)
    requires k < |l| && k == Choose(pics, l, d.nMinDispPoc, d.lastOut.Some?)
    ensures var out := pics[l[k]]; var ahead := out.nPoc - d.nMinDispPoc; var (e, shown) := Join(pics, d, cur, v);
            var references := forall i :: 0 <= i < |l| ==> pics[l[i]].nReference != 0 && pics[l[i]].nReference != 4;
            var known := out.nPoc != 0x7fff_ffff;
            && (shown.Some? <==>
                  && known
                  && (d.lastOut.None? ||
                      if ahead == v.nPicPocDeltaNum then
                        !(v.nCurFrmNum == 2 && v.nPicPocDeltaNum == 2 && v.nRefFrmCount > 1 && !out.bDropBFrame)
                      else
                        || out.nPoc == 0 || !references
                        || (0 <= ahead <= 32 && out.pScaleDownVPicture.None? && |d.list| >= v.nRefFrmCount)))
            && (shown.Some? ==> shown == Some(l[k]) && e == Delay(l[..k] + l[k + 1..], out.nPoc, Some(l[k])))
            && (shown.None? ==>
                  e == Delay(l, if known && d.lastOut.Some? && references && out.nPoc != 0
                                   && ahead != v.nPicPocDeltaNum && !(0 <= ahead <= 32)
                                then out.nPoc - v.nPicPocDeltaNum else d.nMinDispPoc, d.lastOut))
  {
    hide Choose, Decide, AllReference, Join, Without;
    DecideExactly(pics, l, k, d.nMinDispPoc, d.lastOut.Some?, v);
    ReferencesAre(pics, l);
    JoinFollows(pics, d, cur, v, l, k);
  }

  // ----- runs

  datatype Event = Decoded(pics: seq<PicInfo>, cur: nat, v: Stream) | Flushed(pics: seq<PicInfo>)

  /**
   The picture records may be changed by reference marking between events; only the list must stay inside them,
   and no call may crash.
   */
  ghost predicate Possible(d: Delay, events: seq<Event>)
    decreases |events|
  {
    events == []
    || (&& Inside(events[0].pics, d.list)
        && (events[0].Decoded? ==> events[0].cur < |events[0].pics| && !Crashes(events[0].pics, d, events[0].cur))
        && Possible(After(d, events[0]).0, events[1..]))
  }

  function After(d: Delay, e: Event): (r: (Delay, seq<nat>))
    requires Inside(e.pics, d.list) && (e.Decoded? ==> e.cur < |e.pics|)
  {
    match e
    case Decoded(pics, cur, v) =>
      var (f, out) := Join(pics, d, cur, v);
      (f, if out.Some? then [out.value] else [])
    case Flushed(pics) => (d.(list := []), FlushOrder(pics, d.list))
  }

  function Decodes(events: seq<Event>): seq<nat> {
    if events == [] then []
    else (if events[0].Decoded? then [events[0].cur] else []) + Decodes(events[1..])
  }

  ghost function Run(d: Delay, events: seq<Event>): (r: (Delay, seq<nat>))
    requires Possible(d, events)
    decreases |events|
  {
    if events == [] then (d, [])
    else
      var (e, out) := After(d, events[0]);
      var (f, rest) := Run(e, events[1..]);
      (f, out + rest)
  }

  /** A picture is lost by a flush exactly if it finds a gap. */
  lemma EventConserves(d: Delay, e: Event)
    requires Inside(e.pics, d.list) && (e.Decoded? ==> e.cur < |e.pics|)
    ensures var (f, out) := After(d, e);
            multiset(f.list) + multiset(out) == multiset(d.list) + multiset(if e.Decoded? then [e.cur] else [])
            <==> e.Decoded? || NoGaps(e.pics, d.list)
  {
    match e
    case Decoded(pics, cur, v) => JoinTakesOne(pics, d, cur, v);
    case Flushed(pics) =>
      FlushTakesAll(pics, d.list);
      NothingAdded(multiset(FlushOrder(pics, d.list)), multiset(d.list));
  }

  lemma NothingAdded(a: multiset<nat>, b: multiset<nat>)
    ensures multiset([]) + a == b + multiset([]) <==> a == b
  {
    assert multiset([]) + a == a && b + multiset([]) == b;
  }

  /** And none is taken out twice. */
  lemma EventTakesOnce(d: Delay, e: Event)
    requires Inside(e.pics, d.list) && (e.Decoded? ==> e.cur < |e.pics|)
    ensures var (f, out) := After(d, e);
            multiset(f.list) + multiset(out) <= multiset(d.list) + multiset(if e.Decoded? then [e.cur] else [])
  {
    match e
    case Decoded(pics, cur, v) => JoinTakesOne(pics, d, cur, v);
    case Flushed(pics) => FlushTakesOnce(pics, d.list);
  }

  lemma Chain(d: multiset<nat>, e: multiset<nat>, f: multiset<nat>,
              out: multiset<nat>, rest: multiset<nat>, joined: multiset<nat>, later: multiset<nat>)
    requires e + out <= d + joined && f + rest <= e + later
    ensures f + (out + rest) <= d + (joined + later)
    ensures f + (out + rest) == d + (joined + later) <==> e + out == d + joined && f + rest == e + later
  {
    forall x: nat
      ensures (f + (out + rest))[x] <= (d + (joined + later))[x]
      ensures (f + (out + rest))[x] == (d + (joined + later))[x] <==>
              (e + out)[x] == (d + joined)[x] && (f + rest)[x] == (e + later)[x]
    {
      assert (e + out)[x] <= (d + joined)[x] && (f + rest)[x] <= (e + later)[x];
    }
    if f + (out + rest) == d + (joined + later) {
      assert forall x: nat :: (e + out)[x] == (d + joined)[x];
      assert forall x: nat :: (f + rest)[x] == (e + later)[x];
    }
  }

  /** No flush of a run finds a gap (DelayOrder.FlushTakesAll). */
  ghost predicate GapFree(d: Delay, events: seq<Event>)
    requires Possible(d, events)
    decreases |events|
  {
    events == []
    || ((events[0].Flushed? ==> NoGaps(events[0].pics, d.list)) && GapFree(After(d, events[0]).0, events[1..]))
  }

  /**
   Over any run no picture that joined leaves twice; and each has left once or still waits if and only if no flush
   finds a gap.
   */
  lemma {:induction false} RunConserves(d: Delay, events: seq<Event>)
    requires Possible(d, events)
    ensures var (f, out) := Run(d, events); var all := multiset(d.list) + multiset(Decodes(events));
            && multiset(f.list) + multiset(out) <= all
            && (multiset(f.list) + multiset(out) == all <==> GapFree(d, events))
    decreases |events|
  {
    hide After, NoGaps;
    if events != [] {
      EventConserves(d, events[0]);
      EventTakesOnce(d, events[0]);
      var (e, out) := After(d, events[0]);
      RunConserves(e, events[1..]);
      var (f, rest) := Run(e, events[1..]);
      var joined := if events[0].Decoded? then [events[0].cur] else [];
      assert Run(d, events) == (f, out + rest) && Decodes(events) == joined + Decodes(events[1..]);
      assert multiset(out + rest) == multiset(out) + multiset(rest);
      assert multiset(Decodes(events)) == multiset(joined) + multiset(Decodes(events[1..]));
      Chain(multiset(d.list), multiset(e.list), multiset(f.list), multiset(out), multiset(rest),
            multiset(joined), multiset(Decodes(events[1..])));
    }
  }

  /** A run that ends in a flush shows exactly the pictures decoded, each once, if and only if no flush finds a gap. */
  lemma FlushedRunShowsAll(events: seq<Event>, last: seq<PicInfo>, nMin: int)
    requires Possible(Delay([], nMin, None), events + [Flushed(last)])
    ensures var d := Delay([], nMin, None); var all := events + [Flushed(last)];
            multiset(Run(d, all).1) == multiset(Decodes(events)) <==> GapFree(d, all)
  {
    var d := Delay([], nMin, None);
    hide Run, Decodes, GapFree;
    var all := events + [Flushed(last)];
    var (f, out) := Run(d, all);
    RunConserves(d, all);
    EndsEmpty(d, events, last);
    DecodesThenFlush(events, last);
    assert multiset(d.list) == multiset{} == multiset(f.list);
    assert multiset{} + multiset(out) == multiset(out);
    assert multiset{} + multiset(Decodes(all)) == multiset(Decodes(events));
  }

  lemma {:induction false} EndsEmpty(d: Delay, events: seq<Event>, last: seq<PicInfo>)
    requires Possible(d, events + [Flushed(last)])
    ensures Run(d, events + [Flushed(last)]).0.list == []
    decreases |events|
  {
    var all := events + [Flushed(last)];
    if events == [] {
      assert all[1..] == [];
    } else {
      assert all[1..] == events[1..] + [Flushed(last)];
      EndsEmpty(After(d, events[0]).0, events[1..], last);
    }
  }

  lemma {:induction false} DecodesThenFlush(events: seq<Event>, last: seq<PicInfo>)
    ensures Decodes(events + [Flushed(last)]) == Decodes(events)
  {
    var all := events + [Flushed(last)];
    if events == [] {
      assert all[1..] == [];
    } else {
      assert all[1..] == events[1..] + [Flushed(last)];
      DecodesThenFlush(events[1..], last);
    }
  }

  // ----- how long the list gets

  /**
   A call that takes nothing out although the list is longer than the stream has references: nothing is found; or
   all entries are references and the one chosen is scaled, or out of the range that the counts may span; or it is
   the second picture of a stream.
   */
  predicate Stalls(pics: seq<PicInfo>, d: Delay, cur: nat, v: Stream)
    requires Inside(pics, d.list) && cur < |pics|
  {
    var l := d.list + [cur];
    var out := pics[l[Choose(pics, l, d.nMinDispPoc, d.lastOut.Some?)]];
    var ahead := out.nPoc - d.nMinDispPoc;
    || out.nPoc == MAX_POC
    || (d.lastOut.Some?
        && if ahead == v.nPicPocDeltaNum then
             v.nCurFrmNum == 2 && v.nPicPocDeltaNum == 2 && v.nRefFrmCount > 1 && !out.bDropBFrame
           else
             out.nPoc != 0 && AllReference(pics, l) && (out.pScaleDownVPicture.Some? || !(0 <= ahead <= 32)))
  }

  /** Such calls, and no others, make a list longer that is as long as the stream has references. */
  lemma StallsExactly(pics: seq<PicInfo>, d: Delay, cur: nat, v: Stream)
    requires Inside(pics, d.list) && cur < |pics|
    ensures var n := |Join(pics, d, cur, v).0.list|;
            && |d.list| <= n <= |d.list| + 1
            && (|d.list| >= v.nRefFrmCount ==> (n == |d.list| + 1 <==> Stalls(pics, d, cur, v)))
  {
    hide Choose, AllReference;
  }

  /** No call stalls while the list is b entries long. */
  ghost predicate NeverStalls(d: Delay, events: seq<Event>, b: nat)
    requires Possible(d, events)
    decreases |events|
  {
    events == []
    || (&& (var e := events[0]; e.Decoded? && |d.list| == b ==> !Stalls(e.pics, d, e.cur, e.v))
        && NeverStalls(After(d, events[0]).0, events[1..], b))
  }

  /** Before, between and after the events the list has at most b entries. */
  ghost predicate StaysWithin(d: Delay, events: seq<Event>, b: nat)
    requires Possible(d, events)
    decreases |events|
  {
    |d.list| <= b && (events == [] || StaysWithin(After(d, events[0]).0, events[1..], b))
  }

  /**
   Over any run the list stays within a bound, no less than the number of references of the stream, if and only if
   no call stalls when the list has reached it. The program aborts on joining a list of 31 entries
   (DelayedPictures.SortDisplayFrameOrder).
   */
  lemma {:induction false} RunBounded(d: Delay, events: seq<Event>, b: nat)
    requires Possible(d, events) && |d.list| <= b
    requires forall i :: 0 <= i < |events| && events[i].Decoded? ==> events[i].v.nRefFrmCount <= b
    ensures StaysWithin(d, events, b) <==> NeverStalls(d, events, b)
    decreases |events|
  {
    hide Join, Stalls;
    if events != [] {
      var next := After(d, events[0]).0;
      if events[0].Decoded? {
        StallsExactly(events[0].pics, d, events[0].cur, events[0].v);
      }
      if |next.list| <= b {
        assert forall i :: 0 <= i < |events[1..]| ==> events[1..][i] == events[i + 1];
        RunBounded(next, events[1..], b);
      } else {
        assert !StaysWithin(next, events[1..], b);
      }
    }
  }

  // ----- a run that fills the list

  /** A reference with a scaled picture; the count is the same for all. */
  const SCALED := PicInfo(1, false, 3, Some(0), Some(0), false, false, false, 0, 0, 0)
  const ONE_REFERENCE := Stream(5, 2, 1)

  function AllScaled(): (pics: seq<PicInfo>)
    ensures |pics| == MAX_PICTURE_COUNT && forall i :: 0 <= i < |pics| ==> pics[i] == SCALED
  {
    seq(MAX_PICTURE_COUNT, _ => SCALED)
  }

  /** n of them are decoded, from record i on. */
  function Scaled(i: nat, n: nat): (es: seq<Event>)
    decreases n
  {
    if n == 0 then [] else [Decoded(AllScaled(), i, ONE_REFERENCE)] + Scaled(i + 1, n - 1)
  }

  lemma ScaledHolds(d: Delay, cur: nat)
    requires Inside(AllScaled(), d.list) && cur < MAX_PICTURE_COUNT && d.lastOut.Some? && d.nMinDispPoc == 1
    ensures !Crashes(AllScaled(), d, cur)
    ensures Join(AllScaled(), d, cur, ONE_REFERENCE) == (d.(list := d.list + [cur]), None)
  {
    hide First, HeadRun, Choose;
  }

  lemma RunCons(d: Delay, e: Event, es: seq<Event>)
    requires Inside(e.pics, d.list) && (e.Decoded? ==> e.cur < |e.pics| && !Crashes(e.pics, d, e.cur))
    requires Possible(After(d, e).0, es)
    ensures Possible(d, [e] + es) && Run(d, [e] + es).0 == Run(After(d, e).0, es).0
  {
    assert ([e] + es)[1..] == es;
    hide Join, Crashes;
  }

  lemma {:induction false} ScaledPileUp(d: Delay, i: nat, n: nat)
    requires Inside(AllScaled(), d.list) && i + n <= MAX_PICTURE_COUNT && d.lastOut.Some? && d.nMinDispPoc == 1
    ensures Possible(d, Scaled(i, n)) && |Run(d, Scaled(i, n)).0.list| == |d.list| + n
    decreases n
  {
    hide Join, Crashes, Run, Possible, AllScaled;
    if n > 0 {
      var e, next := Decoded(AllScaled(), i, ONE_REFERENCE), d.(list := d.list + [i]);
      ScaledHolds(d, i);
      assert After(d, e).0 == next;
      ScaledPileUp(next, i + 1, n - 1);
      RunCons(d, e, Scaled(i + 1, n - 1));
    } else {
      NoEvents(d);
    }
  }

  lemma NoEvents(d: Delay)
    ensures Possible(d, []) && Run(d, []).0 == d
  {
  }

  /** With scaled output and one reference, the first picture is shown and none of the next 31 is. */
  lemma ScaledFillList()
    ensures var d := Delay([], 0, None); Possible(d, Scaled(0, 32)) && |Run(d, Scaled(0, 32)).0.list| == 31
  {
    var d, e := Delay([], 0, None), Decoded(AllScaled(), 0, ONE_REFERENCE);
    assert [] + [0] == [0];
    assert After(d, e).0 == Delay([], 1, Some(0)) && !Crashes(AllScaled(), d, 0);
    hide Join, Crashes, Run, Possible, AllScaled;
    ScaledPileUp(Delay([], 1, Some(0)), 1, 31);
    RunCons(d, e, Scaled(1, 31));
  }
}
