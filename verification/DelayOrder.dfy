/**
 The H.264 picture delay list as a value: which entry is taken out next, in what order
 a flush empties the list, and how the picture count is conserved over whole runs.
 */
module DelayOrder {
  import opened Common

  const MAX_PICTURE_COUNT := 32
  const MAX_POC := 0x7fff_ffff

  type s32 = n: int | -0x8000_0000 <= n <= 0x7fff_ffff

  /** The fields of a picture record that delaying and handing over look at. */
  datatype PicInfo = PicInfo(
    nPoc: s32, bKeyFrame: bool, nReference: nat,
    pVPicture: Option<nat>, pScaleDownVPicture: Option<nat>,
    bDecErrorFlag: bool, bHasDispedFlag: bool, bDropBFrame: bool,
    nDecodeBufIndex: nat, nDispBufIndex: nat, nDecFrameOrder: nat)

  /** Delay-list entries are indices into the picture array. */
  predicate Inside(pics: seq<PicInfo>, l: seq<nat>) {
    forall i :: 0 <= i < |l| ==> l[i] < |pics|
  }

  /** Each record waits once. */
  ghost predicate Distinct(l: seq<nat>) {
    forall i, j :: 0 <= i < j < |l| ==> l[i] != l[j]
  }

  /** Every entry behind the head that owns no picture any more is a key frame. */
  ghost predicate NoGaps(pics: seq<PicInfo>, l: seq<nat>)
    requires Inside(pics, l)
  {
    forall i :: 1 <= i < |l| ==>
      pics[l[i]].bKeyFrame || pics[l[i]].pVPicture.Some? || pics[l[i]].pScaleDownVPicture.Some?
  }

  predicate HasFrame(p: PicInfo) {
    p.pVPicture.Some? || p.pScaleDownVPicture.Some?
  }

  function Poc(pics: seq<PicInfo>, s: nat): int
    requires s < |pics|
  {
    pics[s].nPoc
  }

  function Without<T>(l: seq<T>, k: nat): (r: seq<T>)
    requires k < |l|
    ensures |r| == |l| - 1
  {
    l[..k] + l[k + 1..]
  }

  lemma WithoutInside(pics: seq<PicInfo>, l: seq<nat>, k: nat)
    requires Inside(pics, l) && k < |l|
    ensures Inside(pics, Without(l, k))
  {
  }

  lemma WithoutBag<T>(l: seq<T>, k: nat)
    requires k < |l|
    ensures multiset(Without(l, k)) + multiset{l[k]} == multiset(l)
  {
    assert l == l[..k] + [l[k]] + l[k + 1..];
  }

  // ----- the first entry of least picture order count

  function First(pics: seq<PicInfo>, l: seq<nat>, n: nat): (k: nat)
    requires Inside(pics, l) && 0 < n <= |l|
    ensures k < n
  {
    if n == 1 then 0
    else
      var k := First(pics, l, n - 1);
      if Poc(pics, l[n - 1]) < Poc(pics, l[k]) then n - 1 else k
  }

  ghost predicate IsFirst(pics: seq<PicInfo>, l: seq<nat>, n: nat, k: nat)
    requires Inside(pics, l) && n <= |l|
  {
    && k < n
    && (forall j :: 0 <= j < k ==> Poc(pics, l[k]) < Poc(pics, l[j]))
    && (forall j :: k <= j < n ==> Poc(pics, l[k]) <= Poc(pics, l[j]))
  }

  lemma {:induction false} FirstIsFirst(pics: seq<PicInfo>, l: seq<nat>, n: nat)
    requires Inside(pics, l) && 0 < n <= |l|
    ensures IsFirst(pics, l, n, First(pics, l, n))
  {
    if n > 1 {
      FirstIsFirst(pics, l, n - 1);
    }
  }

  lemma FirstUnique(pics: seq<PicInfo>, l: seq<nat>, n: nat, k: nat)
    requires Inside(pics, l) && 0 < n <= |l| && IsFirst(pics, l, n, k)
    ensures First(pics, l, n) == k
  {
    FirstIsFirst(pics, l, n);
  }

  // ----- the order of a flush: what the scan takes out, time after time

  /** The entries before the next key frame (the head may be one). */
  function Piece(pics: seq<PicInfo>, l: seq<nat>): (n: nat)
    requires Inside(pics, l) && l != []
    ensures 0 < n <= |l|
  {
    if |l| == 1 || pics[l[1]].bKeyFrame then 1 else 1 + Piece(pics, l[1..])
  }

  lemma {:induction false} PieceEnds(pics: seq<PicInfo>, l: seq<nat>)
    requires Inside(pics, l) && l != []
    ensures var n := Piece(pics, l);
            && (forall i :: 1 <= i < n ==> !pics[l[i]].bKeyFrame)
            && (n < |l| ==> pics[l[n]].bKeyFrame)
  {
    if |l| > 1 && !pics[l[1]].bKeyFrame {
      PieceEnds(pics, l[1..]);
      forall i | 1 <= i < Piece(pics, l) ensures !pics[l[i]].bKeyFrame {
        assert i > 1 ==> l[i] == l[1..][i - 1];
      }
    }
  }

  lemma PieceUnique(pics: seq<PicInfo>, l: seq<nat>, n: nat)
    requires Inside(pics, l) && 0 < n <= |l|
    requires forall i :: 1 <= i < n ==> !pics[l[i]].bKeyFrame
    requires n < |l| ==> pics[l[n]].bKeyFrame
    ensures Piece(pics, l) == n
  {
    PieceEnds(pics, l);
  }

  /** The first entry behind the head, before entry n, that owns no picture; or n. */
  function Gap(pics: seq<PicInfo>, l: seq<nat>, n: nat): (h: nat)
    requires Inside(pics, l) && 0 < n <= |l|
    ensures 1 <= h <= n && (h < n ==> !HasFrame(pics[l[h]]))
    ensures forall i :: 1 <= i < h ==> HasFrame(pics[l[i]])
  {
    if n == 1 then 1
    else
      var h := Gap(pics, l, n - 1);
      if h < n - 1 || !HasFrame(pics[l[n - 1]]) then h else n
  }

  /** The first least entry among the head and those that own a picture. */
  function FirstOwned(pics: seq<PicInfo>, l: seq<nat>, n: nat): (k: nat)
    requires Inside(pics, l) && 0 < n <= |l|
    ensures k < n
  {
    if n == 1 then 0
    else
      var k := FirstOwned(pics, l, n - 1);
      if HasFrame(pics[l[n - 1]]) && Poc(pics, l[n - 1]) < Poc(pics, l[k]) then n - 1 else k
  }

  /** The entry a round of a flush takes out. */
  function Taken(pics: seq<PicInfo>, l: seq<nat>): (k: nat)
    requires Inside(pics, l) && l != []
    ensures k < |l|
  {
    FirstOwned(pics, l, Piece(pics, l))
  }

  /** What a round leaves: entries without a picture are struck out, and the first of them ends the list. */
  function Left(pics: seq<PicInfo>, l: seq<nat>): (r: seq<nat>)
    requires Inside(pics, l) && l != []
    ensures Inside(pics, r) && |r| < |l|
  {
    var k, h := Taken(pics, l), Gap(pics, l, Piece(pics, l));
    var kept := if h == Piece(pics, l) then l else l[..h];
    WithoutInside(pics, l, k);
    if k < |kept| then Without(kept, k) else kept
  }

  function FlushOrder(pics: seq<PicInfo>, l: seq<nat>): (r: seq<nat>)
    requires Inside(pics, l)
    ensures Inside(pics, r)
    decreases |l|
  {
    if l == [] then [] else [l[Taken(pics, l)]] + FlushOrder(pics, Left(pics, l))
  }

  // ----- the same order, declared: each piece stably sorted

  function Insert(pics: seq<PicInfo>, x: nat, l: seq<nat>): (r: seq<nat>)
    requires Inside(pics, l) && x < |pics|
    ensures Inside(pics, r) && |r| == |l| + 1
  {
    if l == [] || Poc(pics, x) <= Poc(pics, l[0]) then [x] + l else [l[0]] + Insert(pics, x, l[1..])
  }

  function StableSort(pics: seq<PicInfo>, l: seq<nat>): (r: seq<nat>)
    requires Inside(pics, l)
    ensures Inside(pics, r) && |r| == |l|
  {
    if l == [] then [] else Insert(pics, l[0], StableSort(pics, l[1..]))
  }

  function DisplayOrder(pics: seq<PicInfo>, l: seq<nat>): (r: seq<nat>)
    requires Inside(pics, l)
    ensures Inside(pics, r)
  {
    if l == [] then []
    else
      var n := Piece(pics, l);
      StableSort(pics, l[..n]) + DisplayOrder(pics, l[n..])
  }

  ghost predicate Ascending(pics: seq<PicInfo>, l: seq<nat>)
    requires Inside(pics, l)
  {
    forall i, j :: 0 <= i < j < |l| ==> Poc(pics, l[i]) <= Poc(pics, l[j])
  }

  /** The entries of one picture order count, in their order. */
  function Same(pics: seq<PicInfo>, l: seq<nat>, poc: int): seq<nat>
    requires Inside(pics, l)
  {
    if l == [] then []
    else (if Poc(pics, l[0]) == poc then [l[0]] else []) + Same(pics, l[1..], poc)
  }

  lemma SameCons(pics: seq<PicInfo>, x: nat, l: seq<nat>, poc: int)
    requires Inside(pics, l) && x < |pics|
    ensures Inside(pics, [x] + l)
    ensures Same(pics, [x] + l, poc) == (if Poc(pics, x) == poc then [x] else []) + Same(pics, l, poc)
  {
    assert ([x] + l)[1..] == l;
  }

  /** x is no later than any entry of l. */
  ghost predicate Below(pics: seq<PicInfo>, x: nat, l: seq<nat>)
    requires Inside(pics, l) && x < |pics|
  {
    forall i :: 0 <= i < |l| ==> Poc(pics, x) <= Poc(pics, l[i])
  }

  lemma AscendingCons(pics: seq<PicInfo>, x: nat, l: seq<nat>)
    requires Inside(pics, l) && x < |pics|
    ensures Ascending(pics, [x] + l) <==> Ascending(pics, l) && Below(pics, x, l)
  {
    var r := [x] + l;
    if Ascending(pics, r) {
      forall i | 0 <= i < |l| ensures Poc(pics, x) <= Poc(pics, l[i]) {
        assert r[i + 1] == l[i] && r[0] == x;
      }
      forall i, j | 0 <= i < j < |l| ensures Poc(pics, l[i]) <= Poc(pics, l[j]) {
        assert r[i + 1] == l[i] && r[j + 1] == l[j];
      }
    }
  }

  lemma {:induction false} InsertBelow(pics: seq<PicInfo>, y: nat, x: nat, l: seq<nat>)
    requires Inside(pics, l) && x < |pics| && y < |pics| && Below(pics, y, l) && Poc(pics, y) <= Poc(pics, x)
    ensures Below(pics, y, Insert(pics, x, l))
  {
    if l != [] && Poc(pics, x) > Poc(pics, l[0]) {
      InsertBelow(pics, y, x, l[1..]);
    }
  }

  lemma InsertStep(pics: seq<PicInfo>, x: nat, l: seq<nat>)
    requires Inside(pics, l) && x < |pics|
    ensures l == [] || Poc(pics, x) <= Poc(pics, l[0]) ==> Insert(pics, x, l) == [x] + l
    ensures l != [] && Poc(pics, x) > Poc(pics, l[0]) ==> Insert(pics, x, l) == [l[0]] + Insert(pics, x, l[1..])
  {
  }

  lemma {:induction false} InsertSorts(pics: seq<PicInfo>, x: nat, l: seq<nat>, poc: int)
    requires Inside(pics, l) && x < |pics| && Ascending(pics, l)
    ensures Ascending(pics, Insert(pics, x, l))
    ensures Same(pics, Insert(pics, x, l), poc) == Same(pics, [x] + l, poc)
    decreases |l|, 0
  {
    hide Ascending, Same, Below, Insert;
    InsertStep(pics, x, l);
    if l == [] || Poc(pics, x) <= Poc(pics, l[0]) {
      HeadBelow(pics, x, l);
      AscendingCons(pics, x, l);
    } else {
      assert l == [l[0]] + l[1..];
      InsertLater(pics, x, l[0], l[1..], poc);
    }
  }

  lemma InsertLater(pics: seq<PicInfo>, x: nat, y: nat, t: seq<nat>, poc: int)
    requires Inside(pics, t) && x < |pics| && y < |pics| && Inside(pics, [y] + t)
    requires Ascending(pics, [y] + t) && Poc(pics, y) < Poc(pics, x)
    ensures Ascending(pics, [y] + Insert(pics, x, t))
    ensures Same(pics, [y] + Insert(pics, x, t), poc) == Same(pics, [x] + ([y] + t), poc)
    decreases |t|, 1
  {
    hide Ascending, Same, Below, Insert;
    AscendingCons(pics, y, t);
    InsertSorts(pics, x, t, poc);
    InsertBelow(pics, y, x, t);
    AscendingCons(pics, y, Insert(pics, x, t));
    SameCons(pics, y, Insert(pics, x, t), poc);
    SameCons(pics, x, t, poc);
    SameCons(pics, y, t, poc);
    SameCons(pics, x, [y] + t, poc);
  }

  lemma HeadBelow(pics: seq<PicInfo>, x: nat, l: seq<nat>)
    requires Inside(pics, l) && x < |pics| && Ascending(pics, l)
    requires l == [] || Poc(pics, x) <= Poc(pics, l[0])
    ensures Below(pics, x, l)
  {
  }

  /** StableSort sorts by picture order count and keeps entries of equal count in order. */
  lemma {:induction false} SortIsStable(pics: seq<PicInfo>, l: seq<nat>, poc: int)
    requires Inside(pics, l)
    ensures Ascending(pics, StableSort(pics, l))
    ensures Same(pics, StableSort(pics, l), poc) == Same(pics, l, poc)
  {
    if l != [] {
      SortIsStable(pics, l[1..], poc);
      var t := StableSort(pics, l[1..]);
      InsertSorts(pics, l[0], t, poc);
      assert ([l[0]] + t)[1..] == t;
    }
  }

  // ----- taking the first least entry each time is that sort

  lemma {:induction false} SortBelow(pics: seq<PicInfo>, x: nat, l: seq<nat>)
    requires Inside(pics, l) && x < |pics| && Below(pics, x, l)
    ensures Below(pics, x, StableSort(pics, l))
  {
    if l != [] {
      SortBelow(pics, x, l[1..]);
      InsertBelow(pics, x, l[0], StableSort(pics, l[1..]));
    }
  }

  lemma InsertHead(pics: seq<PicInfo>, x: nat, y: nat, r: seq<nat>)
    requires Inside(pics, r) && x < |pics| && y < |pics| && Poc(pics, y) < Poc(pics, x)
    ensures Inside(pics, [y] + r) && Insert(pics, x, [y] + r) == [y] + Insert(pics, x, r)
  {
    assert ([y] + r)[1..] == r;
  }

  lemma FirstOfTail(pics: seq<PicInfo>, l: seq<nat>, k: nat)
    requires Inside(pics, l) && |l| > 0 && IsFirst(pics, l, |l|, k)
    ensures k == 0 ==> Below(pics, l[0], l[1..])
    ensures k > 0 ==> IsFirst(pics, l[1..], |l| - 1, k - 1) && Poc(pics, l[k]) < Poc(pics, l[0])
  {
    assert forall j :: 0 <= j < |l| - 1 ==> l[1..][j] == l[j + 1];
  }

  lemma {:induction false} SortTakesFirst(pics: seq<PicInfo>, l: seq<nat>, k: nat)
    requires Inside(pics, l) && l != [] && IsFirst(pics, l, |l|, k)
    ensures Inside(pics, Without(l, k))
    ensures StableSort(pics, l) == [l[k]] + StableSort(pics, Without(l, k))
    decreases |l|
  {
    assert k < |l|;
    hide IsFirst, Below, Insert, StableSort;
    WithoutInside(pics, l, k);
    FirstOfTail(pics, l, k);
    var t := l[1..];
    assert l == [l[0]] + t;
    SortCons(pics, l[0], t);
    if k == 0 {
      assert Without(l, 0) == t;
      SortBelow(pics, l[0], t);
      InsertFront(pics, l[0], StableSort(pics, t));
    } else {
      SortTakesFirst(pics, t, k - 1);
      var w := Without(t, k - 1);
      assert Without(l, k) == [l[0]] + w;
      SortCons(pics, l[0], w);
      InsertHead(pics, l[0], l[k], StableSort(pics, w));
    }
  }

  lemma SortCons(pics: seq<PicInfo>, x: nat, l: seq<nat>)
    requires Inside(pics, l) && x < |pics|
    ensures Inside(pics, [x] + l) && StableSort(pics, [x] + l) == Insert(pics, x, StableSort(pics, l))
  {
    assert ([x] + l)[1..] == l;
  }

  lemma InsertFront(pics: seq<PicInfo>, x: nat, l: seq<nat>)
    requires Inside(pics, l) && x < |pics| && Below(pics, x, l)
    ensures Insert(pics, x, l) == [x] + l
  {
  }

  // ----- which of two entries is displayed first

  /** x stands before y. */
  ghost predicate Before(r: seq<nat>, x: nat, y: nat) {
    exists a, b :: 0 <= a < b < |r| && r[a] == x && r[b] == y
  }

  lemma BeforeBehind(s: seq<nat>, r: seq<nat>, x: nat, y: nat)
    requires Before(r, x, y)
    ensures Before(s + r, x, y)
  {
    var a, b :| 0 <= a < b < |r| && r[a] == x && r[b] == y;
    assert (s + r)[|s| + a] == x && (s + r)[|s| + b] == y;
  }

  lemma BeforeFront(r: seq<nat>, s: seq<nat>, x: nat, y: nat)
    requires Before(r, x, y)
    ensures Before(r + s, x, y)
  {
    var a, b :| 0 <= a < b < |r| && r[a] == x && r[b] == y;
    assert (r + s)[a] == x && (r + s)[b] == y;
  }

  lemma BeforeAcross(r: seq<nat>, s: seq<nat>, x: nat, y: nat)
    requires x in r && y in s
    ensures Before(r + s, x, y)
  {
    var a :| 0 <= a < |r| && r[a] == x;
    var b :| 0 <= b < |s| && s[b] == y;
    assert (r + s)[a] == x && (r + s)[|r| + b] == y;
  }

  lemma BeforeHead(r: seq<nat>, x: nat, y: nat)
    requires r != [] && Before(r, x, y) && !Before(r[1..], x, y)
    ensures r[0] == x && y in r[1..]
  {
    var a, b :| 0 <= a < b < |r| && r[a] == x && r[b] == y;
    assert r[1..][b - 1] == y;
  }

  /** Inserting an entry puts it before those no earlier and behind those that are earlier. */
  lemma {:induction false} InsertPlaces(pics: seq<PicInfo>, x: nat, s: seq<nat>, y: nat)
    requires Inside(pics, s) && x < |pics| && y in s && y < |pics|
    requires Ascending(pics, s)
    ensures if pics[x].nPoc <= pics[y].nPoc then Before(Insert(pics, x, s), x, y) else Before(Insert(pics, x, s), y, x)
  {
    var k :| 0 <= k < |s| && s[k] == y;
    InsertStep(pics, x, s);
    if Poc(pics, x) <= Poc(pics, s[0]) {
      BeforeAcross([x], s, x, y);
      assert Poc(pics, s[0]) <= Poc(pics, s[k]);
    } else if k == 0 {
      InsertMembers(pics, x, s[1..]);
      BeforeAcross([s[0]], Insert(pics, x, s[1..]), y, x);
    } else {
      assert s[1..][k - 1] == y;
      InsertPlaces(pics, x, s[1..], y);
      if Poc(pics, x) <= Poc(pics, y) {
        BeforeBehind([s[0]], Insert(pics, x, s[1..]), x, y);
      } else {
        BeforeBehind([s[0]], Insert(pics, x, s[1..]), y, x);
      }
    }
  }

  lemma {:induction false} InsertMembers(pics: seq<PicInfo>, x: nat, s: seq<nat>)
    requires Inside(pics, s) && x < |pics|
    ensures forall y :: y in Insert(pics, x, s) <==> y == x || y in s
  {
    InsertStep(pics, x, s);
    if s != [] {
      assert s == [s[0]] + s[1..];
      if Poc(pics, x) > Poc(pics, s[0]) {
        InsertMembers(pics, x, s[1..]);
      }
    }
  }

  lemma {:induction false} InsertKeepsBefore(pics: seq<PicInfo>, z: nat, s: seq<nat>, x: nat, y: nat)
    requires Inside(pics, s) && z < |pics| && Before(s, x, y)
    ensures Before(Insert(pics, z, s), x, y)
  {
    InsertStep(pics, z, s);
    if s == [] || Poc(pics, z) <= Poc(pics, s[0]) {
      BeforeBehind([z], s, x, y);
    } else if Before(s[1..], x, y) {
      InsertKeepsBefore(pics, z, s[1..], x, y);
      BeforeBehind([s[0]], Insert(pics, z, s[1..]), x, y);
    } else {
      BeforeHead(s, x, y);
      InsertMembers(pics, z, s[1..]);
      BeforeAcross([s[0]], Insert(pics, z, s[1..]), x, y);
    }
  }

  lemma {:induction false} SortMembers(pics: seq<PicInfo>, l: seq<nat>)
    requires Inside(pics, l)
    ensures forall y :: y in StableSort(pics, l) <==> y in l
  {
    if l != [] {
      SortMembers(pics, l[1..]);
      InsertMembers(pics, l[0], StableSort(pics, l[1..]));
      assert l == [l[0]] + l[1..];
    }
  }

  lemma {:induction false} SortPlaces(pics: seq<PicInfo>, l: seq<nat>, i: nat, j: nat)
    requires Inside(pics, l) && i < j < |l|
    ensures var x, y := l[i], l[j]; var r := StableSort(pics, l);
            if pics[x].nPoc <= pics[y].nPoc then Before(r, x, y) else Before(r, y, x)
  {
    hide Insert, Before;
    var s := StableSort(pics, l[1..]);
    SortIsStable(pics, l[1..], 0);
    if i == 0 {
      SortMembers(pics, l[1..]);
      assert l[1..][j - 1] == l[j];
      InsertPlaces(pics, l[0], s, l[j]);
    } else {
      SortPlaces(pics, l[1..], i - 1, j - 1);
      if pics[l[i]].nPoc <= pics[l[j]].nPoc {
        InsertKeepsBefore(pics, l[0], s, l[i], l[j]);
      } else {
        InsertKeepsBefore(pics, l[0], s, l[j], l[i]);
      }
    }
  }

  lemma {:induction false} DisplayMembers(pics: seq<PicInfo>, l: seq<nat>)
    requires Inside(pics, l)
    ensures forall y :: y in DisplayOrder(pics, l) <==> y in l
  {
    hide StableSort, Piece;
    if l != [] {
      var n := Piece(pics, l);
      SortMembers(pics, l[..n]);
      DisplayMembers(pics, l[n..]);
      assert l == l[..n] + l[n..];
    }
  }

  /**
   Of two entries the one that joined first is displayed first if a key frame joined behind it, up to the other one,
   or if its picture order count is not greater; otherwise the other one is.
   */
  lemma {:induction false} DisplayPlaces(pics: seq<PicInfo>, l: seq<nat>, i: nat, j: nat)
    requires Inside(pics, l) && i < j < |l|
    ensures var x, y := l[i], l[j]; var r := DisplayOrder(pics, l);
            if (exists m :: i < m <= j && pics[l[m]].bKeyFrame) || pics[x].nPoc <= pics[y].nPoc then Before(r, x, y)
            else Before(r, y, x)
    decreases |l|
  {
    hide StableSort, Before, Piece;
    var n := Piece(pics, l);
    var a, b := StableSort(pics, l[..n]), DisplayOrder(pics, l[n..]);
    PieceEnds(pics, l);
    SortMembers(pics, l[..n]);
    DisplayMembers(pics, l[n..]);
    if j < n {
      SortPlaces(pics, l[..n], i, j);
      if pics[l[i]].nPoc <= pics[l[j]].nPoc {
        BeforeFront(a, b, l[i], l[j]);
      } else {
        BeforeFront(a, b, l[j], l[i]);
      }
    } else if i < n {
      assert l[..n][i] == l[i] && l[n..][j - n] == l[j] && pics[l[n]].bKeyFrame;
      BeforeAcross(a, b, l[i], l[j]);
    } else {
      var t := l[n..];
      assert forall m :: n <= m < |l| ==> t[m - n] == l[m];
      DisplayPlaces(pics, t, i - n, j - n);
      if Before(b, l[i], l[j]) {
        BeforeBehind(a, b, l[i], l[j]);
      }
      if Before(b, l[j], l[i]) {
        BeforeBehind(a, b, l[j], l[i]);
      }
      KeyBetween(pics, l, t, n, i, j);
    }
  }

  lemma KeyBetween(pics: seq<PicInfo>, l: seq<nat>, t: seq<nat>, n: nat, i: nat, j: nat)
    requires Inside(pics, l) && Inside(pics, t) && n <= i < j < |l| && t == l[n..]
    ensures (exists m :: i < m <= j && pics[l[m]].bKeyFrame) <==>
            (exists m :: i - n < m <= j - n && pics[t[m]].bKeyFrame)
  {
    if m :| i < m <= j && pics[l[m]].bKeyFrame {
      assert pics[t[m - n]].bKeyFrame;
    }
    if m :| i - n < m <= j - n && pics[t[m]].bKeyFrame {
      assert pics[l[m + n]].bKeyFrame;
    }
  }

  // ----- and what is missing from it

  /**
   The order of a flush, declared: pieces in list order, each stably sorted, up to the first piece with an
   entry behind its head that owns no picture. Of that piece only the entries before the gap are shown, and
   before them one from behind it if that is the earliest; nothing else.
   */
  function ShownOrder(pics: seq<PicInfo>, l: seq<nat>): (r: seq<nat>)
    requires Inside(pics, l)
    ensures Inside(pics, r)
  {
    if l == [] then []
    else
      var n := Piece(pics, l);
      var k, h := FirstOwned(pics, l, n), Gap(pics, l, n);
      if h == n then StableSort(pics, l[..n]) + ShownOrder(pics, l[n..])
      else (if k < h then [] else [l[k]]) + StableSort(pics, l[..h])
  }

  ghost predicate Candidate(pics: seq<PicInfo>, l: seq<nat>, j: nat)
    requires Inside(pics, l) && j < |l|
  {
    j == 0 || HasFrame(pics[l[j]])
  }

  lemma {:induction false} FirstOwnedIs(pics: seq<PicInfo>, l: seq<nat>, n: nat)
    requires Inside(pics, l) && 0 < n <= |l|
    ensures var k := FirstOwned(pics, l, n);
            && Candidate(pics, l, k)
            && (forall j :: 0 <= j < k && Candidate(pics, l, j) ==> Poc(pics, l[k]) < Poc(pics, l[j]))
            && (forall j :: k <= j < n && Candidate(pics, l, j) ==> Poc(pics, l[k]) <= Poc(pics, l[j]))
  {
    if n > 1 {
      FirstOwnedIs(pics, l, n - 1);
    }
  }

  /** Before the gap all entries are looked at. */
  lemma OwnedBeforeGap(pics: seq<PicInfo>, l: seq<nat>, n: nat)
    requires Inside(pics, l) && 0 < n <= |l| && FirstOwned(pics, l, n) < Gap(pics, l, n)
    ensures IsFirst(pics, l, Gap(pics, l, n), FirstOwned(pics, l, n))
    ensures First(pics, l, Gap(pics, l, n)) == FirstOwned(pics, l, n)
  {
    FirstOwnedIs(pics, l, n);
    var k, h := FirstOwned(pics, l, n), Gap(pics, l, n);
    assert forall j :: 0 <= j < h ==> Candidate(pics, l, j);
    hide FirstOwned, Gap;
    FirstUnique(pics, l, h, k);
  }

  /** A list all of whose entries behind the head own a picture and none starts a piece. */
  ghost predicate OnePiece(pics: seq<PicInfo>, l: seq<nat>)
    requires Inside(pics, l)
  {
    forall i :: 1 <= i < |l| ==> HasFrame(pics[l[i]]) && !pics[l[i]].bKeyFrame
  }

  lemma OnePieceWithout(pics: seq<PicInfo>, l: seq<nat>, k: nat)
    requires Inside(pics, l) && OnePiece(pics, l) && k < |l|
    ensures Inside(pics, Without(l, k)) && OnePiece(pics, Without(l, k))
  {
    var r := Without(l, k);
    forall i | 0 <= i < |r| ensures r[i] < |pics| && (i >= 1 ==> HasFrame(pics[r[i]]) && !pics[r[i]].bKeyFrame) {
      assert r[i] == l[if i < k then i else i + 1];
    }
  }

  lemma OnePieceOrder(pics: seq<PicInfo>, l: seq<nat>)
    requires Inside(pics, l) && OnePiece(pics, l)
    ensures ShownOrder(pics, l) == StableSort(pics, l)
  {
    if l != [] {
      PieceUnique(pics, l, |l|);
      assert Gap(pics, l, |l|) == |l|;
      assert l[..|l|] == l && l[|l|..] == [];
    }
  }

  lemma {:induction false} GapIs(pics: seq<PicInfo>, l: seq<nat>, n: nat)
    requires Inside(pics, l) && 0 < n <= |l| && forall i :: 1 <= i < n ==> HasFrame(pics[l[i]])
    ensures Gap(pics, l, n) == n
  {
  }

  /** A piece a without a gap, with the rest b behind it. */
  lemma ShownParts(pics: seq<PicInfo>, l: seq<nat>, a: seq<nat>, b: seq<nat>)
    requires Inside(pics, l) && l == a + b && Inside(pics, a) && Inside(pics, b) && OnePiece(pics, a)
    requires a != [] && b != [] ==> pics[b[0]].bKeyFrame
    ensures ShownOrder(pics, l) == StableSort(pics, a) + ShownOrder(pics, b)
  {
    if a == [] {
      assert l == b;
    } else {
      assert forall i :: 0 <= i < |a| ==> l[i] == a[i];
      assert |a| < |l| ==> l[|a|] == b[0];
      PieceUnique(pics, l, |a|);
      GapIs(pics, l, |a|);
      assert l[..|a|] == a && l[|a|..] == b;
    }
  }

  lemma WithoutSplit<T>(l: seq<T>, n: nat, k: nat)
    requires k < n <= |l|
    ensures Without(l, k) == Without(l[..n], k) + l[n..] && l[..n][k] == l[k] && l[..n] + l[n..] == l
  {
    assert l[..n][..k] == l[..k] && l[..n][k + 1..] == l[k + 1..n];
  }

  lemma InsideSplit(pics: seq<PicInfo>, l: seq<nat>, n: nat)
    requires Inside(pics, l) && n <= |l|
    ensures Inside(pics, l[..n]) && Inside(pics, l[n..])
  {
  }

  /** What is left of a piece that meets no gap, and of the pieces behind it. */
  lemma WholeParts(pics: seq<PicInfo>, l: seq<nat>)
    requires Inside(pics, l) && l != [] && Gap(pics, l, Piece(pics, l)) == Piece(pics, l)
    ensures var n, k := Piece(pics, l), Taken(pics, l); var a, b := l[..n], l[n..];
            && k < |a| && a[k] == l[k] && a + b == l && Left(pics, l) == Without(a, k) + b
            && Inside(pics, a) && Inside(pics, b) && OnePiece(pics, a) && (b != [] ==> pics[b[0]].bKeyFrame)
            && IsFirst(pics, a, n, k)
  {
    hide IsFirst, First, Piece, FirstOwned, Gap, Without;
    var n := Piece(pics, l);
    PieceEnds(pics, l);
    OwnedBeforeGap(pics, l, n);
    WithoutSplit(l, n, Taken(pics, l));
    InsideSplit(pics, l, n);
    FirstOfPrefix(pics, l, n, Taken(pics, l));
  }

  /** A round that meets no gap. */
  lemma WholeRound(pics: seq<PicInfo>, l: seq<nat>)
    requires Inside(pics, l) && l != [] && Gap(pics, l, Piece(pics, l)) == Piece(pics, l)
    ensures ShownOrder(pics, l) == [l[Taken(pics, l)]] + ShownOrder(pics, Left(pics, l))
  {
    hide StableSort, IsFirst, Piece, ShownOrder, Gap, Taken, Left, OnePiece, Without;
    WholeParts(pics, l);
    var n, k := Piece(pics, l), Taken(pics, l);
    var a, b := l[..n], l[n..];
    SortTakesFirst(pics, a, k);
    OnePieceWithout(pics, a, k);
    ShownParts(pics, l, a, b);
    ShownParts(pics, Left(pics, l), Without(a, k), b);
    Append([l[k]], StableSort(pics, Without(a, k)), ShownOrder(pics, b));
  }

  /** A round that meets a gap. */
  lemma GapRound(pics: seq<PicInfo>, l: seq<nat>)
    requires Inside(pics, l) && l != [] && Gap(pics, l, Piece(pics, l)) < Piece(pics, l)
    ensures ShownOrder(pics, l) == [l[Taken(pics, l)]] + ShownOrder(pics, Left(pics, l))
  {
    hide StableSort, IsFirst, First, Piece, FirstOwned, Gap;
    var n := Piece(pics, l);
    var k, h := FirstOwned(pics, l, n), Gap(pics, l, n);
    var a := l[..h];
    PieceEnds(pics, l);
    assert Inside(pics, a) && OnePiece(pics, a);
    hide ShownOrder;
    ShownAtGap(pics, l);
    if k < h {
      OwnedBeforeGap(pics, l, n);
      FirstOfPrefix(pics, l, h, k);
      SortTakesFirst(pics, a, k);
      OnePieceWithout(pics, a, k);
      OnePieceOrder(pics, Without(a, k));
      assert [] + StableSort(pics, a) == StableSort(pics, a);
    } else {
      OnePieceOrder(pics, a);
    }
  }

  lemma ShownAtGap(pics: seq<PicInfo>, l: seq<nat>)
    requires Inside(pics, l) && l != [] && Gap(pics, l, Piece(pics, l)) < Piece(pics, l)
    ensures var n := Piece(pics, l); var k, h := FirstOwned(pics, l, n), Gap(pics, l, n);
            ShownOrder(pics, l) == (if k < h then [] else [l[k]]) + StableSort(pics, l[..h])
  {
    hide Piece, FirstOwned, Gap, StableSort;
  }

  lemma FirstOfPrefix(pics: seq<PicInfo>, l: seq<nat>, n: nat, k: nat)
    requires Inside(pics, l) && n <= |l| && IsFirst(pics, l, n, k)
    ensures IsFirst(pics, l[..n], n, k)
  {
  }

  /** What the rounds of a flush take out is what the declaration says. */
  lemma {:induction false} FlushIsShownOrder(pics: seq<PicInfo>, l: seq<nat>)
    requires Inside(pics, l)
    ensures FlushOrder(pics, l) == ShownOrder(pics, l)
    decreases |l|
  {
    hide Taken, Left, Piece, Gap, StableSort;
    if l != [] {
      FlushIsShownOrder(pics, Left(pics, l));
      if Gap(pics, l, Piece(pics, l)) == Piece(pics, l) {
        WholeRound(pics, l);
      } else {
        GapRound(pics, l);
      }
    }
  }

  /** Without gaps the pieces stay together. */
  lemma {:induction false} NoGapsBehind(pics: seq<PicInfo>, l: seq<nat>)
    requires Inside(pics, l) && l != []
    ensures var n := Piece(pics, l);
            Inside(pics, l[n..]) && (NoGaps(pics, l) <==> Gap(pics, l, n) == n && NoGaps(pics, l[n..]))
  {
    var n := Piece(pics, l);
    PieceEnds(pics, l);
    InsideSplit(pics, l, n);
    hide Piece, Inside, Gap;
    assert forall i :: n <= i < |l| ==> l[i] == l[n..][i - n];
    if NoGaps(pics, l) {
      GapIs(pics, l, n);
    }
  }

  lemma {:induction false} ShownWhole(pics: seq<PicInfo>, l: seq<nat>)
    requires Inside(pics, l) && l != []
    ensures var n := Piece(pics, l);
            && DisplayOrder(pics, l) == StableSort(pics, l[..n]) + DisplayOrder(pics, l[n..])
            && (Gap(pics, l, n) == n ==> ShownOrder(pics, l) == StableSort(pics, l[..n]) + ShownOrder(pics, l[n..]))
  {
    hide Piece, StableSort, Gap, FirstOwned;
  }

  lemma {:induction false} ShownShort(pics: seq<PicInfo>, l: seq<nat>)
    requires Inside(pics, l) && l != [] && Gap(pics, l, Piece(pics, l)) < Piece(pics, l)
    ensures |ShownOrder(pics, l)| < |l|
  {
    hide Piece, StableSort, Gap, FirstOwned, ShownOrder;
    var n := Piece(pics, l);
    var k, h := FirstOwned(pics, l, n), Gap(pics, l, n);
    ShownAtGap(pics, l);
    FirstOwnedIs(pics, l, n);
    assert k != h;
  }

  /**
   All waiting entries are shown, in display order, exactly if no entry behind the head lacks its picture, save
   key frames.
   */
  lemma {:induction false} ShowsAllExactly(pics: seq<PicInfo>, l: seq<nat>)
    requires Inside(pics, l)
    ensures ShownOrder(pics, l) == DisplayOrder(pics, l) <==> NoGaps(pics, l)
    ensures |ShownOrder(pics, l)| == |l| <==> NoGaps(pics, l)
    ensures |ShownOrder(pics, l)| <= |l| == |DisplayOrder(pics, l)|
    decreases |l|
  {
    if l == [] {
      NothingMissing(pics);
    } else {
      InsideSplit(pics, l, Piece(pics, l));
      hide Piece, Gap, NoGaps, ShownOrder, DisplayOrder, StableSort, Inside;
      var n := Piece(pics, l);
      NoGapsBehind(pics, l);
      ShownWhole(pics, l);
      if Gap(pics, l, n) < n {
        ShownShort(pics, l);
      }
      ShowsAllExactly(pics, l[n..]);
      SameTail(StableSort(pics, l[..n]), ShownOrder(pics, l[n..]), DisplayOrder(pics, l[n..]));
    }
  }

  lemma NothingMissing(pics: seq<PicInfo>)
    ensures NoGaps(pics, [])
  {
  }

  lemma SameTail<T>(a: seq<T>, b: seq<T>, c: seq<T>)
    ensures a + b == a + c <==> b == c
  {
    assert (a + b)[|a|..] == b && (a + c)[|a|..] == c;
  }

  /** Whatever the order, a flush takes out no entry twice; and all of them exactly if there is no gap. */
  lemma {:induction false} FlushTakesOnce(pics: seq<PicInfo>, l: seq<nat>)
    requires Inside(pics, l)
    ensures multiset(FlushOrder(pics, l)) <= multiset(l)
    decreases |l|
  {
    hide Piece, FirstOwned, Gap;
    if l != [] {
      var k := Taken(pics, l);
      FlushTakesOnce(pics, Left(pics, l));
      var n := Piece(pics, l);
      var h := Gap(pics, l, n);
      var kept := if h == n then l else l[..h];
      PrefixBag(l, kept, k);
    }
  }

  lemma PrefixBag(l: seq<nat>, kept: seq<nat>, k: nat)
    requires kept <= l && k < |l|
    ensures var r := if k < |kept| then Without(kept, k) else kept; multiset{l[k]} + multiset(r) <= multiset(l)
  {
    assert l == kept + l[|kept|..];
    if k < |kept| {
      WithoutBag(kept, k);
    } else {
      assert l[k] in l[|kept|..];
    }
  }

  lemma {:induction false} FlushTakesAll(pics: seq<PicInfo>, l: seq<nat>)
    requires Inside(pics, l)
    ensures multiset(FlushOrder(pics, l)) == multiset(l) <==> NoGaps(pics, l)
  {
    hide FlushOrder, ShownOrder, NoGaps, DisplayOrder;
    FlushTakesOnce(pics, l);
    FlushIsShownOrder(pics, l);
    ShowsAllExactly(pics, l);
    SameBag(FlushOrder(pics, l), l);
  }

  lemma SameBag(a: seq<nat>, b: seq<nat>)
    requires multiset(a) <= multiset(b)
    ensures multiset(a) == multiset(b) <==> |a| == |b|
  {
    var rest := multiset(b) - multiset(a);
    assert multiset(b) == multiset(a) + rest;
    assert |multiset(a)| == |a| && |multiset(b)| == |b|;
    assert |rest| == 0 ==> rest == multiset{};
  }
}
