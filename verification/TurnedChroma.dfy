/**
 A turn by 270 degrees puts interleaved chroma where the result says it is, and does not say where that should be.
 Which result pictures come out turned?
 */
module TurnedChroma {
  import opened Common
  import opened Pixels
  import opened PixelFormat

  /** p, of the given size and layout, is turned into a buffer of n bytes, its chroma placed at c. */
  ghost predicate TurnedAt(t: Turn, f: Format, w: nat, h: nat, stride: nat, n: nat, c: nat, p: Pic, was: seq<byte>,
                           q: Pic) {
    && p.w == w && p.h == h && p.stride == stride && p.format == f && Whole(p)
    && |was| == n && Placed(t, p, was, q, c)
  }

  /** Without whole two-by-two blocks no chroma is moved, wherever it is said to be. */
  lemma NoBlocks(t: Turn, p: Pic, was: seq<byte>, q: Pic, c: nat, r: nat)
    requires Placed(t, p, was, q, c) && (p.w < 2 || p.h < 2)
    ensures Placed(t, p, was, q, r)
  {
    hide LumaPlaced;
    var mid :| LumaPlaced(t, p, was, mid, q) && ChromaPlaced(t, p, mid, q, c);
    NothingElse(t, p, mid, q, c, r);
  }

  lemma NothingElse(t: Turn, p: Pic, mid: seq<byte>, q: Pic, c: nat, r: nat)
    requires ChromaPlaced(t, p, mid, q, c) && (p.w < 2 || p.h < 2)
    ensures ChromaPlaced(t, p, mid, q, r)
  {
    assert p.w / 2 == 0 || p.h / 2 == 0;
    hide Cell, YSize, At;
  }

  // ----- a picture whose chroma is found nowhere else

  /** The first sample of each pair, and the second. */
  function Low(c: nat, stride: nat): Plane { Plane(c, stride, 2) }

  function High(c: nat, stride: nat): Plane { Plane(c + 1, stride, 2) }

  /** A cell of either plane. */
  ghost predicate InPairs(c: nat, stride: nat, w: nat, h: nat, k: nat) {
    Hit(Low(c, stride), w, h, k) || Hit(High(c, stride), w, h, k)
  }

  ghost function Marks(c: nat, stride: nat, w: nat, h: nat, n: nat): (d: seq<byte>)
    ensures |d| == n && forall k :: 0 <= k < n ==> d[k] == if InPairs(c, stride, w, h, k) then 1 else 0
  {
    seq(n, k requires 0 <= k < n => if InPairs(c, stride, w, h, k) then 1 as byte else 0 as byte)
  }

  /** The pairs lie between their first and their last cell. */
  lemma PairsBetween(c: nat, stride: nat, w: nat, h: nat, k: nat)
    requires w > 0 && h > 0 && 2 * w <= stride && InPairs(c, stride, w, h, k)
    ensures c <= k <= Cell(High(c, stride), w - 1, h - 1)
  {
    hide Hit;
    var end := Cell(High(c, stride), w - 1, h - 1) + 1;
    assert Fits(Low(c, stride), w, h, end) && Fits(High(c, stride), w, h, end);
    if Hit(Low(c, stride), w, h, k) {
      HitBelow(Low(c, stride), w, h, end, k);
    } else {
      HitBelow(High(c, stride), w, h, end, k);
    }
  }

  /** Placed elsewhere, the first or the last cell is missed. */
  lemma PairsMissed(c: nat, r: nat, stride: nat, w: nat, h: nat)
    requires w > 0 && h > 0 && 2 * w <= stride && c != r
    ensures !InPairs(c, stride, w, h, Cell(Low(r, stride), 0, 0))
            || !InPairs(c, stride, w, h, Cell(High(r, stride), w - 1, h - 1))
  {
    hide InPairs;
    var first, last := Cell(Low(r, stride), 0, 0), Cell(High(r, stride), w - 1, h - 1);
    if InPairs(c, stride, w, h, first) {
      PairsBetween(c, stride, w, h, first);
    }
    if InPairs(c, stride, w, h, last) {
      PairsBetween(c, stride, w, h, last);
    }
  }

  /** A picture with all luma samples 0 and all chroma samples 1. */
  function Plain(f: Format, w: nat, h: nat, stride: nat): (p: Pic)
    ensures stride % 16 == 0 && w <= stride ==> Whole(p)
  {
    var s := YSize(stride, h);
    Pic(seq(s + s / 2, k => if k < s then 0 as byte else 1 as byte), w, h, stride, f)
  }

  lemma PlainLuma(f: Format, w: nat, h: nat, stride: nat, x: nat, y: nat)
    requires stride % 16 == 0 && w <= stride && x < w && y < h
    ensures Luma(Plain(f, w, h, stride), x, y) == 0
  {
    hide Cell, YSize;
    LumaFits(stride, w, h);
    CellBelow(LumaPlane(stride), w, h, YSize(stride, h), x, y);
  }

  lemma PlainChroma(f: Format, w: nat, h: nat, stride: nat, x: nat, y: nat)
    requires stride % 16 == 0 && w <= stride && x < w / 2 && y < h / 2
    ensures V(Plain(f, w, h, stride), x, y) == U(Plain(f, w, h, stride), x, y) == 1
  {
    hide Cell, YSize, Fits;
    var s := YSize(stride, h);
    BlocksFit(f, stride, w, h, s, w / 2, h / 2, s + s / 2);
    CellBelow(VPlane(f, stride, s, s), w / 2, h / 2, s + s / 2, x, y);
    CellBelow(UPlane(f, stride, s, s), w / 2, h / 2, s + s / 2, x, y);
  }

  /** The plain picture turned into a buffer of zeros. */
  ghost function Turned(t: Turn, f: Format, w: nat, h: nat, stride: nat, n: nat, c: nat): Pic {
    var qs := TurnedStride(t, stride, h);
    Pic(Marks(c, qs, TurnedW(t, w / 2, h / 2), TurnedH(t, w / 2, h / 2), n), TurnedW(t, w, h), TurnedH(t, w, h), qs, f)
  }

  lemma PlainLumaPlaced(t: Turn, f: Format, w: nat, h: nat, stride: nat, n: nat, c: nat)
    requires t != R0 && stride % 16 == 0 && w <= stride
    ensures LumaPlaced(t, Plain(f, w, h, stride), Zeros(n), Zeros(n), Turned(t, f, w, h, stride, n, c))
  {
    hide Cell, Plain, YSize;
    var p, q := Plain(f, w, h, stride), Turned(t, f, w, h, stride, n, c);
    PlainIs(f, w, h, stride);
    forall x, y | 0 <= x < w && 0 <= y < h
      ensures At(Zeros(n), LumaPlane(q.stride), TurnedX(t, w, h, x, y), TurnedY(t, w, h, x, y))
           == At(p.data, LumaPlane(stride), x, y)
    {
      PlainLuma(f, w, h, stride, x, y);
    }
  }

  lemma PlainIs(f: Format, w: nat, h: nat, stride: nat)
    ensures var p := Plain(f, w, h, stride); p.w == w && p.h == h && p.stride == stride && p.format == f
  {
  }

  /** A plane of chroma samples that are all 1 is moved onto marked cells. */
  lemma MarkedMoves(t: Turn, f: Format, w: nat, h: nat, stride: nat, n: nat, c: nat, from: Plane, to: Plane)
    requires t != R0 && stride % 16 == 0 && w <= stride
    requires var qs := TurnedStride(t, stride, h); to == Low(c, qs) || to == High(c, qs)
    requires Fits(to, TurnedW(t, w / 2, h / 2), TurnedH(t, w / 2, h / 2), n)
    requires forall x, y :: 0 <= x < w / 2 && 0 <= y < h / 2 ==> At(Plain(f, w, h, stride).data, from, x, y) == 1
    ensures Moved(t, Plain(f, w, h, stride).data, from, Turned(t, f, w, h, stride, n, c).data, to,
                  w / 2, h / 2, 0, h / 2)
  {
    hide Cell, Plain, YSize, Fits;
    var d, tw, th := Turned(t, f, w, h, stride, n, c).data, TurnedW(t, w / 2, h / 2), TurnedH(t, w / 2, h / 2);
    forall x, y | 0 <= x < w / 2 && 0 <= y < h / 2
      ensures At(d, to, TurnedX(t, w / 2, h / 2, x, y), TurnedY(t, w / 2, h / 2, x, y)) == 1
    {
      var x0, y0 := TurnedX(t, w / 2, h / 2, x, y), TurnedY(t, w / 2, h / 2, x, y);
      CellBelow(to, tw, th, n, x0, y0);
      assert Hit(to, tw, th, Cell(to, x0, y0));
      assert InPairs(c, TurnedStride(t, stride, h), tw, th, Cell(to, x0, y0));
    }
  }

  lemma MarksAreKept(c: nat, stride: nat, w: nat, h: nat, n: nat)
    ensures Kept(Zeros(n), Marks(c, stride, w, h, n), Low(c, stride), High(c, stride), w, h)
    ensures Kept(Zeros(n), Marks(c, stride, w, h, n), High(c, stride), Low(c, stride), w, h)
  {
    hide Hit;
  }

  lemma PlainChromaPlaced(t: Turn, f: Format, w: nat, h: nat, stride: nat, n: nat, c: nat)
    requires t != R0 && Interleaved(f) && stride % 16 == 0 && w <= stride
    requires var r := YSize(TurnedStride(t, stride, h), TurnedH(t, w, h)); c + r / 2 <= n
    ensures ChromaPlaced(t, Plain(f, w, h, stride), Zeros(n), Turned(t, f, w, h, stride, n, c), c)
  {
    hide Cell, Plain, YSize, Fits, Moved, Kept, At, Apart;
    var p, q := Plain(f, w, h, stride), Turned(t, f, w, h, stride, n, c);
    var s, tw, th := YSize(stride, h), TurnedW(t, w / 2, h / 2), TurnedH(t, w / 2, h / 2);
    PlainIs(f, w, h, stride);
    forall x, y | 0 <= x < w / 2 && 0 <= y < h / 2
      ensures At(p.data, VPlane(f, stride, s, s), x, y) == At(p.data, UPlane(f, stride, s, s), x, y) == 1
    {
      PlainChroma(f, w, h, stride, x, y);
    }
    BlocksFit(f, q.stride, q.w, q.h, c, tw, th, n);
    var r := YSize(q.stride, q.h);
    MarkedMoves(t, f, w, h, stride, n, c, VPlane(f, stride, s, s), VPlane(f, q.stride, c, r));
    MarkedMoves(t, f, w, h, stride, n, c, UPlane(f, stride, s, s), UPlane(f, q.stride, c, r));
    MarksAreKept(c, q.stride, tw, th, n);
  }

  /** It is turned there, but does not show turned. */
  lemma PlainDoesNotShow(t: Turn, f: Format, w: nat, h: nat, stride: nat, n: nat, c: nat)
    requires t != R0 && Interleaved(f) && stride % 16 == 0 && w <= stride && w >= 2 && h >= 2
    requires var r := YSize(TurnedStride(t, stride, h), TurnedH(t, w, h)); r + r / 2 <= n && c != r
    ensures !IsTurned(t, Plain(f, w, h, stride), Turned(t, f, w, h, stride, n, c))
  {
    hide Cell, Plain, YSize, Fits, InPairs;
    var p, q := Plain(f, w, h, stride), Turned(t, f, w, h, stride, n, c);
    var tw, th, r := TurnedW(t, w / 2, h / 2), TurnedH(t, w / 2, h / 2), YSize(q.stride, q.h);
    PlainIs(f, w, h, stride);
    PairsMissed(c, r, q.stride, tw, th);
    BlocksFit(f, q.stride, q.w, q.h, r, tw, th, n);
    CellBelow(Low(r, q.stride), tw, th, n, 0, 0);
    CellBelow(High(r, q.stride), tw, th, n, tw - 1, th - 1);
    var (x, y) := if InPairs(c, q.stride, tw, th, Cell(Low(r, q.stride), 0, 0)) then (tw - 1, th - 1) else (0, 0);
    assert V(q, x, y) == 0 || U(q, x, y) == 0;
    var (x0, y0) := Source(t, w / 2, h / 2, x, y);
    PlainChroma(f, w, h, stride, x0, y0);
  }

  lemma TurnedStrideFits(t: Turn, w: nat, h: nat, stride: nat)
    requires stride % 16 == 0 && w <= stride
    ensures TurnedStride(t, stride, h) % 16 == 0 && (t != R0 ==> TurnedW(t, w, h) <= TurnedStride(t, stride, h))
  {
  }

  /**
   All pictures of a size come out turned, whatever they show, exactly if the result says that its chroma
   starts where its luma ends; or if there are no two-by-two blocks.
   */
  lemma TurnedChromaExactly(t: Turn, f: Format, w: nat, h: nat, stride: nat, n: nat, c: nat)
    requires t != R0 && Interleaved(f) && stride % 16 == 0 && w <= stride
    requires var r := YSize(TurnedStride(t, stride, h), TurnedH(t, w, h)); r + r / 2 <= n && c + r / 2 <= n
    ensures (forall p, was, q :: TurnedAt(t, f, w, h, stride, n, c, p, was, q) ==> IsTurned(t, p, q))
            <==> c == YSize(TurnedStride(t, stride, h), TurnedH(t, w, h)) || w < 2 || h < 2
  {
    hide YSize, IsTurned, LumaPlaced, ChromaPlaced, TurnedStride, AlignUp;
    TurnedStrideFits(t, w, h, stride);
    var r := YSize(TurnedStride(t, stride, h), TurnedH(t, w, h));
    if c == r || w < 2 || h < 2 {
      forall p, was, q | TurnedAt(t, f, w, h, stride, n, c, p, was, q) ensures IsTurned(t, p, q) {
        if c != r {
          NoBlocks(t, p, was, q, c, r);
        }
        PlacedShows(t, p, was, q);
      }
    } else {
      var p, q := Plain(f, w, h, stride), Turned(t, f, w, h, stride, n, c);
      PlainIs(f, w, h, stride);
      PlainLumaPlaced(t, f, w, h, stride, n, c);
      PlainChromaPlaced(t, f, w, h, stride, n, c);
      PlainDoesNotShow(t, f, w, h, stride, n, c);
      hide Plain;
      assert TurnedAt(t, f, w, h, stride, n, c, p, Zeros(n), q);
    }
  }
}
