/**
 Turning pictures and changing their pixel format: nested loops that move samples from
 one picture buffer to another.
 */
module PixelFormat {
  import opened Common
  import opened Pixels

  // ----- what one moved sample changes

  /** k is a cell of the w by h plane. */
  ghost predicate Hit(p: Plane, w: nat, h: nat, k: nat) {
    exists x, y :: 0 <= x < w && 0 <= y < h && Cell(p, x, y) == k
  }

  /** The samples before column i of row j are moved. */
  ghost predicate Moved(t: Turn, s: seq<byte>, from: Plane, d: seq<byte>, to: Plane, w: nat, h: nat, i: nat, j: nat) {
    forall x, y :: 0 <= x < w && 0 <= y < h && (y < j || (y == j && x < i)) ==>
      At(d, to, TurnedX(t, w, h, x, y), TurnedY(t, w, h, x, y)) == At(s, from, x, y)
  }

  /** Nothing but cells of the two planes has changed. */
  ghost predicate Kept(d: seq<byte>, e: seq<byte>, p: Plane, q: Plane, w: nat, h: nat) {
    |d| == |e| && forall k :: 0 <= k < |d| && !Hit(p, w, h, k) && !Hit(q, w, h, k) ==> e[k] == d[k]
  }

  lemma HitBelow(p: Plane, w: nat, h: nat, end: nat, k: nat)
    requires Fits(p, w, h, end) && Hit(p, w, h, k)
    ensures p.base <= k < end
  {
    var x, y :| 0 <= x < w && 0 <= y < h && Cell(p, x, y) == k;
    CellBelow(p, w, h, end, x, y);
  }

  lemma MoveSample(t: Turn, s: seq<byte>, from: Plane, d: seq<byte>, to: Plane, w: nat, h: nat, i: nat, j: nat)
    requires i < w && j < h && Fits(from, w, h, |s|) && Fits(to, TurnedW(t, w, h), TurnedH(t, w, h), |d|)
    requires Moved(t, s, from, d, to, w, h, i, j)
    ensures Cell(from, i, j) < |s|
    ensures var c := Cell(to, TurnedX(t, w, h, i, j), TurnedY(t, w, h, i, j));
            && c < |d| && Hit(to, TurnedW(t, w, h), TurnedH(t, w, h), c)
            && Moved(t, s, from, d[c := s[Cell(from, i, j)]], to, w, h, i + 1, j)
  {
    hide Cell, Fits;
    var tw, th := TurnedW(t, w, h), TurnedH(t, w, h);
    var x0, y0 := TurnedX(t, w, h, i, j), TurnedY(t, w, h, i, j);
    var c := Cell(to, x0, y0);
    CellBelow(from, w, h, |s|, i, j);
    CellBelow(to, tw, th, |d|, x0, y0);
    var e := d[c := s[Cell(from, i, j)]];
    forall x, y | 0 <= x < w && 0 <= y < h && (y < j || (y == j && x < i + 1))
      ensures At(e, to, TurnedX(t, w, h, x, y), TurnedY(t, w, h, x, y)) == At(s, from, x, y)
    {
      if (x, y) != (i, j) {
        CellInjective(to, tw, th, |d|, TurnedX(t, w, h, x, y), TurnedY(t, w, h, x, y), x0, y0);
      }
    }
  }

  /** A sample of another plane moves none of these. */
  lemma MoveOther(t: Turn, s: seq<byte>, from: Plane, d: seq<byte>, to: Plane, w: nat, h: nat, i: nat, j: nat,
                  q: Plane, x0: nat, y0: nat, b: byte)
    requires Moved(t, s, from, d, to, w, h, i, j) && Cell(q, x0, y0) < |d|
    requires x0 < TurnedW(t, w, h) && y0 < TurnedH(t, w, h)
    requires Apart(to, q, TurnedW(t, w, h), TurnedH(t, w, h))
    ensures Moved(t, s, from, d[Cell(q, x0, y0) := b], to, w, h, i, j)
  {
    hide Cell;
    var e := d[Cell(q, x0, y0) := b];
    forall x, y | 0 <= x < w && 0 <= y < h && (y < j || (y == j && x < i))
      ensures At(e, to, TurnedX(t, w, h, x, y), TurnedY(t, w, h, x, y)) == At(s, from, x, y)
    {
      assert Cell(to, TurnedX(t, w, h, x, y), TurnedY(t, w, h, x, y)) != Cell(q, x0, y0);
    }
  }

  lemma KeptPut(d: seq<byte>, e: seq<byte>, p: Plane, q: Plane, w: nat, h: nat, k: nat, b: byte)
    requires Kept(d, e, p, q, w, h) && k < |e| && (Hit(p, w, h, k) || Hit(q, w, h, k))
    ensures Kept(d, e[k := b], p, q, w, h)
  {
    hide Hit;
  }

  lemma NextRow(t: Turn, s: seq<byte>, from: Plane, d: seq<byte>, to: Plane, w: nat, h: nat, j: nat)
    ensures Moved(t, s, from, d, to, w, h, w, j) <==> Moved(t, s, from, d, to, w, h, 0, j + 1)
  {
    hide At, TurnedX, TurnedY;
  }

  // ----- the loops

  /** Moves one plane. */
  method MovePlane(t: Turn, src: array<byte>, from: Plane, dst: array<byte>, to: Plane, w: nat, h: nat)
    requires src != dst && Fits(from, w, h, src.Length) && Fits(to, TurnedW(t, w, h), TurnedH(t, w, h), dst.Length)
    modifies dst
    ensures Moved(t, src[..], from, dst[..], to, w, h, 0, h)
    ensures Kept(old(dst[..]), dst[..], to, to, TurnedW(t, w, h), TurnedH(t, w, h))
  {
    hide Moved, Kept, Fits, Hit, Cell;
    ghost var s, was := src[..], dst[..];
    NothingMoved(t, s, from, was, to, w, h);
    var j := 0;
    while j < h
      invariant 0 <= j <= h
      invariant Moved(t, s, from, dst[..], to, w, h, 0, j)
      invariant Kept(was, dst[..], to, to, TurnedW(t, w, h), TurnedH(t, w, h))
    {
      var i := 0;
      while i < w
        invariant 0 <= i <= w
        invariant Moved(t, s, from, dst[..], to, w, h, i, j)
        invariant Kept(was, dst[..], to, to, TurnedW(t, w, h), TurnedH(t, w, h))
      {
        ghost var d := dst[..];
        MoveSample(t, s, from, d, to, w, h, i, j);
        var c := Cell(to, TurnedX(t, w, h, i, j), TurnedY(t, w, h, i, j));
        KeptPut(was, d, to, to, TurnedW(t, w, h), TurnedH(t, w, h), c, s[Cell(from, i, j)]);
        dst[c] := src[Cell(from, i, j)];
        assert dst[..] == d[c := s[Cell(from, i, j)]];
        i := i + 1;
      }
      NextRow(t, s, from, dst[..], to, w, h, j);
      j := j + 1;
    }
  }

  lemma NothingMoved(t: Turn, s: seq<byte>, from: Plane, d: seq<byte>, to: Plane, w: nat, h: nat)
    ensures Moved(t, s, from, d, to, w, h, 0, 0)
    ensures forall q :: Kept(d, d, to, q, TurnedW(t, w, h), TurnedH(t, w, h))
  {
  }

  /** Moves both samples of one chroma position. */
  method MovePairAt(t: Turn, src: array<byte>, fromV: Plane, fromU: Plane, dst: array<byte>, toV: Plane, toU: Plane,
                    w: nat, h: nat, i: nat, j: nat)
    requires src != dst && Fits(fromV, w, h, src.Length) && Fits(fromU, w, h, src.Length) && i < w && j < h
    requires Fits(toV, TurnedW(t, w, h), TurnedH(t, w, h), dst.Length)
    requires Fits(toU, TurnedW(t, w, h), TurnedH(t, w, h), dst.Length)
    requires Apart(toV, toU, TurnedW(t, w, h), TurnedH(t, w, h))
    requires Moved(t, src[..], fromV, dst[..], toV, w, h, i, j) && Moved(t, src[..], fromU, dst[..], toU, w, h, i, j)
    modifies dst
    ensures Moved(t, src[..], fromV, dst[..], toV, w, h, i + 1, j)
    ensures Moved(t, src[..], fromU, dst[..], toU, w, h, i + 1, j)
    ensures forall was :: Kept(was, old(dst[..]), toV, toU, TurnedW(t, w, h), TurnedH(t, w, h))
                          ==> Kept(was, dst[..], toV, toU, TurnedW(t, w, h), TurnedH(t, w, h))
  {
    hide Moved, Kept, Fits, Hit, Cell, Apart;
    ghost var s, d := src[..], dst[..];
    ghost var tw, th := TurnedW(t, w, h), TurnedH(t, w, h);
    var x, y := TurnedX(t, w, h, i, j), TurnedY(t, w, h, i, j);
    ApartTurns(toV, toU, tw, th);
    MoveSample(t, s, fromV, d, toV, w, h, i, j);
    MoveOther(t, s, fromU, d, toU, w, h, i, j, toV, x, y, s[Cell(fromV, i, j)]);
    dst[Cell(toV, x, y)] := src[Cell(fromV, i, j)];
    ghost var e := dst[..];
    assert e == d[Cell(toV, x, y) := s[Cell(fromV, i, j)]];
    MoveSample(t, s, fromU, e, toU, w, h, i, j);
    MoveOther(t, s, fromV, e, toV, w, h, i + 1, j, toU, x, y, s[Cell(fromU, i, j)]);
    dst[Cell(toU, x, y)] := src[Cell(fromU, i, j)];
    assert dst[..] == e[Cell(toU, x, y) := s[Cell(fromU, i, j)]];
    forall was | Kept(was, d, toV, toU, tw, th) ensures Kept(was, dst[..], toV, toU, tw, th) {
      KeptPut(was, d, toV, toU, tw, th, Cell(toV, x, y), s[Cell(fromV, i, j)]);
      KeptPut(was, e, toV, toU, tw, th, Cell(toU, x, y), s[Cell(fromU, i, j)]);
    }
  }

  lemma ApartTurns(p: Plane, q: Plane, w: nat, h: nat)
    requires Apart(p, q, w, h)
    ensures Apart(q, p, w, h)
  {
    hide Cell;
  }

  /** Moves the two chroma planes side by side. */
  method MoveChroma(t: Turn, src: array<byte>, fromV: Plane, fromU: Plane, dst: array<byte>, toV: Plane, toU: Plane,
                    w: nat, h: nat)
    requires src != dst && Fits(fromV, w, h, src.Length) && Fits(fromU, w, h, src.Length)
    requires Fits(toV, TurnedW(t, w, h), TurnedH(t, w, h), dst.Length)
    requires Fits(toU, TurnedW(t, w, h), TurnedH(t, w, h), dst.Length)
    requires Apart(toV, toU, TurnedW(t, w, h), TurnedH(t, w, h))
    modifies dst
    ensures Moved(t, src[..], fromV, dst[..], toV, w, h, 0, h) && Moved(t, src[..], fromU, dst[..], toU, w, h, 0, h)
    ensures Kept(old(dst[..]), dst[..], toV, toU, TurnedW(t, w, h), TurnedH(t, w, h))
  {
    hide Moved, Kept, Fits, Hit, Cell, Apart;
    ghost var s, was := src[..], dst[..];
    NothingMoved(t, s, fromV, was, toV, w, h);
    NothingMoved(t, s, fromU, was, toU, w, h);
    var j := 0;
    while j < h
      invariant 0 <= j <= h
      invariant Moved(t, s, fromV, dst[..], toV, w, h, 0, j) && Moved(t, s, fromU, dst[..], toU, w, h, 0, j)
      invariant Kept(was, dst[..], toV, toU, TurnedW(t, w, h), TurnedH(t, w, h))
    {
      var i := 0;
      while i < w
        invariant 0 <= i <= w
        invariant Moved(t, s, fromV, dst[..], toV, w, h, i, j) && Moved(t, s, fromU, dst[..], toU, w, h, i, j)
        invariant Kept(was, dst[..], toV, toU, TurnedW(t, w, h), TurnedH(t, w, h))
      {
        MovePairAt(t, src, fromV, fromU, dst, toV, toU, w, h, i, j);
        i := i + 1;
      }
      NextRow(t, s, fromV, dst[..], toV, w, h, j);
      NextRow(t, s, fromU, dst[..], toU, w, h, j);
      j := j + 1;
    }
  }

  method CopyBytes(src: array<byte>, from: nat, dst: array<byte>, to: nat, n: nat)
    requires src != dst && from + n <= src.Length && to + n <= dst.Length
    modifies dst
    ensures dst[to..to + n] == src[from..from + n]
    ensures dst[..to] == old(dst[..to]) && dst[to + n..] == old(dst[to + n..])
  {
    ghost var was := dst[..];
    var i := 0;
    while i < n
      invariant 0 <= i <= n && dst[..to] == was[..to] && dst[to + i..] == was[to + i..]
      invariant dst[to..to + i] == src[from..from + i]
    {
      dst[to + i] := src[from + i];
      i := i + 1;
    }
  }

  // ----- pictures

  class VideoPicture {
    const ePixelFormat: Format
    const pData0: array<byte>
    // where the chroma planes start, counted from pData0
    var pData1: nat
    var pData2: nat
    var nWidth: nat
    var nHeight: nat
    var nLineStride: nat

    constructor (format: Format, size: nat, w: nat, h: nat)
      ensures ePixelFormat == format && fresh(pData0) && pData0.Length == size && nWidth == w && nHeight == h
      ensures nLineStride == AlignUp(w) && pData1 == 0 && pData2 == 0
    {
      ePixelFormat, pData0, pData1, pData2 := format, new byte[size], 0, 0;
      nWidth, nHeight, nLineStride := w, h, AlignUp(w);
    }

    ghost function Value(): Pic
      reads this, pData0
    {
      Pic(pData0[..], nWidth, nHeight, nLineStride, ePixelFormat)
    }
  }

  /** All samples moved, the luma planes first: what the two pictures then show. */
  lemma MovedShows(t: Turn, p: Pic, q: Pic, mid: seq<byte>)
    requires Whole(p) && Whole(q) && q.w == TurnedW(t, p.w, p.h) && q.h == TurnedH(t, p.w, p.h)
    requires Moved(t, p.data, LumaPlane(p.stride), mid, LumaPlane(q.stride), p.w, p.h, 0, p.h)
    requires SameBelow(mid, q.data, YSize(q.stride, q.h))
    ensures forall x, y :: 0 <= x < p.w && 0 <= y < p.h ==>
              Luma(q, TurnedX(t, p.w, p.h, x, y), TurnedY(t, p.w, p.h, x, y)) == Luma(p, x, y)
  {
    hide Cell, YSize;
    forall x, y | 0 <= x < p.w && 0 <= y < p.h
      ensures Luma(q, TurnedX(t, p.w, p.h, x, y), TurnedY(t, p.w, p.h, x, y)) == Luma(p, x, y)
    {
      LumaFits(q.stride, q.w, q.h);
      CellBelow(LumaPlane(q.stride), q.w, q.h, YSize(q.stride, q.h), TurnedX(t, p.w, p.h, x, y),
                TurnedY(t, p.w, p.h, x, y));
    }
  }

  ghost predicate SameBelow(d: seq<byte>, e: seq<byte>, n: nat) {
    n <= |d| == |e| && forall k :: 0 <= k < n ==> d[k] == e[k]
  }

  /** Chroma planes begin behind the luma, so moving them leaves it alone. */
  lemma ChromaKeepsLuma(d: seq<byte>, e: seq<byte>, v: Plane, u: Plane, w: nat, h: nat, n: nat)
    requires Kept(d, e, v, u, w, h) && n <= |d| && v.base >= n && u.base >= n && Fits(v, w, h, |d|)
    requires Fits(u, w, h, |d|)
    ensures SameBelow(d, e, n)
  {
    hide Cell, Fits, Hit;
    forall k | 0 <= k < n ensures d[k] == e[k] {
      if Hit(v, w, h, k) {
        HitBelow(v, w, h, |d|, k);
      }
      if Hit(u, w, h, k) {
        HitBelow(u, w, h, |d|, k);
      }
    }
  }

  lemma ApartLess(p: Plane, q: Plane, w: nat, h: nat, w': nat, h': nat)
    requires Apart(p, q, w, h) && w' <= w && h' <= h
    ensures Apart(p, q, w', h')
  {
    hide Cell;
  }

  /** Room for the chroma samples of the whole two-by-two blocks. */
  lemma BlocksFit(f: Format, stride: nat, w: nat, h: nat, chroma: nat, w': nat, h': nat, end: nat)
    requires stride % 16 == 0 && w <= stride && w' <= Half(w) && h' <= Half(h) && chroma + YSize(stride, h) / 2 <= end
    ensures var s := YSize(stride, h); var v := VPlane(f, stride, chroma, s); var u := UPlane(f, stride, chroma, s);
            && Fits(v, w', h', end) && Fits(u, w', h', end) && Apart(v, u, w', h') && v.base >= chroma
            && u.base >= chroma
  {
    hide Cell, YSize, Fits, Apart;
    var s := YSize(stride, h);
    var v, u := VPlane(f, stride, chroma, s), UPlane(f, stride, chroma, s);
    ChromaFits(f, stride, w, h, chroma);
    FitsFurther(v, Half(w), Half(h), chroma + s / 2, end);
    FitsFurther(u, Half(w), Half(h), chroma + s / 2, end);
    FitsLess(v, Half(w), Half(h), end, w', h');
    FitsLess(u, Half(w), Half(h), end, w', h');
    ApartLess(v, u, Half(w), Half(h), w', h');
  }

  predicate Interleaved(f: Format) {
    f == Nv21 || f == Nv12
  }

  /** The line stride of the turned picture. */
  function TurnedStride(t: Turn, stride: nat, h: nat): nat {
    if t == R180 then stride else AlignUp(h)
  }

  /** What luma and chroma moved one after the other show. */
  lemma TurnShows(t: Turn, p: Pic, q: Pic, mid: seq<byte>)
    requires Whole(p) && Whole(q) && p.format == q.format && |mid| == |q.data|
    requires q.w == TurnedW(t, p.w, p.h) && q.h == TurnedH(t, p.w, p.h)
    requires Moved(t, p.data, LumaPlane(p.stride), mid, LumaPlane(q.stride), p.w, p.h, 0, p.h)
    requires ChromaPlaced(t, p, mid, q, YSize(q.stride, q.h))
    ensures IsTurned(t, p, q)
  {
    hide Cell, YSize, Kept, At, Fits, SameBelow;
    var r := YSize(q.stride, q.h);
    BlocksFit(q.format, q.stride, q.w, q.h, r, TurnedW(t, p.w / 2, p.h / 2), TurnedH(t, p.w / 2, p.h / 2), |q.data|);
    ChromaKeepsLuma(mid, q.data, VPlane(q.format, q.stride, r, r), UPlane(q.format, q.stride, r, r),
                    TurnedW(t, p.w / 2, p.h / 2), TurnedH(t, p.w / 2, p.h / 2), r);
    MovedShows(t, p, q, mid);
  }

  /** The chroma of p's whole blocks lies turned at c in q's buffer; all else there is as in `mid`. */
  ghost predicate ChromaPlaced(t: Turn, p: Pic, mid: seq<byte>, q: Pic, c: nat) {
    var s, r, w, h := YSize(p.stride, p.h), YSize(q.stride, q.h), p.w / 2, p.h / 2;
    var v, u := VPlane(q.format, q.stride, c, r), UPlane(q.format, q.stride, c, r);
    && Moved(t, p.data, VPlane(p.format, p.stride, s, s), q.data, v, w, h, 0, h)
    && Moved(t, p.data, UPlane(p.format, p.stride, s, s), q.data, u, w, h, 0, h)
    && Kept(mid, q.data, v, u, TurnedW(t, w, h), TurnedH(t, w, h))
  }

  ghost predicate LumaPlaced(t: Turn, p: Pic, was: seq<byte>, mid: seq<byte>, q: Pic) {
    && Moved(t, p.data, LumaPlane(p.stride), mid, LumaPlane(q.stride), p.w, p.h, 0, p.h)
    && Kept(was, mid, LumaPlane(q.stride), LumaPlane(q.stride), q.w, q.h)
  }

  /** q is p turned into a buffer that held `was`: first the luma, then the chroma at c. */
  ghost predicate Placed(t: Turn, p: Pic, was: seq<byte>, q: Pic, c: nat) {
    && q.w == TurnedW(t, p.w, p.h) && q.h == TurnedH(t, p.w, p.h)
    && q.stride == TurnedStride(t, p.stride, p.h) && q.format == p.format && |q.data| == |was|
    && exists mid :: LumaPlaced(t, p, was, mid, q) && ChromaPlaced(t, p, mid, q, c)
  }

  lemma PlacedShows(t: Turn, p: Pic, was: seq<byte>, q: Pic)
    requires Whole(p) && Placed(t, p, was, q, YSize(q.stride, q.h)) && Whole(q)
    ensures IsTurned(t, p, q)
  {
    hide Moved, ChromaPlaced, Kept, YSize;
    var mid :| LumaPlaced(t, p, was, mid, q) && ChromaPlaced(t, p, mid, q, YSize(q.stride, q.h));
    KeptLength(was, mid, LumaPlane(q.stride), q.w, q.h);
    TurnShows(t, p, q, mid);
  }

  lemma KeptLength(d: seq<byte>, e: seq<byte>, p: Plane, w: nat, h: nat)
    requires Kept(d, e, p, p, w, h)
    ensures |e| == |d|
  {
  }

  /** The picture as a turn reads it: the format of the result goes for both. */
  ghost function ReadAs(pictureIn: VideoPicture, f: Format): Pic
    reads pictureIn, pictureIn.pData0
  {
    pictureIn.Value().(format := f)
  }

  /** Where the chroma of the result goes: a turn by 270 degrees takes the interleaved chroma's place as it finds it. */
  function ChromaBase(t: Turn, pictureOut: VideoPicture, r: nat): nat
    reads pictureOut
  {
    if t == R270 && Interleaved(pictureOut.ePixelFormat) then pictureOut.pData1 else r
  }

  /** A moved plane is there byte by byte. */
  lemma MovedIsWritten(t: Turn, s: seq<byte>, from: Plane, d: seq<byte>, to: Plane, w: nat, h: nat)
    requires Fits(from, w, h, |s|) && Fits(to, TurnedW(t, w, h), TurnedH(t, w, h), |d|)
    requires Moved(t, s, from, d, to, w, h, 0, h)
    ensures Written(t, s, from, d, to, w, h)
  {
    hide Cell, Fits, At;
    SamplesAreBytes(t, s, from, d, to, w, h);
  }

  /** The luma, unless chroma is written over it. */
  lemma LumaIsTurned(t: Turn, p: Pic, mid: seq<byte>, q: Pic, v: Plane, u: Plane, w: nat, h: nat)
    requires Whole(p) && Whole(q) && q.w == TurnedW(t, p.w, p.h) && q.h == TurnedH(t, p.w, p.h) && |mid| == |q.data|
    requires Moved(t, p.data, LumaPlane(p.stride), mid, LumaPlane(q.stride), p.w, p.h, 0, p.h)
    requires Kept(mid, q.data, v, u, w, h) && Fits(v, w, h, |mid|) && Fits(u, w, h, |mid|)
    requires v.base >= YSize(q.stride, q.h) && u.base >= YSize(q.stride, q.h)
    ensures Written(t, p.data, Plane(0, p.stride, 1), q.data, Plane(0, q.stride, 1), p.w, p.h)
  {
    hide Cell, Fits, YSize, Kept, Written;
    var r := YSize(q.stride, q.h);
    ChromaKeepsLuma(mid, q.data, v, u, w, h, r);
    MovedShows(t, p, q, mid);
    LumaFitsIn(p.stride, p.w, p.h, |p.data|);
    LumaFitsIn(q.stride, q.w, q.h, |q.data|);
    forall x, y | 0 <= x < p.w && 0 <= y < p.h
      ensures At(q.data, LumaPlane(q.stride), TurnedX(t, p.w, p.h, x, y), TurnedY(t, p.w, p.h, x, y))
              == At(p.data, LumaPlane(p.stride), x, y)
    {
      assert Luma(q, TurnedX(t, p.w, p.h, x, y), TurnedY(t, p.w, p.h, x, y)) == Luma(p, x, y);
    }
    SamplesAreBytes(t, p.data, LumaPlane(p.stride), q.data, LumaPlane(q.stride), p.w, p.h);
  }

  /**
   The bytes of q are those of p turned, its chroma at c: in one plane of pairs, or in two planes. The luma is there
   unless the chroma is put over it.
   */
  ghost predicate TurnedBytes(t: Turn, p: Pic, q: Pic, c: nat) {
    var (n, n') := (p.stride * ((p.h + 15) / 16 * 16), q.stride * ((q.h + 15) / 16 * 16));
    && (c >= n' ==> Written(t, p.data, Plane(0, p.stride, 1), q.data, Plane(0, q.stride, 1), p.w, p.h))
    && if p.format == Yv12 then
         BothWritten(t, p.data, Plane(n, p.stride / 2, 1), Plane(n + n / 4, p.stride / 2, 1),
                     q.data, Plane(c, q.stride / 2, 1), Plane(c + n' / 4, q.stride / 2, 1), p.w / 2, p.h / 2)
       else
         BothWritten(t, p.data, Plane(n, p.stride, 2), Plane(n + 1, p.stride, 2),
                     q.data, Plane(c, q.stride, 2), Plane(c + 1, q.stride, 2), p.w / 2, p.h / 2)
  }

  lemma PlacedIs(t: Turn, p: Pic, was: seq<byte>, mid: seq<byte>, q: Pic, c: nat)
    requires LumaPlaced(t, p, was, mid, q) && ChromaPlaced(t, p, mid, q, c) && |q.data| == |was|
    requires q.w == TurnedW(t, p.w, p.h) && q.h == TurnedH(t, p.w, p.h)
    requires q.stride == TurnedStride(t, p.stride, p.h) && q.format == p.format
    ensures Placed(t, p, was, q, c)
  {
    hide LumaPlaced, ChromaPlaced, TurnedStride, TurnedW, TurnedH;
  }

  /** The moved planes of a placed picture. */
  lemma PlacedPlanes(t: Turn, p: Pic, mid: seq<byte>, q: Pic, c: nat)
    requires Whole(p) && Whole(q) && |mid| == |q.data| && q.w == TurnedW(t, p.w, p.h) && q.h == TurnedH(t, p.w, p.h)
    requires Moved(t, p.data, LumaPlane(p.stride), mid, LumaPlane(q.stride), p.w, p.h, 0, p.h)
    requires ChromaPlaced(t, p, mid, q, c) && c + YSize(q.stride, q.h) / 2 <= |q.data|
    ensures var (n, n') := (YSize(p.stride, p.h), YSize(q.stride, q.h));
            && BothWritten(t, p.data, VPlane(p.format, p.stride, n, n), UPlane(p.format, p.stride, n, n), q.data,
                           VPlane(q.format, q.stride, c, n'), UPlane(q.format, q.stride, c, n'), p.w / 2, p.h / 2)
            && (c >= n' ==> Written(t, p.data, LumaPlane(p.stride), q.data, LumaPlane(q.stride), p.w, p.h))
  {
    hide Moved, Kept, YSize, Fits, Apart, Written, VPlane, UPlane;
    var n, n', w, h := YSize(p.stride, p.h), YSize(q.stride, q.h), p.w / 2, p.h / 2;
    BlocksFit(p.format, p.stride, p.w, p.h, n, w, h, |p.data|);
    BlocksFit(q.format, q.stride, q.w, q.h, c, TurnedW(t, w, h), TurnedH(t, w, h), |q.data|);
    var v, u := VPlane(q.format, q.stride, c, n'), UPlane(q.format, q.stride, c, n');
    MovedIsWritten(t, p.data, VPlane(p.format, p.stride, n, n), q.data, v, w, h);
    MovedIsWritten(t, p.data, UPlane(p.format, p.stride, n, n), q.data, u, w, h);
    if c >= n' {
      LumaIsTurned(t, p, mid, q, v, u, TurnedW(t, w, h), TurnedH(t, w, h));
    }
  }

  lemma PlacedBytes(t: Turn, p: Pic, was: seq<byte>, q: Pic, c: nat)
    requires Whole(p) && Whole(q) && Placed(t, p, was, q, c) && p.format != Planar420
    requires c + YSize(q.stride, q.h) / 2 <= |q.data|
    ensures TurnedBytes(t, p, q, c)
  {
    SizeIs(p.stride, p.h);
    SizeIs(q.stride, q.h);
    hide Moved, Kept, YSize, Written, ChromaPlaced, Whole;
    var mid :| LumaPlaced(t, p, was, mid, q) && ChromaPlaced(t, p, mid, q, c);
    KeptLength(was, mid, LumaPlane(q.stride), q.w, q.h);
    PlacedPlanes(t, p, mid, q, c);
  }

  lemma SizeIs(stride: nat, h: nat)
    ensures YSize(stride, h) == stride * ((h + 15) / 16 * 16)
  {
  }

  /** The chroma of the whole blocks; the result's picture has its new size already. */
  method TurnChroma(t: Turn, pictureIn: VideoPicture, pictureOut: VideoPicture, nMemSizeIn: nat, nMemSizeOut: nat)
    requires t != R0 && pictureIn != pictureOut && pictureIn.pData0 != pictureOut.pData0
    requires pictureOut.ePixelFormat != Planar420 && Whole(pictureIn.Value()) && Whole(pictureOut.Value())
    requires nMemSizeIn == YSize(pictureIn.nLineStride, pictureIn.nHeight)
    requires nMemSizeOut == YSize(pictureOut.nLineStride, pictureOut.nHeight)
    requires pictureOut.nWidth == TurnedW(t, pictureIn.nWidth, pictureIn.nHeight)
    requires pictureOut.nHeight == TurnedH(t, pictureIn.nWidth, pictureIn.nHeight)
    requires ChromaBase(t, pictureOut, nMemSizeOut) + nMemSizeOut / 2 <= pictureOut.pData0.Length
    modifies pictureIn`pData1, pictureIn`pData2, pictureOut`pData1, pictureOut`pData2, pictureOut.pData0
    ensures pictureOut.pData1 == old(ChromaBase(t, pictureOut, nMemSizeOut))
    ensures ChromaPlaced(t, ReadAs(pictureIn, pictureOut.ePixelFormat), old(pictureOut.pData0[..]), pictureOut.Value(),
                         pictureOut.pData1)
  {
    hide Cell, Moved, Kept, At, Fits, Apart, YSize, Hit;
    var f, w, h, stride := pictureOut.ePixelFormat, pictureIn.nWidth, pictureIn.nHeight, pictureIn.nLineStride;
    pictureIn.pData1 := nMemSizeIn;
    if !(t == R270 && Interleaved(f)) {
      pictureOut.pData1 := nMemSizeOut;
    }
    if f == Yv12 {
      pictureIn.pData2 := pictureIn.pData1 + nMemSizeIn / 4;
      pictureOut.pData2 := pictureOut.pData1 + nMemSizeOut / 4;
    }
    BlocksFit(f, stride, w, h, pictureIn.pData1, w / 2, h / 2, pictureIn.pData0.Length);
    BlocksFit(f, pictureOut.nLineStride, pictureOut.nWidth, pictureOut.nHeight, pictureOut.pData1,
              TurnedW(t, w / 2, h / 2), TurnedH(t, w / 2, h / 2), pictureOut.pData0.Length);
    MoveChroma(t, pictureIn.pData0,
               VPlane(f, stride, pictureIn.pData1, nMemSizeIn), UPlane(f, stride, pictureIn.pData1, nMemSizeIn),
               pictureOut.pData0,
               VPlane(f, pictureOut.nLineStride, pictureOut.pData1, nMemSizeOut),
               UPlane(f, pictureOut.nLineStride, pictureOut.pData1, nMemSizeOut), w / 2, h / 2);
  }

  /** The three turns; they differ in where a sample goes, and in who says where the chroma of the result is. */
  method Rotate(t: Turn, pictureIn: VideoPicture, pictureOut: VideoPicture)
    requires t != R0 && pictureIn != pictureOut && pictureIn.pData0 != pictureOut.pData0
    requires Whole(pictureIn.Value()) && Room(t, pictureIn, pictureOut)
    modifies pictureIn`pData1, pictureIn`pData2, pictureOut, pictureOut.pData0
    ensures pictureIn.Value() == old(pictureIn.Value())
    ensures (pictureOut.nWidth, pictureOut.nHeight, pictureOut.nLineStride) ==
            if t == R180 then (pictureIn.nWidth, pictureIn.nHeight, pictureIn.nLineStride)
            else (pictureIn.nHeight, pictureIn.nWidth, (pictureIn.nHeight + 15) / 16 * 16)
    ensures pictureOut.ePixelFormat != Planar420 ==>
              && pictureOut.pData1 == (if t == R270 && pictureOut.ePixelFormat != Yv12 then old(pictureOut.pData1)
                                       else pictureOut.nLineStride * ((pictureOut.nHeight + 15) / 16 * 16))
              && TurnedBytes(t, ReadAs(pictureIn, pictureOut.ePixelFormat), pictureOut.Value(), pictureOut.pData1)
    ensures pictureOut.ePixelFormat == Planar420 ==> pictureOut.pData0[..] == old(pictureOut.pData0[..])
    ensures pictureOut.ePixelFormat != Planar420 ==>
              Placed(t, ReadAs(pictureIn, pictureOut.ePixelFormat), old(pictureOut.pData0[..]), pictureOut.Value(),
                     old(ChromaBase(t, pictureOut, ResultYSize(t, pictureIn))))
    ensures pictureOut.ePixelFormat != Planar420
            && old(ChromaBase(t, pictureOut, ResultYSize(t, pictureIn))) == ResultYSize(t, pictureIn)
            ==> IsTurned(t, ReadAs(pictureIn, pictureOut.ePixelFormat), pictureOut.Value())
  {
    hide Cell, Moved, Kept, At, Fits, Apart, YSize, Hit, TurnedBytes, IsTurned, Placed, ChromaPlaced;
    var f, w, h, stride := pictureOut.ePixelFormat, pictureIn.nWidth, pictureIn.nHeight, pictureIn.nLineStride;
    ghost var was := pictureOut.pData0[..];
    pictureOut.nLineStride := if t == R180 then stride else AlignUp(h);
    pictureOut.nHeight := if t == R180 then h else w;
    pictureOut.nWidth := if t == R180 then w else h;
    if pictureOut.ePixelFormat == Planar420 {
      return;
    }
    var nMemSizeIn, nMemSizeOut := YSize(stride, h), YSize(pictureOut.nLineStride, pictureOut.nHeight);
    LumaFitsIn(stride, w, h, pictureIn.pData0.Length);
    LumaFitsIn(pictureOut.nLineStride, pictureOut.nWidth, pictureOut.nHeight, pictureOut.pData0.Length);
    MovePlane(t, pictureIn.pData0, LumaPlane(stride), pictureOut.pData0, LumaPlane(pictureOut.nLineStride), w, h);
    ghost var mid := pictureOut.pData0[..];
    TurnChroma(t, pictureIn, pictureOut, nMemSizeIn, nMemSizeOut);
    ghost var p, q := ReadAs(pictureIn, f), pictureOut.Value();
    PlacedIs(t, p, was, mid, q, pictureOut.pData1);
    if pictureOut.pData1 == nMemSizeOut {
      PlacedShows(t, p, was, q);
    }
    PlacedBytes(t, p, was, q, pictureOut.pData1);
    SizeIs(pictureOut.nLineStride, pictureOut.nHeight);
  }

  /** The luma size of the turned picture. */
  function ResultYSize(t: Turn, pictureIn: VideoPicture): nat
    reads pictureIn
  {
    YSize(TurnedStride(t, pictureIn.nLineStride, pictureIn.nHeight), TurnedH(t, pictureIn.nWidth, pictureIn.nHeight))
  }

  lemma LumaFitsIn(stride: nat, w: nat, h: nat, end: nat)
    requires w <= stride && YSize(stride, h) <= end
    ensures Fits(LumaPlane(stride), w, h, end)
  {
    hide YSize, Cell;
    LumaFits(stride, w, h);
    FitsFurther(LumaPlane(stride), w, h, YSize(stride, h), end);
  }

  /** The result's buffer takes the turned picture, wherever its chroma is going to be. */
  ghost predicate Room(t: Turn, pictureIn: VideoPicture, pictureOut: VideoPicture)
    reads pictureIn, pictureOut
  {
    var r := ResultYSize(t, pictureIn);
    r + r / 2 <= pictureOut.pData0.Length && ChromaBase(t, pictureOut, r) + r / 2 <= pictureOut.pData0.Length
  }

  // ----- changing the format

  predicate Convertible(from: Format, to: Format) {
    (to == Yv12 && (from == Nv21 || from == Planar420)) || (to == Nv21 && (from == Yv12 || from == Planar420))
  }

  /** Both chroma planes of one format moved to where another format has them. */
  ghost predicate ChromaMoved(s: seq<byte>, f: Format, d: seq<byte>, g: Format, stride: nat, w: nat, h: nat) {
    var n := YSize(stride, h);
    && Moved(R0, s, VPlane(f, stride, n, n), d, VPlane(g, stride, n, n), Half(w), Half(h), 0, Half(h))
    && Moved(R0, s, UPlane(f, stride, n, n), d, UPlane(g, stride, n, n), Half(w), Half(h), 0, Half(h))
  }

  /** Luma copied as one block, chroma moved: the same picture. */
  lemma ConversionShows(p: Pic, q: Pic, mid: seq<byte>)
    requires Whole(p) && Whole(q) && q.w == p.w && q.h == p.h && q.stride == p.stride && |mid| == |q.data|
    requires SameBelow(mid, q.data, YSize(q.stride, q.h))
    requires mid[..YSize(q.stride, q.h)] == p.data[..YSize(q.stride, q.h)]
    requires ChromaMoved(p.data, p.format, q.data, q.format, p.stride, p.w, p.h)
    ensures IsConverted(p, q)
  {
    hide Cell, YSize;
    var s := YSize(p.stride, p.h);
    LumaFits(p.stride, p.w, p.h);
    forall x, y | 0 <= x < p.w && 0 <= y < p.h ensures Luma(p, x, y) == Luma(q, x, y) {
      CellBelow(LumaPlane(p.stride), p.w, p.h, s, x, y);
      var c := Cell(LumaPlane(p.stride), x, y);
      assert mid[..s][c] == p.data[..s][c];
    }
  }

  /** Plane p of one buffer copied as a block onto plane q of another. */
  lemma BlockMoves(s: seq<byte>, from: Plane, d: seq<byte>, to: Plane, w: nat, h: nat, n: nat)
    requires from.stride == to.stride && from.step == to.step && from.base + n <= |s| && to.base + n <= |d|
    requires Fits(from, w, h, from.base + n) && s[from.base..from.base + n] == d[to.base..to.base + n]
    ensures Moved(R0, s, from, d, to, w, h, 0, h)
  {
    hide Fits;
    forall x, y | 0 <= x < w && 0 <= y < h ensures At(d, to, x, y) == At(s, from, x, y) {
      CellBelow(from, w, h, from.base + n, x, y);
      var k := Cell(from, x, y) - from.base;
      assert s[from.base..from.base + n][k] == d[to.base..to.base + n][k];
    }
  }

  /** Chroma sample by chroma sample. */
  method ConvertChroma(pictureIn: VideoPicture, pictureOut: VideoPicture, stride: nat, nMemSizeY: nat)
    requires pictureIn != pictureOut && pictureIn.pData0 != pictureOut.pData0
    requires stride % 16 == 0 && pictureIn.nWidth <= stride && nMemSizeY == YSize(stride, pictureIn.nHeight)
    requires nMemSizeY + nMemSizeY / 2 <= pictureIn.pData0.Length
    requires nMemSizeY + nMemSizeY / 2 <= pictureOut.pData0.Length
    modifies pictureIn`pData1, pictureIn`pData2, pictureOut`pData1, pictureOut`pData2, pictureOut.pData0
    ensures ChromaMoved(pictureIn.pData0[..], pictureIn.ePixelFormat, pictureOut.pData0[..], pictureOut.ePixelFormat,
                        stride, pictureIn.nWidth, pictureIn.nHeight)
    ensures SameBelow(old(pictureOut.pData0[..]), pictureOut.pData0[..], nMemSizeY)
  {
    hide Cell, Moved, Kept, At, Fits, Apart, YSize, Hit, SameBelow;
    var f, g, w, h := pictureIn.ePixelFormat, pictureOut.ePixelFormat, pictureIn.nWidth, pictureIn.nHeight;
    ghost var was := pictureOut.pData0[..];
    pictureIn.pData1 := nMemSizeY;
    pictureOut.pData1 := nMemSizeY;
    if g == Yv12 {
      pictureOut.pData2 := pictureOut.pData1 + nMemSizeY / 4;
    } else {
      pictureIn.pData2 := pictureIn.pData1 + nMemSizeY / 4;
    }
    BlocksFit(f, stride, w, h, nMemSizeY, Half(w), Half(h), pictureIn.pData0.Length);
    BlocksFit(g, stride, w, h, nMemSizeY, Half(w), Half(h), pictureOut.pData0.Length);
    var v, u := VPlane(g, stride, nMemSizeY, nMemSizeY), UPlane(g, stride, nMemSizeY, nMemSizeY);
    MoveChroma(R0, pictureIn.pData0, VPlane(f, stride, nMemSizeY, nMemSizeY), UPlane(f, stride, nMemSizeY, nMemSizeY),
               pictureOut.pData0, v, u, Half(w), Half(h));
    ChromaKeepsLuma(was, pictureOut.pData0[..], v, u, Half(w), Half(h), nMemSizeY);
  }

  /** From planar to YV12 the two chroma planes change places, each copied as a block. */
  method SwapChroma(pictureIn: VideoPicture, pictureOut: VideoPicture, stride: nat, nMemSizeY: nat)
    requires pictureIn != pictureOut && pictureIn.pData0 != pictureOut.pData0
    requires pictureIn.ePixelFormat == Planar420 && pictureOut.ePixelFormat == Yv12
    requires stride % 16 == 0 && pictureIn.nWidth <= stride && nMemSizeY == YSize(stride, pictureIn.nHeight)
    requires nMemSizeY + nMemSizeY / 2 <= pictureIn.pData0.Length
    requires nMemSizeY + nMemSizeY / 2 <= pictureOut.pData0.Length
    modifies pictureOut.pData0
    ensures ChromaMoved(pictureIn.pData0[..], pictureIn.ePixelFormat, pictureOut.pData0[..], pictureOut.ePixelFormat,
                        stride, pictureIn.nWidth, pictureIn.nHeight)
    ensures SameBelow(old(pictureOut.pData0[..]), pictureOut.pData0[..], nMemSizeY)
  {
    hide Cell, Moved, At, Fits, Apart, YSize;
    var w, h := pictureIn.nWidth, pictureIn.nHeight;
    var nMemSizeC := nMemSizeY / 4;
    HalfSize(stride, h);
    ghost var s, was := pictureIn.pData0[..], pictureOut.pData0[..];
    CopyBytes(pictureIn.pData0, nMemSizeY + nMemSizeC, pictureOut.pData0, nMemSizeY, nMemSizeC);
    ghost var mid := pictureOut.pData0[..];
    CopyBytes(pictureIn.pData0, nMemSizeY, pictureOut.pData0, nMemSizeY + nMemSizeC, nMemSizeC);
    ghost var d := pictureOut.pData0[..];
    var y, c := nMemSizeY, nMemSizeC;
    PlanarFits(stride, w, h, y, c);
    SameSlice(mid, d, y + c, y, y + c);
    SameSlice(was, mid, y, 0, y);
    SameSlice(mid, d, y + c, 0, y);
    BlockMoves(s, Plane(y + c, stride / 2, 1), d, Plane(y, stride / 2, 1), Half(w), Half(h), c);
    BlockMoves(s, Plane(y, stride / 2, 1), d, Plane(y + c, stride / 2, 1), Half(w), Half(h), c);
    PrefixIsBelow(was, d, y);
  }

  lemma SameSlice(d: seq<byte>, e: seq<byte>, n: nat, i: nat, j: nat)
    requires i <= j <= n <= |d| && n <= |e| && d[..n] == e[..n]
    ensures d[i..j] == e[i..j]
  {
    assert d[i..j] == d[..n][i..j] && e[i..j] == e[..n][i..j];
  }

  lemma PrefixIsBelow(d: seq<byte>, e: seq<byte>, n: nat)
    requires n <= |d| == |e| && d[0..n] == e[0..n]
    ensures SameBelow(d, e, n)
  {
    forall k | 0 <= k < n ensures d[k] == e[k] {
      assert d[0..n][k] == e[0..n][k];
    }
  }

  /** The chroma bytes before and after; nothing is said of other pairs of formats. */
  ghost predicate ChromaBytes(f: Format, s: seq<byte>, g: Format, d: seq<byte>, w: nat, h: nat) {
    var stride := (w + 15) / 16 * 16;
    var n := stride * ((h + 15) / 16 * 16);
    var (low, high) := (Plane(n, stride, 2), Plane(n + 1, stride, 2));
    var (first, second) := (Plane(n, stride / 2, 1), Plane(n + n / 4, stride / 2, 1));
    match (f, g)
    case (Nv21, Yv12) => BothWritten(R0, s, low, high, d, first, second, (w + 1) / 2, (h + 1) / 2)
    case (Planar420, Yv12) => BothWritten(R0, s, second, first, d, first, second, (w + 1) / 2, (h + 1) / 2)
    case (Yv12, Nv21) => BothWritten(R0, s, first, second, d, low, high, (w + 1) / 2, (h + 1) / 2)
    case (Planar420, Nv21) => BothWritten(R0, s, second, first, d, low, high, (w + 1) / 2, (h + 1) / 2)
    case _ => true
  }

  /** What a conversion shows is there byte by byte. */
  lemma ConvertedBytes(p: Pic, q: Pic)
    requires Whole(p) && Whole(q) && IsConverted(p, q) && p.stride == q.stride == AlignUp(p.w)
    ensures var (w, h) := (p.w, p.h);
            && Written(R0, p.data, Plane(0, (w + 15) / 16 * 16, 1), q.data, Plane(0, (w + 15) / 16 * 16, 1), w, h)
            && ChromaBytes(p.format, p.data, q.format, q.data, w, h)
  {
    hide Written, Luma, V, U;
    LumaIsWritten(p, q);
    ChromaIsWritten(p, q);
  }

  method ConvertPixelFormat(pictureIn: VideoPicture, pictureOut: VideoPicture)
    requires pictureIn != pictureOut && pictureIn.pData0 != pictureOut.pData0
    requires Whole(pictureIn.Value().(stride := AlignUp(pictureIn.nWidth)))
    requires var s := YSize(AlignUp(pictureIn.nWidth), pictureIn.nHeight); s + s / 2 <= pictureOut.pData0.Length
    modifies pictureIn`pData1, pictureIn`pData2, pictureOut, pictureOut.pData0
    ensures pictureIn.Value() == old(pictureIn.Value())
    ensures pictureOut.nWidth == pictureIn.nWidth && pictureOut.nHeight == pictureIn.nHeight
    ensures pictureOut.nLineStride == (pictureIn.nWidth + 15) / 16 * 16
    ensures (pictureIn.ePixelFormat, pictureOut.ePixelFormat)
            !in {(Nv21, Yv12), (Planar420, Yv12), (Yv12, Nv21), (Planar420, Nv21)} ==>
              pictureOut.pData0[..] == old(pictureOut.pData0[..])
    ensures (pictureIn.ePixelFormat, pictureOut.ePixelFormat)
            in {(Nv21, Yv12), (Planar420, Yv12), (Yv12, Nv21), (Planar420, Nv21)} ==>
              var s, d, w, h := pictureIn.pData0[..], pictureOut.pData0[..], pictureIn.nWidth, pictureIn.nHeight;
              && Written(R0, s, Plane(0, (w + 15) / 16 * 16, 1), d, Plane(0, (w + 15) / 16 * 16, 1), w, h)
              && ChromaBytes(pictureIn.ePixelFormat, s, pictureOut.ePixelFormat, d, w, h)
    ensures Convertible(pictureIn.ePixelFormat, pictureOut.ePixelFormat) ==>
              IsConverted(pictureIn.Value().(stride := AlignUp(pictureIn.nWidth)), pictureOut.Value())
  {
    hide Cell, Moved, Kept, At, Fits, Apart, YSize, Hit, IsConverted, SameBelow, Written, BothWritten, ChromaBytes;
    var f, g, w, h := pictureIn.ePixelFormat, pictureOut.ePixelFormat, pictureIn.nWidth, pictureIn.nHeight;
    var nLineStride := AlignUp(w);
    var nMemSizeY := YSize(nLineStride, h);
    pictureOut.nLineStride, pictureOut.nHeight, pictureOut.nWidth := nLineStride, h, w;
    if !Convertible(f, g) {
      return;
    }
    CopyBytes(pictureIn.pData0, 0, pictureOut.pData0, 0, nMemSizeY);
    ghost var mid := pictureOut.pData0[..];
    if f == Planar420 && g == Yv12 {
      SwapChroma(pictureIn, pictureOut, nLineStride, nMemSizeY);
    } else {
      ConvertChroma(pictureIn, pictureOut, nLineStride, nMemSizeY);
    }
    ConversionShows(pictureIn.Value().(stride := nLineStride), pictureOut.Value(), mid);
    ConvertedBytes(pictureIn.Value().(stride := nLineStride), pictureOut.Value());
  }
}
