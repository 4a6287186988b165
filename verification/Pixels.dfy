/**
 Where a picture keeps its samples: planes in one buffer, chroma planes side by side or
 interleaved. Two pictures are compared sample by sample, whatever their layout.
 */
module Pixels {
  import opened Common

  datatype Format = Nv21 | Nv12 | Yv12 | Planar420

  datatype Pic = Pic(data: seq<byte>, w: nat, h: nat, stride: nat, format: Format)

  /** Sample (x, y) lies `step` behind its left neighbour and `stride` behind the one above. */
  datatype Plane = Plane(base: nat, stride: nat, step: nat)

  function AlignUp(n: nat): (r: nat)
    ensures n <= r < n + 16 && r % 16 == 0
  {
    (n + 15) / 16 * 16
  }

  function Cell(p: Plane, x: nat, y: nat): nat {
    p.base + y * p.stride + x * p.step
  }

  function YSize(stride: nat, h: nat): nat {
    stride * AlignUp(h)
  }

  function LumaPlane(stride: nat): Plane {
    Plane(0, stride, 1)
  }

  function VPlane(f: Format, stride: nat, chroma: nat, ySize: nat): Plane {
    match f
    case Nv21 => Plane(chroma, stride, 2)
    case Nv12 => Plane(chroma + 1, stride, 2)
    case Yv12 => Plane(chroma, stride / 2, 1)
    case Planar420 => Plane(chroma + ySize / 4, stride / 2, 1)
  }

  function UPlane(f: Format, stride: nat, chroma: nat, ySize: nat): Plane {
    match f
    case Nv21 => Plane(chroma + 1, stride, 2)
    case Nv12 => Plane(chroma, stride, 2)
    case Yv12 => Plane(chroma + ySize / 4, stride / 2, 1)
    case Planar420 => Plane(chroma, stride / 2, 1)
  }

  // ----- cells are told apart

  /** w by h samples do not run into each other, and lie below the end. */
  predicate Fits(p: Plane, w: nat, h: nat, end: nat) {
    w > 0 && h > 0 ==> p.step > 0 && (w - 1) * p.step < p.stride && Cell(p, w - 1, h - 1) < end
  }

  lemma {:induction false} RowsGrow(stride: nat, y: nat, h: nat)
    requires y <= h
    ensures y * stride <= h * stride
    ensures y < h ==> y * stride + stride <= h * stride
    decreases h - y
  {
    if y < h {
      RowsGrow(stride, y, h - 1);
      assert h * stride == (h - 1) * stride + stride;
    }
  }

  lemma CellBelow(p: Plane, w: nat, h: nat, end: nat, x: nat, y: nat)
    requires Fits(p, w, h, end) && x < w && y < h
    ensures p.base <= Cell(p, x, y) < end
  {
    RowsGrow(p.stride, y, h - 1);
    RowsGrow(p.step, x, w - 1);
  }

  /** Within a row a cell stays before the next row. */
  lemma InRow(p: Plane, w: nat, x: nat)
    requires x < w && (w - 1) * p.step < p.stride
    ensures x * p.step < p.stride
  {
    RowsGrow(p.step, x, w - 1);
  }

  lemma LaterRow(p: Plane, x: nat, y: nat, x': nat, y': nat)
    requires y < y' && x * p.step < p.stride
    ensures Cell(p, x, y) < Cell(p, x', y')
  {
    RowsGrow(p.stride, y, y');
    assert x' * p.step >= 0;
  }

  lemma LaterColumn(p: Plane, x: nat, x': nat, y: nat)
    requires x < x' && p.step > 0
    ensures Cell(p, x, y) < Cell(p, x', y)
  {
    RowsGrow(p.step, x, x');
  }

  lemma CellInjective(p: Plane, w: nat, h: nat, end: nat, x: nat, y: nat, x': nat, y': nat)
    requires Fits(p, w, h, end) && x < w && y < h && x' < w && y' < h && (x, y) != (x', y')
    ensures Cell(p, x, y) != Cell(p, x', y')
  {
    InRow(p, w, x);
    InRow(p, w, x');
    hide Cell;
    if y < y' {
      LaterRow(p, x, y, x', y');
    } else if y' < y {
      LaterRow(p, x', y', x, y);
    } else if x < x' {
      LaterColumn(p, x, x', y);
    } else {
      LaterColumn(p, x', x, y);
    }
  }

  /** No cell belongs to both planes. */
  ghost predicate Apart(p: Plane, q: Plane, w: nat, h: nat) {
    forall x, y, x', y' :: 0 <= x < w && 0 <= y < h && 0 <= x' < w && 0 <= y' < h ==> Cell(p, x, y) != Cell(q, x', y')
  }

  function Half(n: nat): nat { (n + 1) / 2 }

  lemma Twice(y: nat, t: nat)
    ensures y * (2 * t) == 2 * (y * t)
  {
  }

  lemma Multiple(y: nat, stride: nat)
    requires stride % 2 == 0
    ensures y * stride == 2 * (y * (stride / 2)) && y * stride / 2 == y * (stride / 2)
  {
    Twice(y, stride / 2);
  }

  lemma FourTimes(t: nat, a: nat)
    ensures (2 * t) * (2 * a) == 4 * (a * t)
  {
  }

  lemma HalfOf(t: nat, a: nat, b: nat)
    requires b <= a
    ensures var s := (2 * t) * (2 * a); s % 4 == 0 && b * (2 * t) <= s / 2 && b * t <= s / 4
  {
    FourTimes(t, a);
    Twice(b, t);
    RowsGrow(t, b, a);
    var at, bt := a * t, b * t;
    assert bt <= at;
  }

  lemma Sixteens(n: nat) returns (k: nat)
    requires n % 16 == 0
    ensures n == 16 * k && n / 2 == 8 * k
  {
    k := n / 16;
    assert n == 16 * k;
  }

  lemma HalfBelow(n: nat, k: nat)
    requires n <= 16 * k
    ensures Half(n) <= 8 * k
  {
    var c := (n + 1) / 2;
    assert 2 * c <= n + 1;
  }

  lemma Halves(stride: nat, h: nat) returns (t: nat, a: nat)
    requires stride % 16 == 0
    ensures stride == 2 * t && stride / 2 == t && AlignUp(h) == 2 * a && Half(h) <= a
  {
    hide AlignUp, Half;
    var j := Sixteens(stride);
    var k := Sixteens(AlignUp(h));
    t, a := 8 * j, 8 * k;
    HalfBelow(h, k);
  }

  /** Half the rows of an aligned height, in full or in half strides, against the luma size. */
  lemma HalfSize(stride: nat, h: nat)
    requires stride % 16 == 0
    ensures var s := YSize(stride, h);
            s % 4 == 0 && Half(h) * stride <= s / 2 && Half(h) * (stride / 2) <= s / 4
  {
    hide AlignUp, Half;
    var t, a := Halves(stride, h);
    HalfOf(t, a, Half(h));
  }

  lemma HalfFits(stride: nat, w: nat)
    requires stride % 16 == 0 && w <= stride
    ensures 2 * Half(w) <= stride
  {
    hide Half;
    var k := Sixteens(stride);
    HalfBelow(w, k);
  }

  lemma LumaFits(stride: nat, w: nat, h: nat)
    requires w <= stride
    ensures Fits(LumaPlane(stride), w, h, YSize(stride, h))
  {
    if w > 0 && h > 0 {
      RowsGrow(stride, h - 1, AlignUp(h));
      assert AlignUp(h) * stride == stride * AlignUp(h);
    }
  }

  lemma EvenOdd(chroma: nat, stride: nat, x: nat, y: nat, x': nat, y': nat)
    requires stride % 2 == 0
    ensures Cell(Plane(chroma, stride, 2), x, y) != Cell(Plane(chroma + 1, stride, 2), x', y')
  {
    Multiple(y, stride);
    Multiple(y', stride);
    EvenIsNotOdd(y * (stride / 2) + x, y' * (stride / 2) + x');
  }

  lemma EvenIsNotOdd(n: nat, k: nat)
    ensures 2 * n != 2 * k + 1
  {
  }

  lemma PairsFit(stride: nat, w: nat, h: nat, chroma: nat, n: nat)
    requires 2 * w <= stride && h * stride <= n
    ensures Fits(Plane(chroma, stride, 2), w, h, chroma + n) && Fits(Plane(chroma + 1, stride, 2), w, h, chroma + n)
  {
    if w > 0 && h > 0 {
      RowsGrow(stride, h - 1, h);
    }
  }

  lemma PairsApart(stride: nat, w: nat, h: nat, chroma: nat)
    requires stride % 2 == 0
    ensures var p, q := Plane(chroma, stride, 2), Plane(chroma + 1, stride, 2); Apart(p, q, w, h) && Apart(q, p, w, h)
  {
    hide Cell;
    var p, q := Plane(chroma, stride, 2), Plane(chroma + 1, stride, 2);
    forall x, y, x', y' | 0 <= x < w && 0 <= y < h && 0 <= x' < w && 0 <= y' < h
      ensures Cell(p, x, y) != Cell(q, x', y')
    {
      EvenOdd(chroma, stride, x, y, x', y');
    }
  }

  lemma InterleavedFits(stride: nat, w: nat, h: nat, chroma: nat, n: nat)
    requires stride % 16 == 0 && w <= stride && Half(h) * stride <= n
    ensures var p, q := Plane(chroma, stride, 2), Plane(chroma + 1, stride, 2);
            && Fits(p, Half(w), Half(h), chroma + n) && Fits(q, Half(w), Half(h), chroma + n)
            && Apart(p, q, Half(w), Half(h)) && Apart(q, p, Half(w), Half(h))
  {
    hide Cell, Fits, Apart, Half;
    HalfFits(stride, w);
    PairsFit(stride, Half(w), Half(h), chroma, n);
    PairsApart(stride, Half(w), Half(h), chroma);
  }

  lemma RowsFit(stride: nat, w: nat, h: nat, chroma: nat, n: nat)
    requires w <= stride && h * stride <= n
    ensures Fits(Plane(chroma, stride, 1), w, h, chroma + n)
  {
    if w > 0 && h > 0 {
      RowsGrow(stride, h - 1, h);
    }
  }

  lemma PlanarFits(stride: nat, w: nat, h: nat, chroma: nat, n: nat)
    requires stride % 16 == 0 && w <= stride && Half(h) * (stride / 2) <= n
    ensures var p, q := Plane(chroma, stride / 2, 1), Plane(chroma + n, stride / 2, 1);
            && Fits(p, Half(w), Half(h), chroma + n) && Fits(q, Half(w), Half(h), chroma + 2 * n)
            && Apart(p, q, Half(w), Half(h)) && Apart(q, p, Half(w), Half(h))
  {
    hide Cell, Fits, Half;
    var p, q := Plane(chroma, stride / 2, 1), Plane(chroma + n, stride / 2, 1);
    HalfFits(stride, w);
    RowsFit(stride / 2, Half(w), Half(h), chroma, n);
    RowsFit(stride / 2, Half(w), Half(h), chroma + n, n);
    forall x, y, x', y' | 0 <= x < Half(w) && 0 <= y < Half(h) && 0 <= x' < Half(w) && 0 <= y' < Half(h)
      ensures Cell(p, x, y) != Cell(q, x', y')
    {
      CellBelow(p, Half(w), Half(h), chroma + n, x, y);
      CellBelow(q, Half(w), Half(h), chroma + 2 * n, x', y');
    }
  }

  /** Both chroma planes of a picture, for any layout. */
  lemma ChromaFits(f: Format, stride: nat, w: nat, h: nat, chroma: nat)
    requires stride % 16 == 0 && w <= stride
    ensures var s := YSize(stride, h); var v := VPlane(f, stride, chroma, s); var u := UPlane(f, stride, chroma, s);
            && Fits(v, Half(w), Half(h), chroma + s / 2) && Fits(u, Half(w), Half(h), chroma + s / 2)
            && Apart(v, u, Half(w), Half(h)) && v.base >= chroma && u.base >= chroma
  {
    HalfSize(stride, h);
    hide Fits, Apart, Cell, YSize, AlignUp, Half;
    var s := YSize(stride, h);
    InterleavedFits(stride, w, h, chroma, s / 2);
    PlanarFits(stride, w, h, chroma, s / 4);
    FitsFurther(Plane(chroma, stride / 2, 1), Half(w), Half(h), chroma + s / 4, chroma + s / 2);
  }

  lemma FitsFurther(p: Plane, w: nat, h: nat, end: nat, later: nat)
    requires Fits(p, w, h, end) && end <= later
    ensures Fits(p, w, h, later)
  {
  }

  lemma FitsLess(p: Plane, w: nat, h: nat, end: nat, w': nat, h': nat)
    requires Fits(p, w, h, end) && w' <= w && h' <= h
    ensures Fits(p, w', h', end)
  {
    if w' > 0 && h' > 0 {
      CellBelow(p, w, h, end, w' - 1, h' - 1);
      RowsGrow(p.step, w' - 1, w - 1);
    }
  }

  // ----- samples

  /** A picture has room for its planes. */
  ghost predicate Whole(p: Pic) {
    && p.stride % 16 == 0 && p.w <= p.stride
    && YSize(p.stride, p.h) + YSize(p.stride, p.h) / 2 <= |p.data|
  }

  ghost function At(data: seq<byte>, l: Plane, x: nat, y: nat): byte {
    if Cell(l, x, y) < |data| then data[Cell(l, x, y)] else 0
  }

  ghost function Luma(p: Pic, x: nat, y: nat): byte {
    At(p.data, LumaPlane(p.stride), x, y)
  }

  ghost function V(p: Pic, x: nat, y: nat): byte {
    At(p.data, VPlane(p.format, p.stride, YSize(p.stride, p.h), YSize(p.stride, p.h)), x, y)
  }

  ghost function U(p: Pic, x: nat, y: nat): byte {
    At(p.data, UPlane(p.format, p.stride, YSize(p.stride, p.h), YSize(p.stride, p.h)), x, y)
  }

  ghost predicate SameLuma(p: Pic, q: Pic) {
    && p.w == q.w && p.h == q.h
    && forall x, y :: 0 <= x < p.w && 0 <= y < p.h ==> Luma(p, x, y) == Luma(q, x, y)
  }

  /** The first cw by ch chroma samples. */
  ghost predicate SameChroma(p: Pic, q: Pic, cw: nat, ch: nat) {
    forall x, y :: 0 <= x < cw && 0 <= y < ch ==> V(p, x, y) == V(q, x, y) && U(p, x, y) == U(q, x, y)
  }

  // ----- turning a picture

  datatype Turn = R0 | R90 | R180 | R270

  function TurnedX(t: Turn, w: nat, h: nat, x: nat, y: nat): (r: nat)
    requires x < w && y < h
  {
    match t case R0 => x case R90 => h - 1 - y case R180 => w - 1 - x case R270 => y
  }

  function TurnedY(t: Turn, w: nat, h: nat, x: nat, y: nat): (r: nat)
    requires x < w && y < h
  {
    match t case R0 => y case R90 => x case R180 => h - 1 - y case R270 => w - 1 - x
  }

  function TurnedW(t: Turn, w: nat, h: nat): nat {
    if t == R0 || t == R180 then w else h
  }

  function TurnedH(t: Turn, w: nat, h: nat): nat {
    if t == R0 || t == R180 then h else w
  }

  /** q shows p turned: all luma samples, and the chroma samples of whole two-by-two blocks. */
  ghost predicate IsTurned(t: Turn, p: Pic, q: Pic) {
    && q.w == TurnedW(t, p.w, p.h) && q.h == TurnedH(t, p.w, p.h)
    && (forall x, y :: 0 <= x < p.w && 0 <= y < p.h ==>
          Luma(q, TurnedX(t, p.w, p.h, x, y), TurnedY(t, p.w, p.h, x, y)) == Luma(p, x, y))
    && (forall x, y :: 0 <= x < p.w / 2 && 0 <= y < p.h / 2 ==>
          && V(q, TurnedX(t, p.w / 2, p.h / 2, x, y), TurnedY(t, p.w / 2, p.h / 2, x, y)) == V(p, x, y)
          && U(q, TurnedX(t, p.w / 2, p.h / 2, x, y), TurnedY(t, p.w / 2, p.h / 2, x, y)) == U(p, x, y))
  }

  /** q shows p in another layout: all luma samples, all chroma samples. */
  ghost predicate IsConverted(p: Pic, q: Pic) {
    SameLuma(p, q) && SameChroma(p, q, Half(p.w), Half(p.h))
  }

  /** A quarter turn and three quarters more come back to the picture. */
  lemma TurnsCancel(a: Pic, b: Pic, c: Pic)
    requires IsTurned(R90, a, b) && IsTurned(R270, b, c)
    ensures SameLuma(a, c) && SameChroma(a, c, a.w / 2, a.h / 2)
  {
    hide Luma, V, U;
    forall x, y | 0 <= x < a.w && 0 <= y < a.h ensures Luma(a, x, y) == Luma(c, x, y) {
      assert Luma(b, a.h - 1 - y, x) == Luma(a, x, y);
      assert Luma(c, x, a.h - 1 - (a.h - 1 - y)) == Luma(b, a.h - 1 - y, x);
    }
    var w, h := a.w / 2, a.h / 2;
    forall x, y | 0 <= x < w && 0 <= y < h ensures V(a, x, y) == V(c, x, y) && U(a, x, y) == U(c, x, y) {
      assert V(b, h - 1 - y, x) == V(a, x, y) && U(b, h - 1 - y, x) == U(a, x, y);
      assert V(c, x, h - 1 - (h - 1 - y)) == V(b, h - 1 - y, x) && U(c, x, h - 1 - (h - 1 - y)) == U(b, h - 1 - y, x);
    }
  }

  /** Two quarter turns are a half turn. */
  lemma TurnsAdd(a: Pic, b: Pic, c: Pic, d: Pic)
    requires IsTurned(R90, a, b) && IsTurned(R90, b, c) && IsTurned(R180, a, d)
    ensures SameLuma(c, d) && SameChroma(c, d, a.w / 2, a.h / 2)
  {
    hide Luma, V, U;
    var w, h := a.w / 2, a.h / 2;
    forall x, y | 0 <= x < a.w && 0 <= y < a.h ensures Luma(c, x, y) == Luma(d, x, y) {
      var x0, y0 := a.w - 1 - x, a.h - 1 - y;
      assert Luma(b, a.h - 1 - y0, x0) == Luma(a, x0, y0);
      assert Luma(c, a.w - 1 - x0, a.h - 1 - y0) == Luma(b, a.h - 1 - y0, x0);
      assert Luma(d, a.w - 1 - x0, a.h - 1 - y0) == Luma(a, x0, y0);
    }
    forall x, y | 0 <= x < w && 0 <= y < h ensures V(c, x, y) == V(d, x, y) && U(c, x, y) == U(d, x, y) {
      var x0, y0 := w - 1 - x, h - 1 - y;
      assert V(b, h - 1 - y0, x0) == V(a, x0, y0) && U(b, h - 1 - y0, x0) == U(a, x0, y0);
      assert V(c, w - 1 - x0, h - 1 - y0) == V(b, h - 1 - y0, x0);
      assert U(c, w - 1 - x0, h - 1 - y0) == U(b, h - 1 - y0, x0);
      assert V(d, w - 1 - x0, h - 1 - y0) == V(a, x0, y0) && U(d, w - 1 - x0, h - 1 - y0) == U(a, x0, y0);
    }
  }

  /** To another layout and back, even over two different ways, shows the same picture. */
  lemma ConversionsCancel(a: Pic, b: Pic, c: Pic)
    requires IsConverted(a, b) && IsConverted(b, c)
    ensures IsConverted(a, c)
  {
  }

  /** Converting and turning may change places when both sizes are even. */
  lemma ConvertThenTurn(t: Turn, a: Pic, b: Pic, c: Pic, d: Pic, e: Pic)
    requires a.w % 2 == 0 && a.h % 2 == 0
    requires IsConverted(a, b) && IsTurned(t, b, c)
    requires IsTurned(t, a, d) && IsConverted(d, e)
    ensures IsConverted(c, e)
  {
    hide Luma, V, U;
    forall x, y | 0 <= x < c.w && 0 <= y < c.h ensures Luma(c, x, y) == Luma(e, x, y) {
      var (x0, y0) := Source(t, a.w, a.h, x, y);
      assert Luma(a, x0, y0) == Luma(b, x0, y0) && Luma(d, x, y) == Luma(a, x0, y0);
    }
    var w, h := a.w / 2, a.h / 2;
    forall x, y | 0 <= x < Half(c.w) && 0 <= y < Half(c.h)
      ensures V(c, x, y) == V(e, x, y) && U(c, x, y) == U(e, x, y)
    {
      var (x0, y0) := Source(t, w, h, x, y);
      assert V(a, x0, y0) == V(b, x0, y0) && V(d, x, y) == V(a, x0, y0);
      assert U(a, x0, y0) == U(b, x0, y0) && U(d, x, y) == U(a, x0, y0);
    }
  }

  /** The sample that is turned to (x, y). */
  function Source(t: Turn, w: nat, h: nat, x: nat, y: nat): (r: (nat, nat))
    requires x < TurnedW(t, w, h) && y < TurnedH(t, w, h)
    ensures r.0 < w && r.1 < h && TurnedX(t, w, h, r.0, r.1) == x && TurnedY(t, w, h, r.0, r.1) == y
  {
    match t case R0 => (x, y) case R90 => (y, h - 1 - x) case R180 => (w - 1 - x, h - 1 - y) case R270 => (w - 1 - y, x)
  }

  /** Some sample of a w by h plane is turned to (x, y). */
  ghost predicate Reached(t: Turn, w: nat, h: nat, x: nat, y: nat) {
    exists x0, y0 :: 0 <= x0 < w && 0 <= y0 < h && TurnedX(t, w, h, x0, y0) == x && TurnedY(t, w, h, x0, y0) == y
  }

  /**
   A turn reaches every chroma sample of the turned picture exactly when both sizes are even:
   the turns move half the size rounded down, a picture has half the size rounded up.
   */
  lemma TurnReachesChroma(t: Turn, w: nat, h: nat)
    requires w > 0 && h > 0
    ensures (forall x, y :: 0 <= x < Half(TurnedW(t, w, h)) && 0 <= y < Half(TurnedH(t, w, h)) ==>
               Reached(t, w / 2, h / 2, x, y))
            <==> w % 2 == 0 && h % 2 == 0
  {
    if w % 2 == 0 && h % 2 == 0 {
      forall x, y | 0 <= x < Half(TurnedW(t, w, h)) && 0 <= y < Half(TurnedH(t, w, h))
        ensures Reached(t, w / 2, h / 2, x, y)
      {
        var (x0, y0) := Source(t, w / 2, h / 2, x, y);
      }
    } else {
      assert !Reached(t, w / 2, h / 2, Half(TurnedW(t, w, h)) - 1, Half(TurnedH(t, w, h)) - 1);
    }
  }

  // ----- pictures of odd size

  /** A picture all of whose samples are the same. */
  function Blank(w: nat, h: nat): (p: Pic)
    ensures Whole(p)
  {
    Pic(seq(YSize(AlignUp(w), h) + YSize(AlignUp(w), h) / 2, _ => 0 as byte), w, h, AlignUp(w), Yv12)
  }

  lemma BlankSamples(p: Pic, x: nat, y: nat)
    requires forall k :: 0 <= k < |p.data| ==> p.data[k] == 0
    ensures Luma(p, x, y) == V(p, x, y) == U(p, x, y) == 0
  {
    hide Cell;
  }

  /** The last chroma sample of a plain picture is marked: it shows nowhere else. */
  lemma MarkedSamples(w: nat, h: nat) returns (q: Pic)
    requires w > 0 && h > 0
    ensures Whole(q) && q.w == w && q.h == h && V(q, Half(w) - 1, Half(h) - 1) == 1
    ensures forall x, y :: 0 <= x < w && 0 <= y < h ==> Luma(q, x, y) == 0
    ensures forall x, y :: 0 <= x < Half(w) && 0 <= y < Half(h) ==>
              U(q, x, y) == 0 && ((x, y) != (Half(w) - 1, Half(h) - 1) ==> V(q, x, y) == 0)
  {
    var p := Blank(w, h);
    var s := YSize(p.stride, h);
    var v, u := VPlane(Yv12, p.stride, s, s), UPlane(Yv12, p.stride, s, s);
    hide Cell, YSize, AlignUp, Fits, Apart;
    var c := Cell(v, Half(w) - 1, Half(h) - 1);
    ChromaFits(Yv12, p.stride, w, h, s);
    CellBelow(v, Half(w), Half(h), s + s / 2, Half(w) - 1, Half(h) - 1);
    q := p.(data := p.data[c := 1]);
    forall x, y | 0 <= x < w && 0 <= y < h ensures Luma(q, x, y) == 0 {
      LumaFits(p.stride, w, h);
      CellBelow(LumaPlane(p.stride), w, h, s, x, y);
    }
    forall x, y | 0 <= x < Half(w) && 0 <= y < Half(h)
      ensures U(q, x, y) == 0 && ((x, y) != (Half(w) - 1, Half(h) - 1) ==> V(q, x, y) == 0)
    {
      OtherCell(v, u, Half(w), Half(h), Half(w) - 1, Half(h) - 1, x, y);
      if (x, y) != (Half(w) - 1, Half(h) - 1) {
        CellInjective(v, Half(w), Half(h), s + s / 2, x, y, Half(w) - 1, Half(h) - 1);
      }
    }
  }

  lemma OtherCell(p: Plane, q: Plane, w: nat, h: nat, x: nat, y: nat, x': nat, y': nat)
    requires Apart(p, q, w, h) && x < w && y < h && x' < w && y' < h
    ensures Cell(p, x, y) != Cell(q, x', y')
  {
    hide Cell;
  }

  ghost predicate ThereAndBack(a: Pic, b: Pic, c: Pic, w: nat, h: nat) {
    a.w == w && a.h == h && Whole(a) && Whole(b) && Whole(c) && IsTurned(R90, a, b) && IsTurned(R270, b, c)
  }

  /** So turning there and back keeps the whole picture, whatever it shows, exactly for even sizes. */
  lemma TurnsCancelExactly(w: nat, h: nat)
    requires w > 0 && h > 0
    ensures (forall a, b, c :: ThereAndBack(a, b, c, w, h) ==> IsConverted(a, c)) <==> w % 2 == 0 && h % 2 == 0
  {
    hide Luma, V, U, Whole;
    if w % 2 == 0 && h % 2 == 0 {
      forall a, b, c | ThereAndBack(a, b, c, w, h) ensures IsConverted(a, c) {
        TurnsCancel(a, b, c);
      }
    } else {
      var a, b := Blank(w, h), Blank(h, w);
      var c := MarkedSamples(w, h);
      forall x, y: nat
        ensures Luma(a, x, y) == Luma(b, x, y) == V(a, x, y) == V(b, x, y) == U(a, x, y) == U(b, x, y) == 0
      {
        BlankSamples(a, x, y);
        BlankSamples(b, x, y);
      }
      assert ThereAndBack(a, b, c, w, h);
      assert V(c, Half(w) - 1, Half(h) - 1) != V(a, Half(w) - 1, Half(h) - 1);
      assert !IsConverted(a, c);
    }
  }

  // ----- which bytes that is

  /** Byte number of a sample: rows `stride` bytes apart, samples `step` bytes apart. */
  function Spot(base: nat, stride: nat, step: nat, x: nat, y: nat): nat {
    base + y * stride + x * step
  }

  /** Sample (x, y) of a w by h plane of s lies in d: as it is, turned right, upside down, or turned left. */
  ghost predicate LiesIn(t: Turn, s: seq<byte>, from: Plane, d: seq<byte>, to: Plane, w: nat, h: nat, x: nat, y: nat)
    requires x < w && y < h
  {
    var k := Spot(from.base, from.stride, from.step, x, y);
    var l := match t
             case R0 => Spot(to.base, to.stride, to.step, x, y)
             case R90 => Spot(to.base, to.stride, to.step, h - 1 - y, x)
             case R180 => Spot(to.base, to.stride, to.step, w - 1 - x, h - 1 - y)
             case R270 => Spot(to.base, to.stride, to.step, y, w - 1 - x);
    k < |s| && l < |d| && d[l] == s[k]
  }

  ghost predicate Written(t: Turn, s: seq<byte>, from: Plane, d: seq<byte>, to: Plane, w: nat, h: nat) {
    forall x: nat, y: nat :: x < w && y < h ==> LiesIn(t, s, from, d, to, w, h, x, y)
  }

  /** Both chroma planes, the one that begins at `v` and the one that begins at `u`. */
  ghost predicate BothWritten(t: Turn, s: seq<byte>, v: Plane, u: Plane, d: seq<byte>, v': Plane, u': Plane,
                              w: nat, h: nat)
  {
    Written(t, s, v, d, v', w, h) && Written(t, s, u, d, u', w, h)
  }

  lemma SpotIsCell(p: Plane, x: nat, y: nat)
    ensures Spot(p.base, p.stride, p.step, x, y) == Cell(p, x, y)
  {
  }

  lemma SampleIsByte(t: Turn, s: seq<byte>, from: Plane, d: seq<byte>, to: Plane, w: nat, h: nat, x: nat, y: nat)
    requires Fits(from, w, h, |s|) && Fits(to, TurnedW(t, w, h), TurnedH(t, w, h), |d|) && x < w && y < h
    requires At(d, to, TurnedX(t, w, h, x, y), TurnedY(t, w, h, x, y)) == At(s, from, x, y)
    ensures LiesIn(t, s, from, d, to, w, h, x, y)
  {
    hide Cell, Spot, Fits;
    SpotIsCell(from, x, y);
    SpotIsCell(to, TurnedX(t, w, h, x, y), TurnedY(t, w, h, x, y));
    CellBelow(from, w, h, |s|, x, y);
    CellBelow(to, TurnedW(t, w, h), TurnedH(t, w, h), |d|, TurnedX(t, w, h, x, y), TurnedY(t, w, h, x, y));
  }

  /** Samples that read the same, turned or not, are bytes that lie there. */
  lemma SamplesAreBytes(t: Turn, s: seq<byte>, from: Plane, d: seq<byte>, to: Plane, w: nat, h: nat)
    requires Fits(from, w, h, |s|) && Fits(to, TurnedW(t, w, h), TurnedH(t, w, h), |d|)
    requires forall x, y :: 0 <= x < w && 0 <= y < h ==>
               At(d, to, TurnedX(t, w, h, x, y), TurnedY(t, w, h, x, y)) == At(s, from, x, y)
    ensures Written(t, s, from, d, to, w, h)
  {
    hide LiesIn, Fits, At, TurnedX, TurnedY;
    forall x: nat, y: nat | x < w && y < h ensures LiesIn(t, s, from, d, to, w, h, x, y) {
      SampleIsByte(t, s, from, d, to, w, h, x, y);
    }
  }

  /**
   The bytes of a picture: NV21 has V before U in each pair, NV12 the other way round; of the planar layouts YV12 has
   the V plane first, the other one the U plane.
   */
  lemma SamplesOfFormats(p: Pic, x: nat, y: nat)
    requires Whole(p)
    ensures x < p.w && y < p.h ==> var k := Spot(0, p.stride, 1, x, y); k < |p.data| && Luma(p, x, y) == p.data[k]
    ensures x < (p.w + 1) / 2 && y < (p.h + 1) / 2 ==>
              var s := p.stride * ((p.h + 15) / 16 * 16);
              var (v, u) := match p.format
                            case Nv21 => (Spot(s, p.stride, 2, x, y), Spot(s + 1, p.stride, 2, x, y))
                            case Nv12 => (Spot(s + 1, p.stride, 2, x, y), Spot(s, p.stride, 2, x, y))
                            case Yv12 => (Spot(s, p.stride / 2, 1, x, y), Spot(s + s / 4, p.stride / 2, 1, x, y))
                            case Planar420 => (Spot(s + s / 4, p.stride / 2, 1, x, y), Spot(s, p.stride / 2, 1, x, y));
              v < |p.data| && u < |p.data| && V(p, x, y) == p.data[v] && U(p, x, y) == p.data[u]
  {
    hide Fits, Cell, Spot;
    var s := YSize(p.stride, p.h);
    if x < p.w && y < p.h {
      LumaFits(p.stride, p.w, p.h);
      CellBelow(LumaPlane(p.stride), p.w, p.h, s, x, y);
      SpotIsCell(LumaPlane(p.stride), x, y);
    }
    if x < Half(p.w) && y < Half(p.h) {
      var v, u := VPlane(p.format, p.stride, s, s), UPlane(p.format, p.stride, s, s);
      ChromaFits(p.format, p.stride, p.w, p.h, s);
      CellBelow(v, Half(p.w), Half(p.h), s + s / 2, x, y);
      CellBelow(u, Half(p.w), Half(p.h), s + s / 2, x, y);
      SpotIsCell(v, x, y);
      SpotIsCell(u, x, y);
    }
  }

  lemma LumaIsWritten(p: Pic, q: Pic)
    requires Whole(p) && Whole(q) && SameLuma(p, q)
    ensures Written(R0, p.data, Plane(0, p.stride, 1), q.data, Plane(0, q.stride, 1), p.w, p.h)
  {
    hide Cell, Fits, YSize, At;
    LumaFits(p.stride, p.w, p.h);
    LumaFits(q.stride, q.w, q.h);
    FitsFurther(LumaPlane(p.stride), p.w, p.h, YSize(p.stride, p.h), |p.data|);
    FitsFurther(LumaPlane(q.stride), q.w, q.h, YSize(q.stride, q.h), |q.data|);
    forall x, y | 0 <= x < p.w && 0 <= y < p.h
      ensures At(q.data, LumaPlane(q.stride), x, y) == At(p.data, LumaPlane(p.stride), x, y)
    {
      assert Luma(p, x, y) == Luma(q, x, y);
    }
    SamplesAreBytes(R0, p.data, LumaPlane(p.stride), q.data, LumaPlane(q.stride), p.w, p.h);
  }

  lemma ChromaIsWritten(p: Pic, q: Pic)
    requires Whole(p) && Whole(q) && q.w == p.w && q.h == p.h && SameChroma(p, q, Half(p.w), Half(p.h))
    ensures var s, r := YSize(p.stride, p.h), YSize(q.stride, q.h);
            BothWritten(R0, p.data, VPlane(p.format, p.stride, s, s), UPlane(p.format, p.stride, s, s),
                        q.data, VPlane(q.format, q.stride, r, r), UPlane(q.format, q.stride, r, r),
                        Half(p.w), Half(p.h))
  {
    hide Cell, Fits, YSize, VPlane, UPlane, At, Written;
    var s, r := YSize(p.stride, p.h), YSize(q.stride, q.h);
    var v, u := VPlane(p.format, p.stride, s, s), UPlane(p.format, p.stride, s, s);
    var v', u' := VPlane(q.format, q.stride, r, r), UPlane(q.format, q.stride, r, r);
    ChromaFits(p.format, p.stride, p.w, p.h, s);
    ChromaFits(q.format, q.stride, q.w, q.h, r);
    FitsFurther(v, Half(p.w), Half(p.h), s + s / 2, |p.data|);
    FitsFurther(u, Half(p.w), Half(p.h), s + s / 2, |p.data|);
    FitsFurther(v', Half(p.w), Half(p.h), r + r / 2, |q.data|);
    FitsFurther(u', Half(p.w), Half(p.h), r + r / 2, |q.data|);
    forall x, y | 0 <= x < Half(p.w) && 0 <= y < Half(p.h)
      ensures At(q.data, v', x, y) == At(p.data, v, x, y) && At(q.data, u', x, y) == At(p.data, u, x, y)
    {
      assert V(p, x, y) == V(q, x, y) && U(p, x, y) == U(q, x, y);
    }
    SamplesAreBytes(R0, p.data, v, q.data, v', Half(p.w), Half(p.h));
    SamplesAreBytes(R0, p.data, u, q.data, u', Half(p.w), Half(p.h));
  }
}
