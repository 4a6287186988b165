/**
 Emulation prevention (section 7.4.1 of H.264): a 03 is put behind any two zero bytes
 that could be taken for part of a start code, and the decoder takes it out again in
 place before it parses a header.
 */
module Emulation {
  import opened Common
  import opened Ring

  const MAX_EMULATE := 1024
  const H264_HEADER_BUF_SIZE := 1024
  const NAL_SLICE := 1
  const NAL_IDR_SLICE := 5
  const NAL_HEADER_EXT1 := 14
  const NAL_HEADER_EXT2 := 20

  /** Byte i of the stream is a 03 behind two zeros. */
  predicate IsEmulation(s: seq<byte>, i: nat) {
    2 <= i < |s| && s[i] == 3 && s[i - 1] == 0 && s[i - 2] == 0
  }

  /** The stream without those bytes. */
  function Strip(s: seq<byte>): seq<byte> {
    if s == [] then []
    else Strip(s[..|s| - 1]) + if IsEmulation(s, |s| - 1) then [] else s[|s| - 1..]
  }

  function Emulations(s: seq<byte>): (n: nat)
    ensures n <= |s|
  {
    if s == [] then 0 else Emulations(s[..|s| - 1]) + if IsEmulation(s, |s| - 1) then 1 else 0
  }

  /** What an encoder writes; `zeros` counts the zero bytes just written, up to two. */
  function Escape(p: seq<byte>, zeros: nat): seq<byte> {
    if p == [] then if zeros == 2 then [3] else []
    else if zeros == 2 && p[0] <= 3 then [3, p[0]] + Escape(p[1..], if p[0] == 0 then 1 else 0)
    else [p[0]] + Escape(p[1..], if p[0] == 0 then zeros + 1 else 0)
  }

  // ----- stripping inverts escaping

  function TrailingZeros(s: seq<byte>): nat {
    if s == [] || s[|s| - 1] != 0 then 0 else if |s| == 1 || s[|s| - 2] != 0 then 1 else 2
  }

  lemma StripSnoc(s: seq<byte>, b: byte)
    ensures Strip(s + [b]) == Strip(s) + if b == 3 && TrailingZeros(s) == 2 then [] else [b]
    ensures TrailingZeros(s + [b]) == if b != 0 then 0 else if TrailingZeros(s) == 0 then 1 else 2
  {
    var t := s + [b];
    assert t[..|t| - 1] == s && t[|t| - 1..] == [b];
  }

  /** One payload byte, escaped if need be, strips back to that byte. */
  lemma StripNext(s: seq<byte>, b: byte) returns (u: seq<byte>)
    ensures u == if TrailingZeros(s) == 2 && b <= 3 then s + [3, b] else s + [b]
    ensures Strip(u) == Strip(s) + [b]
    ensures TrailingZeros(u) == if b != 0 then 0 else if TrailingZeros(s) == 2 then 1 else TrailingZeros(s) + 1
  {
    hide Strip;
    if TrailingZeros(s) == 2 && b <= 3 {
      StripSnoc(s, 3);
      StripSnoc(s + [3], b);
      u := s + [3, b];
      assert u == (s + [3]) + [b];
    } else {
      StripSnoc(s, b);
      u := s + [b];
    }
  }

  lemma EscapeNext(s: seq<byte>, u: seq<byte>, p: seq<byte>)
    requires p != [] && u == if TrailingZeros(s) == 2 && p[0] <= 3 then s + [3, p[0]] else s + [p[0]]
    requires TrailingZeros(u) == if p[0] != 0 then 0 else if TrailingZeros(s) == 2 then 1 else TrailingZeros(s) + 1
    ensures s + Escape(p, TrailingZeros(s)) == u + Escape(p[1..], TrailingZeros(u))
  {
    hide TrailingZeros;
  }

  lemma EscapeNone(s: seq<byte>)
    ensures s + Escape([], TrailingZeros(s)) == if TrailingZeros(s) == 2 then s + [3] else s
  {
  }

  /** Stripping what follows some stream `s` yields the payload, whatever `s` was. */
  lemma {:induction false} StripEscaped(s: seq<byte>, p: seq<byte>)
    ensures Strip(s + Escape(p, TrailingZeros(s))) == Strip(s) + p
    decreases |p|
  {
    hide Strip, TrailingZeros, Escape;
    if p == [] {
      StripSnoc(s, 3);
      assert Strip(s) + [] == Strip(s);
      EscapeNone(s);
    } else {
      var u := StripNext(s, p[0]);
      StripEscaped(u, p[1..]);
      EscapeNext(s, u, p);
      assert Strip(u) + p[1..] == Strip(s) + ([p[0]] + p[1..]);
      assert [p[0]] + p[1..] == p;
    }
  }

  /** For any payload at all. */
  lemma StripInvertsEscape(p: seq<byte>)
    ensures Strip(Escape(p, 0)) == p
  {
    StripEscaped([], p);
    assert [] + Escape(p, 0) == Escape(p, 0);
    assert Strip([]) + p == p;
  }

  // ----- the decoder's in-place compaction

  lemma StripOne(s: seq<byte>, a: nat)
    requires a < |s| && !IsEmulation(s, a)
    ensures Strip(s[..a + 1]) == Strip(s[..a]) + s[a..a + 1] && Emulations(s[..a + 1]) == Emulations(s[..a])
  {
    hide Strip, Emulations;
    var t := s[..a + 1];
    assert t[..a] == s[..a] && t[a..] == s[a..a + 1] && !IsEmulation(t, a);
    KeepLast(t);
  }

  lemma KeepLast(t: seq<byte>)
    requires t != [] && !IsEmulation(t, |t| - 1)
    ensures Strip(t) == Strip(t[..|t| - 1]) + t[|t| - 1..] && Emulations(t) == Emulations(t[..|t| - 1])
  {
    hide IsEmulation;
  }

  lemma {:induction false} StripStretch(s: seq<byte>, a: nat, b: nat)
    requires a <= b <= |s| && forall i :: a <= i < b ==> !IsEmulation(s, i)
    ensures Strip(s[..b]) == Strip(s[..a]) + s[a..b] && Emulations(s[..b]) == Emulations(s[..a])
    decreases b
  {
    hide Strip, Emulations, IsEmulation;
    if a < b {
      StripStretch(s, a, b - 1);
      StripOne(s, b - 1);
      assert s[a..b] == s[a..b - 1] + s[b - 1..b];
    } else {
      assert s[a..b] == [];
    }
  }

  lemma StripAt(s: seq<byte>, a: nat)
    requires IsEmulation(s, a)
    ensures Strip(s[..a + 1]) == Strip(s[..a]) && Emulations(s[..a + 1]) == Emulations(s[..a]) + 1
  {
    var t := s[..a + 1];
    assert t[..a] == s[..a] && IsEmulation(t, a);
  }

  lemma {:induction false} StripLength(s: seq<byte>)
    ensures |Strip(s)| == |s| - Emulations(s)
  {
    if s != [] {
      StripLength(s[..|s| - 1]);
    }
  }

  /** The three bytes before position i, with FF standing before the stream. */
  function LastThree(s: seq<byte>, i: nat): (n: nat)
    requires i <= |s|
    ensures n < 0x100_0000
  {
    0x1_0000 * Before(s, i - 3) + 0x100 * Before(s, i - 2) + Before(s, i - 1)
  }

  function Before(s: seq<byte>, i: int): (b: int)
    requires i < |s|
    ensures 0 <= b < 256
  {
    if i < 0 then 255 else s[i]
  }

  /** Shifting a byte into the 32-bit window moves its low three bytes on by one. */
  lemma Shift(nextCode: nat, hi: nat, mid: nat, lo: nat, b: nat)
    requires hi < 256 && mid < 256 && lo < 256 && b < 256
    requires nextCode % 0x100_0000 == 0x1_0000 * hi + 0x100 * mid + lo
    ensures (nextCode * 256 + b) % 0x1_0000_0000 % 0x100_0000 == 0x1_0000 * mid + 0x100 * lo + b
  {
    var q := nextCode / 0x100_0000;
    assert nextCode == 0x100_0000 * q + 0x1_0000 * hi + 0x100 * mid + lo;
    var m := 0x100_0000 * hi + 0x1_0000 * mid + 0x100 * lo + b;
    assert nextCode * 256 + b == 0x1_0000_0000 * q + m;
    Rest32(q, m);
    Rest24(hi, 0x1_0000 * mid + 0x100 * lo + b);
  }

  lemma Rest32(q: nat, m: nat)
    requires m < 0x1_0000_0000
    ensures (0x1_0000_0000 * q + m) % 0x1_0000_0000 == m
  {
  }

  lemma Rest24(q: nat, m: nat)
    requires m < 0x100_0000
    ensures (0x100_0000 * q + m) % 0x100_0000 == m
  {
  }

  /** es lists exactly the emulation positions of s, ascending. */
  ghost predicate Marks(s: seq<byte>, es: seq<nat>) {
    && (forall j, k :: 0 <= j < k < |es| ==> es[j] < es[k])
    && (forall i :: 0 <= i < |s| ==> (i in es <==> IsEmulation(s, i)))
    && (forall k :: 0 <= k < |es| ==> es[k] < |s|)
  }

  lemma MarksGrow(s: seq<byte>, t: seq<byte>, es: seq<nat>)
    requires |t| == |s| + 1 && t[..|s|] == s && Marks(s, es)
    ensures Marks(t, if IsEmulation(t, |s|) then es + [|s|] else es)
  {
    assert forall i :: 0 <= i < |s| ==> t[i] == s[i];
    assert forall i :: 0 <= i < |s| ==> IsEmulation(t, i) == IsEmulation(s, i);
  }

  lemma {:induction false} EmulationsGrow(s: seq<byte>, n: nat)
    requires n <= |s|
    ensures Emulations(s[..n]) <= Emulations(s)
    decreases |s| - n
  {
    if n < |s| {
      EmulationsGrow(s, n + 1);
      assert s[..n + 1][..n] == s[..n];
    } else {
      assert s[..n] == s;
    }
  }

  // ----- what the marks say about the stretches between them

  /** Up to the mark `e` the stripped stream stands for n marks less. */
  lemma StripToMark(s: seq<byte>, es: seq<nat>, k: nat)
    requires Marks(s, es) && k <= |es|
    ensures var e := if k < |es| then es[k] else |s|;
            e <= |s| && k <= e && Emulations(s[..e]) == k && |Strip(s[..e])| == e - k
  {
    hide Strip, IsEmulation, Emulations;
    var e := if k < |es| then es[k] else |s|;
    if k == 0 {
      assert forall i :: 0 <= i < e ==> i !in es;
      StripStretch(s, 0, e);
      NothingToStrip(s[..0]);
    } else {
      StripToMark(s, es, k - 1);
      StripNextMark(s, es, k - 1);
    }
    StripLength(s[..e]);
    EmulationsBound(s[..e]);
  }

  lemma NothingToStrip(s: seq<byte>)
    requires s == []
    ensures Strip(s) == [] && Emulations(s) == 0
  {
  }

  lemma EmulationsBound(s: seq<byte>)
    ensures Emulations(s) <= |s|
  {
  }

  /** From one mark to the next: the mark itself goes, what follows it stays. */
  lemma StripNextMark(s: seq<byte>, es: seq<nat>, k: nat)
    requires Marks(s, es) && k < |es|
    ensures var e := if k + 1 < |es| then es[k + 1] else |s|;
            && es[k] < e <= |s|
            && Strip(s[..e]) == Strip(s[..es[k]]) + s[es[k] + 1..e]
            && Emulations(s[..e]) == Emulations(s[..es[k]]) + 1
  {
    hide Strip, IsEmulation, Emulations;
    var e := if k + 1 < |es| then es[k + 1] else |s|;
    assert es[k] in es;
    StripAt(s, es[k]);
    forall i | es[k] + 1 <= i < e ensures !IsEmulation(s, i) {
      BetweenMarks(es, k, i);
    }
    StripStretch(s, es[k] + 1, e);
  }

  lemma BetweenMarks(es: seq<nat>, k: nat, i: nat)
    requires forall j, k :: 0 <= j < k < |es| ==> es[j] < es[k]
    requires k < |es| && es[k] < i && (k + 1 < |es| ==> i < es[k + 1])
    ensures i !in es
  {
  }

  const SLICE_TYPES := {NAL_SLICE, NAL_IDR_SLICE, NAL_HEADER_EXT1, NAL_HEADER_EXT2}

  /** What is kept of a unit: of a slice only as much as a slice header can need. */
  function Kept(nalUnitType: nat, sliceLen: nat): nat {
    if nalUnitType in SLICE_TYPES && sliceLen >= H264_HEADER_BUF_SIZE
    then H264_HEADER_BUF_SIZE
    else sliceLen
  }

  // ----- how many emulation bytes a unit can have

  /** Each takes three bytes. */
  lemma {:induction false} EmulationsAreApart(s: seq<byte>)
    ensures 3 * Emulations(s) <= |s|
    ensures s != [] && IsEmulation(s, |s| - 1) ==> Emulations(s) == Emulations(s[..|s| - 3]) + 1
    decreases |s|
  {
    if s == [] {
    } else {
      var t := s[..|s| - 1];
      EmulationsAreApart(t);
      if IsEmulation(s, |s| - 1) {
        var u := t[..|t| - 1];
        assert u[..|u| - 1] == s[..|s| - 3];
        EmulationsAreApart(s[..|s| - 3]);
      }
    }
  }

  /** So a slice, of which 1024 bytes are kept, never has too many. */
  lemma SliceFits(s: seq<byte>, nalUnitType: nat, sliceLen: nat)
    requires |s| == Kept(nalUnitType, sliceLen)
    ensures nalUnitType in SLICE_TYPES ==> Emulations(s) < MAX_EMULATE
  {
    EmulationsAreApart(s);
  }

  /** The bytes 00 00 03, n times. */
  function Dense(n: nat): (s: seq<byte>)
    ensures |s| == 3 * n
  {
    if n == 0 then [] else Dense(n - 1) + [0, 0, 3]
  }

  lemma {:induction false} DenseEmulations(n: nat)
    ensures Emulations(Dense(n)) == n
  {
    if n > 0 {
      var s := Dense(n);
      DenseEmulations(n - 1);
      EmulationsAreApart(s);
      assert IsEmulation(s, |s| - 1) && s[..|s| - 3] == Dense(n - 1);
    }
  }

  /** There are units with too many of them of every length from 3072 bytes on, and of no other. */
  lemma OverrunExactly(n: nat)
    ensures (exists s: seq<byte> :: |s| == n && Emulations(s) >= MAX_EMULATE) <==> n >= 3 * MAX_EMULATE
  {
    if n >= 3 * MAX_EMULATE {
      var s := Dense(MAX_EMULATE) + Zeros(n - 3 * MAX_EMULATE);
      DenseEmulations(MAX_EMULATE);
      assert s[..3 * MAX_EMULATE] == Dense(MAX_EMULATE);
      EmulationsGrow(s, 3 * MAX_EMULATE);
      assert |s| == n && Emulations(s) >= MAX_EMULATE;
    }
    forall s: seq<byte> | |s| == n ensures Emulations(s) >= MAX_EMULATE ==> n >= 3 * MAX_EMULATE {
      EmulationsAreApart(s);
    }
  }

  lemma {:induction false} DenseFront(n: nat)
    requires n > 0
    ensures Dense(n) == [0, 0, 3] + Dense(n - 1)
  {
    if n > 1 {
      DenseFront(n - 1);
      Append([0, 0, 3], Dense(n - 2), [0, 0, 3]);
    }
  }

  /** Two zero bytes, and more, behind a byte that is not zero (z = 0) or behind two zero bytes (z = 2). */
  lemma {:induction false} EscapeZeros(p: seq<byte>, n: nat)
    requires |p| == 2 * n && forall i :: 0 <= i < |p| ==> p[i] == 0
    ensures Escape(p, 2) == [3] + Dense(n) && Escape(p, 0) == Dense(n)
  {
    if n > 0 {
      var q := p[2..];
      EscapeZeros(q, n - 1);
      DenseFront(n);
      assert p[1..][1..] == q;
      assert Escape(p, 0) == [0] + ([0] + Escape(q, 2)) && Escape(p, 2) == [3, 0] + ([0] + Escape(q, 2));
    }
  }

  /** An encoder writes one for a payload of 2048 zero bytes. */
  lemma ZeroPayloadOverruns(p: seq<byte>)
    requires |p| == 2 * MAX_EMULATE && forall i :: 0 <= i < |p| ==> p[i] == 0
    ensures Emulations(Escape(p, 0)) == MAX_EMULATE
  {
    EscapeZeros(p, MAX_EMULATE);
    DenseEmulations(MAX_EMULATE);
  }

  // ----- copying

  /** A cut-off stream strips to a cut-off payload. */
  lemma {:induction false} StripPrefix(s: seq<byte>, n: nat)
    requires n <= |s|
    ensures Strip(s[..n]) <= Strip(s)
    decreases |s| - n
  {
    if n < |s| {
      StripPrefix(s, n + 1);
      assert s[..n + 1][..n] == s[..n];
    } else {
      assert s[..n] == s;
    }
  }

  /** The first n cells from dst on hold what the first n from src on held. */
  ghost predicate Copied(was: seq<byte>, now: seq<byte>, dst: nat, src: nat, n: nat)
    requires dst <= src && src + n <= |was| == |now|
  {
    forall k :: 0 <= k < |was| ==> now[k] == was[if dst <= k < dst + n then k + src - dst else k]
  }

  lemma CopiedNext(was: seq<byte>, now: seq<byte>, dst: nat, src: nat, n: nat)
    requires dst <= src && src + n < |was| == |now| && Copied(was, now, dst, src, n)
    ensures Copied(was, now[dst + n := now[src + n]], dst, src, n + 1)
  {
  }

  lemma CopiedSlices(was: seq<byte>, now: seq<byte>, dst: nat, src: nat, n: nat)
    requires dst <= src && src + n <= |was| == |now| && Copied(was, now, dst, src, n)
    ensures now[..dst + n] == was[..dst] + was[src..src + n] && now[dst + n..] == was[dst + n..]
  {
    var l, r := now[..dst + n], was[..dst] + was[src..src + n];
    forall k | 0 <= k < dst + n ensures l[k] == r[k] {
      assert l[k] == now[k];
      assert k >= dst ==> was[src..src + n][k - dst] == was[k + src - dst];
    }
    assert l == r;
    var x, y := now[dst + n..], was[dst + n..];
    forall k | 0 <= k < |x| ensures x[k] == y[k] {
      assert x[k] == now[dst + n + k];
    }
  }

  class HeaderBuffer {
    var pDecHeaderBuf: array<byte>
    const emulateIndex: array<nat>
    var nEmulateNum: nat

    ghost predicate Valid()
      reads this
    {
      emulateIndex.Length == MAX_EMULATE
    }

    constructor ()
      ensures Valid() && fresh(emulateIndex) && fresh(pDecHeaderBuf)
    {
      pDecHeaderBuf := new byte[H264_HEADER_BUF_SIZE];
      emulateIndex := new nat[MAX_EMULATE];
      nEmulateNum := 0;
    }

    /** Copies n bytes down, lowest first, onto a place they may overlap. */
    method CopyCells(dst: nat, src: nat, n: nat)
      requires dst <= src && src + n <= pDecHeaderBuf.Length
      modifies pDecHeaderBuf
      ensures Copied(old(pDecHeaderBuf[..]), pDecHeaderBuf[..], dst, src, n)
    {
      ghost var was := pDecHeaderBuf[..];
      var i := 0;
      while i < n
        invariant 0 <= i <= n && Copied(was, pDecHeaderBuf[..], dst, src, i)
      {
        ghost var now := pDecHeaderBuf[..];
        CopiedNext(was, now, dst, src, i);
        pDecHeaderBuf[dst + i] := pDecHeaderBuf[src + i];
        assert pDecHeaderBuf[..] == now[dst + i := now[src + i]];
        i := i + 1;
      }
    }

    method CopyDown(dst: nat, src: nat, n: nat)
      requires dst <= src && src + n <= pDecHeaderBuf.Length
      modifies pDecHeaderBuf
      ensures pDecHeaderBuf[..dst + n] == old(pDecHeaderBuf[..dst]) + old(pDecHeaderBuf[src..src + n])
      ensures pDecHeaderBuf[dst + n..] == old(pDecHeaderBuf[dst + n..])
    {
      ghost var was := pDecHeaderBuf[..];
      CopyCells(dst, src, n);
      CopiedSlices(was, pDecHeaderBuf[..], dst, src, n);
    }

    /** Copies a stretch of the stream buffer in, as one block or as two where it turns around. */
    method Load(vbv: seq<byte>, pReadPtr: nat, sliceLen: nat)
      requires pReadPtr < |vbv| && sliceLen <= |vbv| && sliceLen <= pDecHeaderBuf.Length
      modifies pDecHeaderBuf
      ensures pDecHeaderBuf[..sliceLen] == Lin(vbv, pReadPtr, sliceLen)
    {
      var end := |vbv| - 1;
      var remainLength := if pReadPtr + sliceLen > end then end - pReadPtr + 1 else sliceLen;
      ghost var front, back := vbv[pReadPtr..pReadPtr + remainLength], vbv[..sliceLen - remainLength];
      assert front + back == Lin(vbv, pReadPtr, sliceLen);
      hide Lin;
      CopyIn(0, vbv[pReadPtr..pReadPtr + remainLength]);
      assert pDecHeaderBuf[..remainLength] == front;
      CopyIn(remainLength, vbv[..sliceLen - remainLength]);
      assert pDecHeaderBuf[..sliceLen] == pDecHeaderBuf[..remainLength] + pDecHeaderBuf[remainLength..sliceLen];
    }

    method CopyIn(dst: nat, src: seq<byte>)
      requires dst + |src| <= pDecHeaderBuf.Length
      modifies pDecHeaderBuf
      ensures pDecHeaderBuf[dst..dst + |src|] == src && pDecHeaderBuf[..dst] == old(pDecHeaderBuf[..dst])
    {
      var i := 0;
      while i < |src|
        invariant 0 <= i <= |src| && pDecHeaderBuf[..dst] == old(pDecHeaderBuf[..dst])
        invariant pDecHeaderBuf[dst..dst + i] == src[..i]
      {
        pDecHeaderBuf[dst + i] := src[i];
        i := i + 1;
      }
    }

    /** Notes where the emulation bytes are; with more of them than there are notes it writes behind the array. */
    method FindEmulations(sliceLen: nat) returns (overrun: bool)
      requires Valid() && sliceLen <= pDecHeaderBuf.Length
      modifies this`nEmulateNum, emulateIndex
      ensures var s := pDecHeaderBuf[..sliceLen];
              && (overrun <==> Emulations(s) > MAX_EMULATE)
              && (!overrun ==> nEmulateNum == Emulations(s) && Marks(s, emulateIndex[..nEmulateNum]))
    {
      hide Emulations, IsEmulation, Marks;
      ghost var s := pDecHeaderBuf[..sliceLen];
      nEmulateNum := 0;
      var nextCode: nat := 0xFFFF_FFFF;
      var i := 0;
      NoMarksYet(s[..0], emulateIndex[..0]);
      while i < sliceLen
        invariant 0 <= i <= sliceLen && nextCode % 0x100_0000 == LastThree(s, i)
        invariant nEmulateNum == Emulations(s[..i]) <= Emulations(s) && nEmulateNum <= MAX_EMULATE
        invariant Marks(s[..i], emulateIndex[..nEmulateNum])
      {
        EmulationsGrow(s, i + 1);
        MarkStep(s, i, nextCode, emulateIndex[..nEmulateNum]);
        nextCode := (nextCode * 256 + pDecHeaderBuf[i]) % 0x1_0000_0000;
        if nextCode % 0x100_0000 == 3 {
          if nEmulateNum == emulateIndex.Length {
            return true;
          }
          ghost var before := emulateIndex[..nEmulateNum];
          emulateIndex[nEmulateNum] := i;
          nEmulateNum := nEmulateNum + 1;
          assert emulateIndex[..nEmulateNum] == before + [i];
        }
        i := i + 1;
      }
      assert s[..sliceLen] == s;
      overrun := false;
    }

    /** One stretch: from behind the mark `from` to the next mark, onto the stretches before it. */
    method CloseGap(ghost s: seq<byte>, index: nat, from: nat, to: nat)
      requires index <= from < to <= |s| <= pDecHeaderBuf.Length && pDecHeaderBuf[from..|s|] == s[from..]
      modifies pDecHeaderBuf
      ensures var next := index + (to - from - 1);
              && pDecHeaderBuf[..next] == old(pDecHeaderBuf[..index]) + s[from + 1..to]
              && pDecHeaderBuf[to..|s|] == s[to..]
    {
      ghost var was := pDecHeaderBuf[..];
      assert was[from..|s|] == s[from..];
      CopyDown(index, from + 1, to - from - 1);
      SliceOfTail(was, s, from, to, |s|);
      SameTail(was, pDecHeaderBuf[..], index + (to - from - 1), to, |s|);
    }

    /** The stretches before mark i are closed up; from there on the unit stands as loaded. */
    ghost predicate ClosedUp(s: seq<byte>, es: seq<nat>, i: nat, index: nat)
      reads this`pDecHeaderBuf, pDecHeaderBuf
    {
      var e := if i < |es| then es[i] else |s|;
      && i <= e <= |s| <= pDecHeaderBuf.Length && index == e - i
      && pDecHeaderBuf[..index] == Strip(s[..e]) && pDecHeaderBuf[e..|s|] == s[e..]
    }

    method CloseNext(ghost s: seq<byte>, ghost es: seq<nat>, ghost i: nat, index: nat, from: nat, to: nat)
      returns (next: nat)
      requires Marks(s, es) && i < |es| && from == es[i] && to == (if i + 1 < |es| then es[i + 1] else |s|)
      requires ClosedUp(s, es, i, index)
      modifies pDecHeaderBuf
      ensures ClosedUp(s, es, i + 1, next)
    {
      hide Strip, Emulations, Marks, IsEmulation;
      StripNextMark(s, es, i);
      var length := to - from - 1;
      CloseGap(s, index, from, to);
      next := index + length;
    }

    /**
     Closes the gaps the emulation bytes leave, one stretch after the other. The end of the unit is noted behind
     the last mark, which needs room too.
     */
    method Compact(sliceLen: nat) returns (overrun: bool)
      requires Valid() && sliceLen <= pDecHeaderBuf.Length && nEmulateNum <= MAX_EMULATE
      requires Marks(pDecHeaderBuf[..sliceLen], emulateIndex[..nEmulateNum])
      modifies pDecHeaderBuf, emulateIndex
      ensures nEmulateNum <= sliceLen && (overrun <==> nEmulateNum == MAX_EMULATE)
      ensures !overrun ==> pDecHeaderBuf[..sliceLen - nEmulateNum] == Strip(old(pDecHeaderBuf[..sliceLen]))
      ensures emulateIndex[..nEmulateNum] == old(emulateIndex[..nEmulateNum])
    {
      hide Strip, Emulations, Marks, IsEmulation;
      ghost var s, es := pDecHeaderBuf[..sliceLen], emulateIndex[..nEmulateNum];
      assert s[..sliceLen] == s;
      StripToMark(s, es, nEmulateNum);
      NothingBefore(s, es);
      if nEmulateNum > 0 {
        if nEmulateNum == emulateIndex.Length {
          return true;
        }
        emulateIndex[nEmulateNum] := sliceLen;
        var index := emulateIndex[0];
        var i := 0;
        assert emulateIndex[..nEmulateNum] == es && es[0] == index;
        assert pDecHeaderBuf[..sliceLen] == s;
        assert ClosedUp(s, es, 0, index);
        while i < nEmulateNum
          invariant 0 <= i <= nEmulateNum && emulateIndex[..nEmulateNum] == es && emulateIndex[nEmulateNum] == sliceLen
          invariant ClosedUp(s, es, i, index)
        {
          hide ClosedUp;
          assert emulateIndex[i] == es[i] && (i + 1 < |es| ==> emulateIndex[i + 1] == es[i + 1]);
          index := CloseNext(s, es, i, index, emulateIndex[i], emulateIndex[i + 1]);
          i := i + 1;
        }
      }
      overrun := false;
    }

    /**
     Loads a unit for the software header parser and takes its emulation bytes out, unless it has as many of them
     as there are notes.
     */
    method ProcessData(vbv: seq<byte>, pReadPtr: nat, nalUnitType: nat, sliceLen: nat)
      returns (kept: nat, overrun: bool)
      requires Valid() && pReadPtr < |vbv| && sliceLen <= |vbv|
      modifies this, pDecHeaderBuf, emulateIndex
      ensures Valid() && kept <= pDecHeaderBuf.Length
      ensures kept == if nalUnitType in {1, 5, 14, 20} && sliceLen >= 1024 then 1024 else sliceLen
      ensures !overrun && kept < sliceLen ==> kept - nEmulateNum >= 683
      ensures overrun <==> Emulations(Lin(vbv, pReadPtr, kept)) >= 1024
      ensures nalUnitType in {1, 5, 14, 20} ==> !overrun
      ensures !overrun ==>
              var s := Lin(vbv, pReadPtr, kept);
              && nEmulateNum == Emulations(s) <= kept && Marks(s, emulateIndex[..nEmulateNum])
              && pDecHeaderBuf[..kept - nEmulateNum] == Strip(s)
      ensures !overrun ==>
              forall i :: 0 <= i < kept ==>
                            (i in emulateIndex[..nEmulateNum]
                             <==> i >= 2 && Lin(vbv, pReadPtr, kept)[i - 2..i + 1] == [0, 0, 3])
      ensures forall p: seq<byte> :: !overrun && Lin(vbv, pReadPtr, kept) == Escape(p, 0)
                ==> pDecHeaderBuf[..kept - nEmulateNum] == p
      ensures forall p: seq<byte> :: !overrun && Lin(vbv, pReadPtr, kept) <= Escape(p, 0)
                ==> pDecHeaderBuf[..kept - nEmulateNum] <= p
      ensures forall p: seq<byte> :: !overrun && Lin(vbv, pReadPtr, sliceLen) == Escape(p, 0)
                ==> if kept < sliceLen then 683 <= |p| && pDecHeaderBuf[..683] == p[..683]
                    else pDecHeaderBuf[..kept - nEmulateNum] == p
    {
      hide Strip, Emulations, Marks, Escape, Lin;
      kept := Kept(nalUnitType, sliceLen);
      if kept > pDecHeaderBuf.Length {
        pDecHeaderBuf := new byte[kept + 1024];
      }
      Load(vbv, pReadPtr, kept);
      ghost var s := Lin(vbv, pReadPtr, kept);
      SliceFits(s, nalUnitType, sliceLen);
      EmulationsAreApart(s);
      overrun := FindEmulations(kept);
      if overrun {
        return;
      }
      overrun := Compact(kept);
      MarkedBytes(s, emulateIndex[..nEmulateNum]);
      assert s == Lin(vbv, pReadPtr, sliceLen)[..kept] by {
        LinSlice(vbv, pReadPtr, sliceLen, 0, kept);
      }
      Payloads(Lin(vbv, pReadPtr, sliceLen), s);
      assert kept < sliceLen ==> Strip(s)[..683] == pDecHeaderBuf[..683];
    }
  }

  /** What the front `s` of a unit `t` strips to, whatever payload it carries. */
  lemma Payloads(t: seq<byte>, s: seq<byte>)
    requires s <= t
    ensures forall p: seq<byte> :: s <= Escape(p, 0) ==> Strip(s) <= p
    ensures forall p: seq<byte> :: s == Escape(p, 0) ==> Strip(s) == p
    ensures forall p: seq<byte> :: t == Escape(p, 0) ==> Strip(s) <= p && (s == t ==> Strip(s) == p)
    ensures |Strip(s)| == |s| - Emulations(s)
  {
    hide Strip, Escape, Emulations;
    StripLength(s);
    forall p: seq<byte> | s <= Escape(p, 0) ensures Strip(s) <= p {
      StripPrefix(Escape(p, 0), |s|);
      StripInvertsEscape(p);
      assert Escape(p, 0)[..|s|] == s;
    }
    forall p: seq<byte> | s == Escape(p, 0) ensures Strip(s) == p {
      StripInvertsEscape(p);
    }
  }

  /** The marked bytes are the third ones of 00 00 03. */
  lemma MarkedBytes(s: seq<byte>, es: seq<nat>)
    requires Marks(s, es)
    ensures forall i :: 0 <= i < |s| ==> (i in es <==> i >= 2 && s[i - 2..i + 1] == [0, 0, 3])
  {
    forall i | 2 <= i < |s| ensures s[i - 2..i + 1] == [0, 0, 3] <==> IsEmulation(s, i) {
      assert s[i - 2..i + 1] == [s[i - 2], s[i - 1], s[i]];
    }
  }

  lemma SliceOfTail(was: seq<byte>, s: seq<byte>, from: nat, to: nat, n: nat)
    requires from < to <= n == |s| <= |was| && was[from..n] == s[from..]
    ensures was[from + 1..to] == s[from + 1..to] && was[to..n] == s[to..]
  {
    SliceSlice(was, from, n, 1, to - from);
    SliceSlice(s, from, n, 1, to - from);
    SliceSlice(was, from, n, to - from, n - from);
    SliceSlice(s, from, n, to - from, n - from);
    assert s[from..] == s[from..n] && s[to..] == s[to..n];
  }

  lemma SliceSlice<T>(s: seq<T>, a: nat, b: nat, c: nat, d: nat)
    requires a <= b <= |s| && c <= d <= b - a
    ensures s[a..b][c..d] == s[a + c..a + d]
  {
    var l, r := s[a..b][c..d], s[a + c..a + d];
    assert |l| == |r| && forall i :: 0 <= i < |l| ==> l[i] == r[i];
  }

  lemma SameTail(was: seq<byte>, now: seq<byte>, low: nat, to: nat, n: nat)
    requires low <= to <= n <= |was| == |now| && was[low..] == now[low..]
    ensures was[to..n] == now[to..n]
  {
    SliceSlice(was, low, |was|, to - low, n - low);
    SliceSlice(now, low, |was|, to - low, n - low);
  }

  lemma NoMarksYet(s: seq<byte>, es: seq<nat>)
    requires s == [] && es == []
    ensures Marks(s, es) && Emulations(s) == 0
  {
  }

  /** Up to the first mark nothing is to be stripped. */
  lemma NothingBefore(s: seq<byte>, es: seq<nat>)
    requires Marks(s, es)
    ensures var e := if |es| > 0 then es[0] else |s|;
            e <= |s| && Strip(s[..e]) == s[..e]
  {
    hide Strip, IsEmulation, Emulations;
    var e := if |es| > 0 then es[0] else |s|;
    assert forall i :: 0 <= i < e ==> i !in es;
    StripStretch(s, 0, e);
    NothingToStrip(s[..0]);
    assert [] + s[0..e] == s[..e];
  }

  /** One turn of the search: the window moves on, and it reads 00 00 03 exactly at an emulation byte. */
  lemma MarkStep(s: seq<byte>, i: nat, nextCode: nat, es: seq<nat>)
    requires i < |s| && nextCode % 0x100_0000 == LastThree(s, i) && Marks(s[..i], es)
    ensures var next := (nextCode * 256 + s[i]) % 0x1_0000_0000;
            && next % 0x100_0000 == LastThree(s, i + 1)
            && Marks(s[..i + 1], if next % 0x100_0000 == 3 then es + [i] else es)
            && Emulations(s[..i + 1]) == Emulations(s[..i]) + if next % 0x100_0000 == 3 then 1 else 0
  {
    hide Marks;
    Shift(nextCode, Before(s, i - 3), Before(s, i - 2), Before(s, i - 1), s[i]);
    var t := s[..i + 1];
    assert t[..i] == s[..i];
    ThreeBytes(Before(s, i - 2), Before(s, i - 1), s[i]);
    MarksGrow(s[..i], t, es);
  }

  lemma ThreeBytes(hi: nat, mid: nat, lo: nat)
    requires hi < 256 && mid < 256 && lo < 256
    ensures 0x1_0000 * hi + 0x100 * mid + lo == 3 <==> hi == 0 && mid == 0 && lo == 3
  {
  }
}
