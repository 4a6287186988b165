/**
 How NAL units lie in a byte stream: behind Annex B start codes, or behind a
 length of one to four bytes (ISO/IEC 14496-15). `CutUnit` is what one pass of a detector
 finds at the front of the bytes it holds; `Pack` is what a muxer writes.
 */
module NalUnits {
  import opened Common

  datatype Codec = Hevc | Avc

  /** Bytes of a length prefix: four for H.265, configurable for H.264. */
  type Prefix = n: nat | 1 <= n <= 4 witness 4

  datatype Framing = StartCode | LengthPrefix(prefix: Prefix)

  /** A start code occupies positions i, i+1 and i+2 of s. */
  predicate StartCodeAt(s: seq<byte>, i: int) {
    0 <= i && i + 3 <= |s| && s[i] == 0 && s[i + 1] == 0 && s[i + 2] == 1
  }

  /** The first start code at or after `from` that at least one byte follows. */
  function FirstStartCode(s: seq<byte>, from: nat): (r: Option<nat>)
    ensures r.Some? ==> from <= r.value && r.value + 3 < |s| && StartCodeAt(s, r.value)
    ensures r.Some? ==> forall j :: from <= j < r.value ==> !StartCodeAt(s, j)
    ensures r.None? ==> forall j :: from <= j && j + 3 < |s| ==> !StartCodeAt(s, j)
    decreases |s| - from
  {
    if from + 3 >= |s| then None
    else if StartCodeAt(s, from) then Some(from)
    else FirstStartCode(s, from + 1)
  }

  /** The characterisation above determines the answer. */
  lemma FirstStartCodeIs(s: seq<byte>, i: nat)
    requires i + 3 < |s| && StartCodeAt(s, i)
    requires forall j :: 0 <= j < i ==> !StartCodeAt(s, j)
    ensures FirstStartCode(s, 0) == Some(i)
  {
    var r := FirstStartCode(s, 0);
    assert r.Some? && r.value <= i;
  }

  /** One more than what n bytes can say. */
  function Limit(n: nat): (r: nat)
    ensures r > 0
  {
    if n == 0 then 1 else 0x100 * Limit(n - 1)
  }

  function BigEndian(s: seq<byte>, n: nat): (r: nat)
    requires n <= |s|
    ensures r < Limit(n)
  {
    if n == 0 then 0 else 0x100 * BigEndian(s, n - 1) + s[n - 1]
  }

  function ToBigEndian(v: nat, n: nat): (s: seq<byte>)
    requires v < Limit(n)
    ensures |s| == n
  {
    if n == 0 then [] else ToBigEndian(v / 0x100, n - 1) + [v % 0x100]
  }

  lemma {:induction false} BigEndianPrefix(s: seq<byte>, t: seq<byte>, n: nat)
    requires n <= |s|
    ensures BigEndian(s + t, n) == BigEndian(s, n)
  {
    if n > 0 {
      BigEndianPrefix(s, t, n - 1);
    }
  }

  /** A length reads back as it was written, whatever follows. */
  lemma {:induction false} BigEndianReadsBack(v: nat, n: nat, t: seq<byte>)
    requires v < Limit(n)
    ensures BigEndian(ToBigEndian(v, n) + t, n) == v
  {
    BigEndianPrefix(ToBigEndian(v, n), t, n);
    if n > 0 {
      var high := ToBigEndian(v / 0x100, n - 1);
      BigEndianReadsBack(v / 0x100, n - 1, [v % 0x100]);
      BigEndianPrefix(high, [v % 0x100], n - 1);
    }
  }

  /** A 32-bit word read as a signed one. */
  function AsSigned(n: nat): int {
    if n < 0x8000_0000 then n else n - 0x1_0000_0000
  }

  // ----- the unit at the front

  /** The bytes the ring holds behind a chunk; a look at a chunk of one byte may reach six of them. */
  type Spill = s: seq<byte> | |s| == 6 witness [0, 0, 0, 0, 0, 0]

  const NO_SPILL: Spill := [0, 0, 0, 0, 0, 0]

  /**
   `skip` bytes of framing, then a unit of `size` bytes. A Wild size has passed the check
   although no unit of that size is there.
   */
  datatype Cut = NoUnit | Cut(skip: nat, size: nat) | Wild(skip: nat, length: int)

  /** The length in front of some data, as the detector of a codec reads it. */
  function FrontLength(c: Codec, n: Prefix, s: seq<byte>, spill: Spill): int {
    var v := if |s| >= n then BigEndian(s, n) else BigEndian(s + spill, n);
    if c.Avc? then AsSigned(v) else v
  }

  /** The detectors' check: unsigned for H.265, so that a difference below zero wraps, and signed for H.264. */
  predicate Refused(c: Codec, n: Prefix, left: nat, size: int) {
    size == 0 || size > if c.Hevc? && left < n then left - n + 0x1_0000_0000 else left - n
  }

  function CutUnit(c: Codec, f: Framing, s: seq<byte>, spill: Spill): (r: Cut)
    ensures r.Cut? ==> 1 <= r.skip < |s| && r.skip + r.size <= |s|
    ensures r.Wild? ==> r.skip <= 4
  {
    match f
    case StartCode =>
      var first := FirstStartCode(s, 0);
      if first.None? then NoUnit
      else
        var rest := s[first.value + 3..];
        var next := FirstStartCode(rest, 0);
        Cut(first.value + 3, if next.None? then |rest| else next.value)
    case LengthPrefix(n) =>
      var size := FrontLength(c, n, s, spill);
      if Refused(c, n, |s|, size) then NoUnit
      else if 0 < size <= |s| - n then Cut(n, size)
      else Wild(n, size)
  }

  /**
   A length passes the check without a unit exactly if it is one of H.264 from 2^31 on that is no more,
   read as a negative number, than what is left behind it, or if an H.265 chunk does not even hold the length.
   */
  lemma WildExactly(c: Codec, n: Prefix, s: seq<byte>, spill: Spill)
    ensures var v := if |s| >= n then BigEndian(s, n) else BigEndian(s + spill, n);
            CutUnit(c, LengthPrefix(n), s, spill).Wild? <==>
            match c {
              case Avc => v >= 0x8000_0000 && v - 0x1_0000_0000 <= |s| - n
              case Hevc => |s| < n && 0 < v <= |s| - n + 0x1_0000_0000
            }
  {
    LimitBound(n);
  }

  lemma LimitBound(n: Prefix)
    ensures Limit(n) <= 0x1_0000_0000 && (n < 4 ==> Limit(n) <= 0x100_0000)
  {
    assert Limit(1) == 0x100;
    assert Limit(2) == 0x1_0000;
    assert Limit(3) == 0x100_0000;
  }

  /** With a whole look-ahead only an H.264 length from 2^31 on is let through. */
  lemma WildWhenLong(c: Codec, f: Framing, s: seq<byte>, spill: Spill)
    requires |s| >= 5
    ensures CutUnit(c, f, s, spill).Wild? <==> c.Avc? && f == LengthPrefix(4) && BigEndian(s, 4) >= 0x8000_0000
  {
    if f.LengthPrefix? {
      WildExactly(c, f.prefix, s, spill);
      LimitBound(f.prefix);
    }
  }

  /** A chunk of at most four bytes holds a unit behind a start code only as `00 00 01` and one byte. */
  lemma ShortStartCode(c: Codec, s: seq<byte>, spill: Spill)
    requires |s| < 5
    ensures CutUnit(c, StartCode, s, spill) == if |s| == 4 && StartCodeAt(s, 0) then Cut(3, 1) else NoUnit
  {
    if |s| == 4 && StartCodeAt(s, 0) {
      FirstStartCodeIs(s, 0);
    }
  }

  // ----- the same on the bytes themselves

  /** The bytes 00 00 01 stand at i, and not at the end. */
  predicate Marks(s: seq<byte>, i: nat) {
    i + 3 < |s| && s[i..i + 3] == [0, 0, 1]
  }

  lemma MarkedStart(s: seq<byte>, i: nat)
    ensures Marks(s, i) <==> i + 3 < |s| && StartCodeAt(s, i)
  {
    assert i + 3 < |s| ==> s[i..i + 3] == [s[i], s[i + 1], s[i + 2]];
  }

  lemma FirstMarked(s: seq<byte>, i: nat)
    ensures FirstStartCode(s, 0) == Some(i) <==> Marks(s, i) && forall j: nat :: j < i ==> !Marks(s, j)
    ensures FirstStartCode(s, 0) == None <==> forall j: nat :: !Marks(s, j)
  {
    hide Marks, StartCodeAt;
    forall j: nat ensures Marks(s, j) <==> j + 3 < |s| && StartCodeAt(s, j) {
      MarkedStart(s, j);
    }
    if Marks(s, i) && forall j: nat :: j < i ==> !Marks(s, j) {
      FirstStartCodeIs(s, i);
    }
  }

  /**
   Behind start codes a unit begins behind the first 00 00 01 that a byte follows, and ends in front of the next one,
   or with the data.
   */
  lemma CutBehindStartCode(c: Codec, s: seq<byte>, spill: Spill, skip: nat, size: nat)
    ensures CutUnit(c, StartCode, s, spill) == Cut(skip, size) <==>
            && 3 <= skip && skip + size <= |s| && Marks(s, skip - 3) && (forall j: nat :: j + 3 < skip ==> !Marks(s, j))
            && (skip + size == |s| || Marks(s, skip + size))
            && forall j: nat :: skip <= j < skip + size ==> !Marks(s, j)
    ensures CutUnit(c, StartCode, s, spill) == NoUnit <==> forall j: nat :: !Marks(s, j)
  {
    hide Marks, FirstStartCode;
    if skip >= 3 {
      FirstMarked(s, skip - 3);
    }
    if skip <= |s| {
      var rest := s[skip..];
      FirstMarked(rest, size);
      forall j: nat | j >= skip ensures Marks(s, j) <==> Marks(rest, j - skip) {
        MarkedBehind(s, skip, j - skip);
      }
      forall j: nat ensures Marks(rest, j) ==> Marks(s, skip + j) && j < |rest| {
        MarkedBehind(s, skip, j);
        MarkedStart(rest, j);
      }
    }
    FirstMarked(s, 0);
  }

  lemma MarkedBehind(s: seq<byte>, skip: nat, j: nat)
    requires skip <= |s|
    ensures Marks(s[skip..], j) <==> Marks(s, skip + j)
  {
    assert skip + j + 3 < |s| ==> s[skip..][j..j + 3] == s[skip + j..skip + j + 3];
  }

  /** Behind a length, most significant byte first, it has that many bytes; H.264 reads four of them as signed. */
  lemma CutBehindLength(c: Codec, n: Prefix, s: seq<byte>, spill: Spill, skip: nat, size: nat, v: nat)
    requires n <= |s|
    requires n == 1 ==> v == s[0]
    requires n == 2 ==> v == 0x100 * s[0] as int + s[1] as int
    requires n == 3 ==> v == 0x1_0000 * s[0] as int + 0x100 * s[1] as int + s[2] as int
    requires n == 4 ==> v == 0x100_0000 * s[0] as int + 0x1_0000 * s[1] as int + 0x100 * s[2] as int + s[3] as int
    ensures && (CutUnit(c, LengthPrefix(n), s, spill) == Cut(skip, size) <==>
                  skip == n && size == v && 0 < v <= |s| - n && (c.Avc? ==> v < 0x8000_0000))
            && (CutUnit(c, LengthPrefix(n), s, spill) == NoUnit <==>
                  v == 0 || (v > |s| - n && (c.Avc? && v >= 0x8000_0000 ==> v - 0x1_0000_0000 > |s| - n)))
  {
    assert BigEndian(s, 1) == 0x100 * BigEndian(s, 0) + s[0];
    assert n >= 2 ==> BigEndian(s, 2) == 0x100 * BigEndian(s, 1) + s[1];
    assert n >= 3 ==> BigEndian(s, 3) == 0x100 * BigEndian(s, 2) + s[2];
    assert n == 4 ==> BigEndian(s, 4) == 0x100 * BigEndian(s, 3) + s[3];
  }

  // ----- NAL unit headers

  function UnitType(c: Codec, header: byte): (t: nat) {
    match c
    case Hevc => header % 128 / 2
    case Avc => header % 32
  }

  /** VPS, SPS, PPS, AUD or prefix SEI: starts an access unit (section 7.4.2.4.4 of H.265). */
  predicate BeginsAccessUnit(c: Codec, t: nat) {
    c.Hevc? && (32 <= t <= 35 || t == 39)
  }

  /**
   first_slice_segment_in_pic_flag of an H.265 slice unit, whose third byte is given.
   The H.264 detector is built to treat every unit as a picture of its own.
   */
  predicate FirstSlice(c: Codec, t: nat, third: byte) {
    match c
    case Hevc => t <= 21 && third >= 128
    case Avc => true
  }

  // ----- packing, and reading back

  /** A unit with the zero bytes an Annex B stream puts before its start code. */
  datatype Nal = Nal(zeros: nat, unit: seq<byte>)

  /** Behind a start code with z zero bytes in front. */
  function Framed(z: nat, body: seq<byte>): (s: seq<byte>)
    ensures |s| == z + 3 + |body|
  {
    Zeros(z) + [0, 0, 1] + body
  }

  /** What a length can say to the detector of a codec. */
  function SizeLimit(c: Codec, n: Prefix): nat {
    if c.Avc? && n == 4 then 0x8000_0000 else Limit(n)
  }

  /** A unit that can be told apart: it holds no start code, or its length can be written. */
  predicate Packable(c: Codec, f: Framing, u: Nal) {
    match f
    case StartCode => u.unit != [] && forall j :: 0 <= j < |u.unit| ==> !StartCodeAt(u.unit, j)
    case LengthPrefix(n) => u.zeros == 0 && 1 <= |u.unit| < SizeLimit(c, n)
  }

  predicate AllPackable(c: Codec, f: Framing, us: seq<Nal>) {
    forall i :: 0 <= i < |us| ==> Packable(c, f, us[i])
  }

  function PackUnit(c: Codec, f: Framing, u: Nal): (s: seq<byte>)
    requires Packable(c, f, u)
    ensures s != []
  {
    match f
    case StartCode => Framed(u.zeros, u.unit)
    case LengthPrefix(n) => LimitBound(n); ToBigEndian(|u.unit|, n) + u.unit
  }

  function Pack(c: Codec, f: Framing, us: seq<Nal>): (s: seq<byte>)
    requires AllPackable(c, f, us)
  {
    if us == [] then [] else PackUnit(c, f, us[0]) + Pack(c, f, us[1..])
  }

  /**
   The last look at a packed list sees the five bytes it takes; zero bytes in front of the last unit
   count only if no unit stands before it.
   */
  predicate EndsLong(f: Framing, us: seq<Nal>) {
    us == [] ||
    match f {
      case StartCode => (if |us| == 1 then us[0].zeros else 0) + 3 + |us[|us| - 1].unit| >= 5
      case LengthPrefix(n) => n + |us[|us| - 1].unit| >= 5
    }
  }

  /** Zero bytes before a start code are taken for the end of the unit before it, if there is one. */
  function Received(us: seq<Nal>): (r: seq<seq<byte>>)
    ensures |r| == |us|
  {
    if us == [] then []
    else [us[0].unit + if |us| > 1 then Zeros(us[1].zeros) else []] + Received(us[1..])
  }

  function UnitsOf(us: seq<Nal>): (r: seq<seq<byte>>)
    ensures |r| == |us| && forall i :: 0 <= i < |us| ==> r[i] == us[i].unit
  {
    if us == [] then [] else [us[0].unit] + UnitsOf(us[1..])
  }

  /** Every byte belongs to a unit, and each look at the front finds one. */
  predicate Clean(c: Codec, f: Framing, s: seq<byte>)
    decreases |s|
  {
    s == [] ||
    (|s| >= 5 && var r := CutUnit(c, f, s, NO_SPILL); r.Cut? && Clean(c, f, s[r.skip + r.size..]))
  }

  function Units(c: Codec, f: Framing, s: seq<byte>): (us: seq<seq<byte>>)
    requires Clean(c, f, s)
    decreases |s|
  {
    if s == [] then [] else
      var r := CutUnit(c, f, s, NO_SPILL);
      [s[r.skip..r.skip + r.size]] + Units(c, f, s[r.skip + r.size..])
  }

  /** A whole look-ahead does not depend on what the ring holds behind the chunk. */
  lemma SpillIsIdle(c: Codec, f: Framing, s: seq<byte>, spill: Spill, other: Spill)
    requires |s| >= 5
    ensures CutUnit(c, f, s, spill) == CutUnit(c, f, s, other)
  {
  }

  // ----- start codes with zero bytes in front

  lemma FrontStartCode(z: nat, u: seq<byte>)
    requires u != []
    ensures FirstStartCode(Framed(z, u), 0) == Some(z) && Framed(z, u)[z + 3..] == u
  {
    var s := Framed(z, u);
    assert StartCodeAt(s, z);
    forall j: nat | j < z ensures !StartCodeAt(s, j) {
      assert s[j + 2] == 0;
    }
    FirstStartCodeIs(s, z);
  }

  /** The unit in front reaches to the next start code, over the zero bytes before that. */
  lemma NextStartCode(u: seq<byte>, z: nat, v: seq<byte>)
    requires v != [] && forall j :: 0 <= j < |u| ==> !StartCodeAt(u, j)
    ensures FirstStartCode(u + Framed(z, v), 0) == Some(|u| + z)
  {
    var s := u + Framed(z, v);
    assert StartCodeAt(s, |u| + z);
    forall j: nat | j < |u| + z ensures !StartCodeAt(s, j) {
      if j + 2 < |u| {
        assert !StartCodeAt(u, j);
        assert s[j] == u[j] && s[j + 1] == u[j + 1] && s[j + 2] == u[j + 2];
      } else {
        assert s[j + 2] == Framed(z, v)[j + 2 - |u|] == 0;
      }
    }
    FirstStartCodeIs(s, |u| + z);
  }

  lemma LastUnit(u: seq<byte>)
    requires forall j :: 0 <= j < |u| ==> !StartCodeAt(u, j)
    ensures FirstStartCode(u, 0) == None
  {
  }

  /** What follows the framing and the unit with its zero bytes. */
  lemma AfterUnit(u: seq<byte>, y: nat, v: seq<byte>)
    ensures (u + Framed(y, v))[..|u| + y] == u + Zeros(y) && (u + Framed(y, v))[|u| + y..] == Framed(0, v)
  {
  }

  lemma SliceBehind(s: seq<byte>, k: nat, n: nat)
    requires k + n <= |s|
    ensures s[k..k + n] == s[k..][..n] && s[k + n..] == s[k..][n..]
  {
  }

  /** A unit with another one behind it is cut off with the zero bytes between them. */
  lemma CutBefore(c: Codec, z: nat, u: seq<byte>, y: nat, v: seq<byte>)
    requires u != [] && v != [] && forall j :: 0 <= j < |u| ==> !StartCodeAt(u, j)
    ensures var s := Framed(z, u + Framed(y, v)); var r := CutUnit(c, StartCode, s, NO_SPILL);
            r.Cut? && s[r.skip..r.skip + r.size] == u + Zeros(y) && s[r.skip + r.size..] == Framed(0, v)
  {
    hide Framed, FirstStartCode, StartCodeAt;
    var rest := u + Framed(y, v);
    FrontStartCode(z, rest);
    NextStartCode(u, y, v);
    AfterUnit(u, y, v);
    SliceBehind(Framed(z, rest), z + 3, |u| + y);
  }

  lemma CutLast(c: Codec, z: nat, u: seq<byte>)
    requires u != [] && forall j :: 0 <= j < |u| ==> !StartCodeAt(u, j)
    ensures var s := Framed(z, u); var r := CutUnit(c, StartCode, s, NO_SPILL);
            r.Cut? && s[r.skip..r.skip + r.size] == u && s[r.skip + r.size..] == []
  {
    hide Framed, FirstStartCode, StartCodeAt;
    FrontStartCode(z, u);
    LastUnit(u);
    SliceBehind(Framed(z, u), z + 3, |u|);
  }

  lemma CutLengthPrefix(c: Codec, n: Prefix, u: seq<byte>, tail: seq<byte>)
    requires Packable(c, LengthPrefix(n), Nal(0, u))
    ensures var s := PackUnit(c, LengthPrefix(n), Nal(0, u)) + tail;
            CutUnit(c, LengthPrefix(n), s, NO_SPILL) == Cut(n, |u|)
            && s[n..n + |u|] == u && s[n + |u|..] == tail
  {
    LimitBound(n);
    var s := PackUnit(c, LengthPrefix(n), Nal(0, u)) + tail;
    BigEndianReadsBack(|u|, n, u + tail);
    assert s == ToBigEndian(|u|, n) + (u + tail);
  }

  lemma CleanCons(c: Codec, f: Framing, s: seq<byte>, u: seq<byte>, tail: seq<byte>)
    requires s != [] && CutUnit(c, f, s, NO_SPILL).Cut?
    requires var r := CutUnit(c, f, s, NO_SPILL); s[r.skip..r.skip + r.size] == u && s[r.skip + r.size..] == tail
    ensures Clean(c, f, s) <==> |s| >= 5 && Clean(c, f, tail)
    ensures Clean(c, f, s) ==> Units(c, f, s) == [u] + Units(c, f, tail)
  {
  }

  /** The packed list without the zero bytes in front of it. */
  function Bare(us: seq<Nal>): (r: seq<Nal>)
    ensures |r| == |us|
  {
    if us == [] then [] else [us[0].(zeros := 0)] + us[1..]
  }

  lemma BareIs(c: Codec, f: Framing, us: seq<Nal>)
    requires AllPackable(c, f, us)
    ensures AllPackable(c, f, Bare(us)) && Received(Bare(us)) == Received(us)
    ensures f.LengthPrefix? ==> Pack(c, f, Bare(us)) == Pack(c, f, us)
  {
    if us != [] {
      assert Bare(us)[1..] == us[1..] && Bare(us)[0].unit == us[0].unit && Packable(c, f, us[0]);
      if f.LengthPrefix? {
        assert Bare(us) == us;
      }
    }
  }

  /** A packed list is its first start code and all that follows. */
  lemma PackIsFramed(c: Codec, us: seq<Nal>)
    requires AllPackable(c, StartCode, us) && us != [] && AllPackable(c, StartCode, us[1..])
    ensures AllPackable(c, StartCode, Bare(us))
    ensures var body := us[0].unit + Pack(c, StartCode, us[1..]);
            && body != [] && Pack(c, StartCode, us) == Framed(us[0].zeros, body)
            && Pack(c, StartCode, Bare(us)) == Framed(0, body)
  {
    var u, later := us[0], Pack(c, StartCode, us[1..]);
    assert Packable(c, StartCode, u) && Bare(us)[1..] == us[1..];
    Append(Zeros(u.zeros) + [0, 0, 1], u.unit, later);
    Append(Zeros(0) + [0, 0, 1], u.unit, later);
  }

  lemma ReceivedHead(us: seq<Nal>)
    requires us != []
    ensures Received(us)[0] == us[0].unit + (if |us| > 1 then Zeros(us[1].zeros) else Zeros(0))
    ensures Received(us)[1..] == Received(us[1..])
  {
  }

  lemma TailPackable(c: Codec, f: Framing, us: seq<Nal>)
    requires AllPackable(c, f, us) && us != []
    ensures Packable(c, f, us[0]) && AllPackable(c, f, us[1..])
    ensures |us| > 1 ==> us[1..] != [] && us[1..][0] == us[1]
  {
  }

  lemma PackableUnit(c: Codec, u: Nal)
    requires Packable(c, StartCode, u)
    ensures u.unit != [] && forall j :: 0 <= j < |u.unit| ==> !StartCodeAt(u.unit, j)
  {
  }

  lemma CutPackedStartCode(c: Codec, us: seq<Nal>)
    requires AllPackable(c, StartCode, us) && us != []
    ensures AllPackable(c, StartCode, us[1..]) && AllPackable(c, StartCode, Bare(us[1..]))
    ensures var s := Pack(c, StartCode, us); var r := CutUnit(c, StartCode, s, NO_SPILL);
            && r.Cut? && s[r.skip..r.skip + r.size] == Received(us)[0]
            && s[r.skip + r.size..] == Pack(c, StartCode, Bare(us[1..]))
  {
    hide *;
    TailPackable(c, StartCode, us);
    var u, later := us[0], us[1..];
    PackableUnit(c, u);
    if later != [] {
      TailPackable(c, StartCode, later);
    }
    PackIsFramed(c, us);
    ReceivedHead(us);
    NothingPacked(c, StartCode);
    BareIs(c, StartCode, later);
    if later == [] {
      CutLast(c, u.zeros, u.unit);
      assert u.unit + [] == u.unit && u.unit + Zeros(0) == u.unit && Bare(later) == [];
    } else {
      PackIsFramed(c, later);
      CutBefore(c, u.zeros, u.unit, later[0].zeros, later[0].unit + Pack(c, StartCode, later[1..]));
    }
  }

  lemma CutPackedLength(c: Codec, n: Prefix, us: seq<Nal>)
    requires AllPackable(c, LengthPrefix(n), us) && us != []
    ensures AllPackable(c, LengthPrefix(n), us[1..]) && AllPackable(c, LengthPrefix(n), Bare(us[1..]))
    ensures var f := LengthPrefix(n); var s := Pack(c, f, us); var r := CutUnit(c, f, s, NO_SPILL);
            && r.Cut? && s[r.skip..r.skip + r.size] == Received(us)[0]
            && s[r.skip + r.size..] == Pack(c, f, Bare(us[1..]))
  {
    var u, later := us[0], us[1..];
    assert Packable(c, LengthPrefix(n), u) && forall i :: 0 <= i < |later| ==> later[i] == us[i + 1];
    assert later != [] ==> Packable(c, LengthPrefix(n), later[0]);
    assert u == Nal(0, u.unit) && u.unit + Zeros(0) == u.unit;
    hide CutUnit, Received;
    BareIs(c, LengthPrefix(n), later);
    ReceivedHead(us);
    CutLengthPrefix(c, n, u.unit, Pack(c, LengthPrefix(n), later));
  }

  /** One unit of a packed list is cut off, with the zero bytes that follow it. */
  lemma CutPacked(c: Codec, f: Framing, us: seq<Nal>)
    requires AllPackable(c, f, us) && us != []
    ensures AllPackable(c, f, us[1..]) && AllPackable(c, f, Bare(us[1..]))
    ensures var s := Pack(c, f, us); var r := CutUnit(c, f, s, NO_SPILL);
            && s != [] && r.Cut? && s[r.skip..r.skip + r.size] == Received(us)[0]
            && s[r.skip + r.size..] == Pack(c, f, Bare(us[1..]))
  {
    hide CutUnit, Received, Pack, Packable, AllPackable, Bare;
    if f.StartCode? {
      CutPackedStartCode(c, us);
    } else {
      CutPackedLength(c, f.prefix, us);
    }
  }

  /** How long a packed list is that ends as it should. */
  lemma {:induction false} EndsLongIs(c: Codec, f: Framing, us: seq<Nal>)
    requires AllPackable(c, f, us) && us != []
    ensures EndsLong(f, us) ==> |Pack(c, f, us)| >= 5
    ensures |us| == 1 ==> (EndsLong(f, us) <==> |Pack(c, f, us)| >= 5)
    decreases |us|
  {
    TailPackable(c, f, us);
    hide AllPackable, Packable, PackUnit;
    PackedLength(c, f, us[0]);
    assert Pack(c, f, us) == PackUnit(c, f, us[0]) + Pack(c, f, us[1..]);
    if |us| == 1 {
      assert Pack(c, f, us[1..]) == [];
    } else {
      EndsLongIs(c, f, us[1..]);
      EndsLongBehind(f, us);
      EndsLongBare(f, us[1..]);
      hide Pack, EndsLong;
    }
  }

  lemma EndsLongBehind(f: Framing, us: seq<Nal>)
    requires |us| > 1
    ensures EndsLong(f, Bare(us[1..])) <==> EndsLong(f, us)
  {
  }

  lemma EndsLongBare(f: Framing, us: seq<Nal>)
    ensures EndsLong(f, Bare(us)) ==> EndsLong(f, us)
  {
  }

  lemma PackedLength(c: Codec, f: Framing, u: Nal)
    requires Packable(c, f, u)
    ensures |PackUnit(c, f, u)| == |u.unit| + match f { case StartCode => u.zeros + 3 case LengthPrefix(n) => n }
  {
  }

  /**
   Whatever was packed is read back, in order and without a byte left over, exactly if the list does not
   end in a unit so short that the detectors do not look at it.
   */
  lemma {:induction false} UnpackPack(c: Codec, f: Framing, us: seq<Nal>)
    requires AllPackable(c, f, us)
    ensures Clean(c, f, Pack(c, f, us)) <==> EndsLong(f, us)
    ensures EndsLong(f, us) ==> Units(c, f, Pack(c, f, us)) == Received(us)
    decreases |us|
  {
    hide CutUnit, Pack, Received, EndsLong;
    NothingPacked(c, f);
    if us != [] {
      CutPacked(c, f, us);
      BareIs(c, f, us[1..]);
      UnpackPack(c, f, Bare(us[1..]));
      EndsLongIs(c, f, us);
      if |us| > 1 {
        EndsLongBehind(f, us);
      }
      CleanCons(c, f, Pack(c, f, us), Received(us)[0], Pack(c, f, Bare(us[1..])));
      ReceivedHead(us);
      assert Received(us) == [Received(us)[0]] + Received(us)[1..];
    }
  }

  lemma NothingPacked(c: Codec, f: Framing)
    ensures Pack(c, f, []) == [] && Received([]) == [] && EndsLong(f, []) && Clean(c, f, [])
  {
  }

  // ----- what the zero bytes do to the units

  predicate NoZeroEnd(u: seq<byte>) {
    u != [] ==> u[|u| - 1] != 0
  }

  function StripZeros(u: seq<byte>): (r: seq<byte>)
    ensures NoZeroEnd(r)
  {
    if u != [] && u[|u| - 1] == 0 then StripZeros(u[..|u| - 1]) else u
  }

  function StripAll(us: seq<seq<byte>>): (r: seq<seq<byte>>)
    ensures |r| == |us|
  {
    if us == [] then [] else [StripZeros(us[0])] + StripAll(us[1..])
  }

  lemma {:induction false} StripUnit(u: seq<byte>, z: nat)
    requires NoZeroEnd(u)
    ensures StripZeros(u + Zeros(z)) == u
  {
    if z == 0 {
      assert u + Zeros(0) == u;
    } else {
      StripUnit(u, z - 1);
      assert (u + Zeros(z))[..|u| + z - 1] == u + Zeros(z - 1);
    }
  }

  /** Without their trailing zero bytes the units read are the units packed. */
  lemma {:induction false} StrippedAsPacked(us: seq<Nal>)
    requires forall i :: 0 <= i < |us| ==> NoZeroEnd(us[i].unit)
    ensures StripAll(Received(us)) == UnitsOf(us)
  {
    if us != [] {
      StrippedAsPacked(us[1..]);
      ReceivedHead(us);
      StripUnit(us[0].unit, if |us| > 1 then us[1].zeros else 0);
    }
  }

  /** With them, exactly if no zero byte stands between two units. */
  lemma {:induction false} ReceivedAsPacked(us: seq<Nal>)
    ensures Received(us) == UnitsOf(us) <==> forall i :: 1 <= i < |us| ==> us[i].zeros == 0
  {
    if us != [] {
      var later := us[1..];
      ReceivedAsPacked(later);
      ReceivedHead(us);
      assert forall i :: 0 <= i < |later| ==> later[i] == us[i + 1];
      var z := if |us| > 1 then us[1].zeros else 0;
      assert |us[0].unit + Zeros(z)| == |us[0].unit| + z;
      assert z == 0 ==> us[0].unit + Zeros(z) == us[0].unit;
      assert UnitsOf(us)[1..] == UnitsOf(later);
      if Received(us) == UnitsOf(us) {
        assert Received(us)[0] == UnitsOf(us)[0];
        assert forall i :: 1 <= i < |us| ==> us[i].zeros == 0 by {
          forall i | 1 <= i < |us| ensures us[i].zeros == 0 {
            if i > 1 {
              assert later[i - 1] == us[i];
            }
          }
        }
      }
    }
  }
}
