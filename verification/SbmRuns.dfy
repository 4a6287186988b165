/**
 Whole runs of the pipeline: a feeder submitting chunks, a detector making passes
 and a decoder taking pictures, in any interleaving.
 */
module SbmRuns {
  import opened Common
  import opened NalUnits
  import opened SbmFlow

  /**
   One atomic step of one of the three clients. A write by the feeder may change what the ring holds behind
   the current chunk and behind those that wait.
   */
  datatype Event =
    | Write(spills: Spills)
    | Submit(chunk: Chunk)
    | SetEos(eos: bool)
    | Pass
    | TakePic
    | GiveBackPic
    | FlushPic

  /** The pipeline with its history: the bytes fed in, and the pictures the decoder is done with. */
  datatype Trace = Trace(now: Flow, fed: seq<byte>, out: seq<Pic>)

  /** A pass neither goes astray nor strands the rest of a chunk. */
  predicate PassIsFine(codec: Codec, framing: Framing, s: Flow) {
    s.pic.None? || (!Step(codec, framing, s).Astray? && !Stranded(Step(codec, framing, s).s))
  }

  /** Any chunk may be submitted; the decoder gives back and flushes what it has taken. */
  predicate Allowed(codec: Codec, framing: Framing, s: Flow, e: Event) {
    match e
    case Write(w) => |w.chunks| == |s.chunks|
    case Pass => PassIsFine(codec, framing, s)
    case GiveBackPic => s.taken > 0
    case FlushPic => s.taken > 0
    case _ => true
  }

  function Apply(codec: Codec, framing: Framing, r: Trace, e: Event): Trace
    requires Invariant(codec, r.now) && Allowed(codec, framing, r.now, e)
  {
    var s := r.now;
    match e
    case Write(w) => r.(now := Written(s, w))
    case Submit(c) => Trace(s.(chunks := s.chunks + [c]), r.fed + c.data, r.out)
    case SetEos(b) => r.(now := s.(eos := b))
    case Pass => r.(now := if s.pic.None? then Claim(s) else Step(codec, framing, s).s)
    case TakePic => if s.taken < |s.pics| then r.(now := s.(taken := s.taken + 1)) else r
    case GiveBackPic => r.(now := s.(taken := s.taken - 1))
    case FlushPic => Trace(s.(pics := s.pics[1..], taken := s.taken - 1), r.fed, r.out + [s.pics[0]])
  }

  /** Flushed, buffered and waiting bytes together are the bytes fed in; every picture is well-formed. */
  predicate Accounted(codec: Codec, r: Trace) {
    && Invariant(codec, r.now) && !Stranded(r.now) && PicsWellFormed(codec, r.out)
    && PicBytes(r.out) + AllBytes(r.now) == r.fed
  }

  lemma SubmitBytes(s: Flow, c: Chunk)
    ensures AllBytes(s.(chunks := s.chunks + [c])) == AllBytes(s) + c.data
  {
    ChunkBytesAppend(s.chunks, [c]);
    assert ChunkBytes([c]) == c.data;
  }

  /** Neither the decoder's cursor nor the end-of-stream mark is part of the contents. */
  lemma CursorBytes(s: Flow, taken: nat, eos: bool)
    ensures AllBytes(s.(taken := taken, eos := eos)) == AllBytes(s)
  {
  }

  lemma {:induction false} SameChunkBytes(cs: seq<Chunk>, ds: seq<Chunk>)
    requires |cs| == |ds| && forall i :: 0 <= i < |cs| ==> cs[i].data == ds[i].data
    ensures ChunkBytes(cs) == ChunkBytes(ds)
  {
    if cs != [] {
      SameChunkBytes(cs[1..], ds[1..]);
    }
  }

  lemma WriteBytes(s: Flow, w: Spills)
    requires |w.chunks| == |s.chunks|
    ensures AllBytes(Written(s, w)) == AllBytes(s)
  {
    SameChunkBytes(s.chunks, Written(s, w).chunks);
  }

  /** Filling granted room, as the ring sees it, is such an event. */
  lemma FillIsAWrite(codec: Codec, framing: Framing, r: Trace, t: Flow)
    requires Invariant(codec, r.now) && SameData(r.now, t)
    ensures var e := Write(SpillsOf(t)); Allowed(codec, framing, r.now, e) && Apply(codec, framing, r, e).now == t
  {
  }

  lemma FlushBytes(out: seq<Pic>, s: Flow)
    requires s.pics != []
    ensures PicBytes(out + [s.pics[0]]) + AllBytes(s.(pics := s.pics[1..])) == PicBytes(out) + AllBytes(s)
  {
    var p := s.pics[0];
    var t := s.(pics := s.pics[1..]);
    PicBytesAppend(out, [p]);
    assert PicBytes([p]) == p.bytes;
    assert PicBytes(s.pics) == p.bytes + PicBytes(t.pics);
    assert AllBytes(s) == p.bytes + AllBytes(t);
    Append(PicBytes(out), p.bytes, AllBytes(t));
  }

  lemma PassBytes(codec: Codec, framing: Framing, s: Flow)
    requires Invariant(codec, s) && !Stranded(s) && PassIsFine(codec, framing, s)
    ensures var t := if s.pic.None? then Claim(s) else Step(codec, framing, s).s;
            Invariant(codec, t) && !Stranded(t) && AllBytes(t) == AllBytes(s)
  {
    hide Step, PicBytes, ChunkBytes;
    if s.pic.Some? {
      StepKeepsInvariant(codec, framing, s);
      StepConservesBytes(codec, framing, s);
    }
  }

  lemma ApplyKeeps(codec: Codec, framing: Framing, r: Trace, e: Event)
    requires Accounted(codec, r) && Allowed(codec, framing, r.now, e)
    ensures Accounted(codec, Apply(codec, framing, r, e))
  {
    hide WellFormed, NoFirst, PicBytes, AllBytes, Step, Claim;
    var s := r.now;
    match e
    case Write(w) => WriteBytes(s, w);
    case Submit(c) =>
      SubmitBytes(s, c);
      Append(PicBytes(r.out), AllBytes(s), c.data);
    case SetEos(b) => CursorBytes(s, s.taken, b);
    case Pass => PassBytes(codec, framing, s);
    case TakePic => CursorBytes(s, s.taken + 1, s.eos);
    case GiveBackPic => CursorBytes(s, s.taken - 1, s.eos);
    case FlushPic =>
      FlushBytes(r.out, s);
      CursorBytes(s.(pics := s.pics[1..]), s.taken - 1, s.eos);
  }

  /** A run is legal when each event is allowed at its turn. */
  ghost predicate Run(codec: Codec, framing: Framing, r: Trace, es: seq<Event>, r': Trace)
    requires Accounted(codec, r)
    decreases |es|
  {
    if es == [] then r' == r
    else Allowed(codec, framing, r.now, es[0]) && (ApplyKeeps(codec, framing, r, es[0]);
                                   Run(codec, framing, Apply(codec, framing, r, es[0]), es[1..], r'))
  }

  /**
   Whatever the interleaving, the pictures the decoder has flushed and those still
   queued are well-formed, and together with the bytes still being regrouped they
   spell exactly what the feeder submitted.
   */
  lemma {:induction false} RunsAreAccounted(codec: Codec, framing: Framing, r: Trace, es: seq<Event>, r': Trace)
    requires Accounted(codec, r) && Run(codec, framing, r, es, r')
    ensures Accounted(codec, r')
    ensures PicsWellFormed(codec, r'.out) && PicBytes(r'.out) <= r'.fed
    decreases |es|
  {
    if es != [] {
      ApplyKeeps(codec, framing, r, es[0]);
      RunsAreAccounted(codec, framing, Apply(codec, framing, r, es[0]), es[1..], r');
    }
  }

  // ----- which passes are not fine

  /**
   A pass is fine exactly if the unit it finds neither opens a picture while it lies in a chunk of less
   than five bytes, nor has to be stored with a length that is not there.
   */
  lemma PassIsFineExactly(codec: Codec, framing: Framing, s: Flow)
    requires s.pic.Some?
    ensures PassIsFine(codec, framing, s) <==>
              FindsUnit(codec, framing, s) ==>
                var c := LookedAt(s).value; var cut := CutOf(codec, framing, c);
                if s.found && HeaderOpens(codec, c, cut.skip) then |c.rest| >= 5 else !cut.Wild?
  {
    AstrayExactly(codec, framing, s);
    hide CutUnit, HeaderOpens, Step, Stranded;
    if !Step(codec, framing, s).Astray? {
      StrandedExactly(codec, framing, s);
    }
  }

  /** Chunks that are empty or hold five bytes, with lengths that are there. */
  predicate Regular(codec: Codec, framing: Framing, s: Flow) {
    && SaneFlow(codec, framing, s) && !Stranded(s)
    && forall i :: 0 <= i < |s.chunks| ==> s.chunks[i].data == [] || |s.chunks[i].data| >= 5
  }

  /** While such chunks are submitted every pass is fine. */
  lemma RegularPassesAreFine(codec: Codec, framing: Framing, s: Flow)
    requires Regular(codec, framing, s) && s.pic.Some?
    ensures PassIsFine(codec, framing, s) && Regular(codec, framing, Step(codec, framing, s).s)
  {
    SaneStep(codec, framing, s);
    StrandedExactly(codec, framing, s);
    ChunksLeft(codec, framing, s);
    hide SaneFlow, Step, FindsUnit, HeaderOpens, CutOf, Stranded;
  }

  lemma SaneRest(codec: Codec, framing: Framing, data: seq<byte>, spill: Spill)
    requires data != [] && Sane(codec, framing, data, spill)
    ensures var r := CutUnit(codec, framing, data, spill);
            && !r.Wild?
            && (r.Cut? && |data| - r.skip - r.size >= 5 ==> Sane(codec, framing, data[r.skip + r.size..], spill))
  {
    hide CutUnit;
  }

  lemma {:induction false} SaneIsIdle(codec: Codec, framing: Framing, data: seq<byte>, spill: Spill, other: Spill)
    requires |data| >= 5 && Sane(codec, framing, data, spill)
    ensures Sane(codec, framing, data, other)
    decreases |data|
  {
    hide CutUnit, Sane;
    var cut := CutUnit(codec, framing, data, spill);
    assert cut == CutUnit(codec, framing, data, other) by { SpillIsIdle(codec, framing, data, spill, other); }
    SaneRest(codec, framing, data, spill);
    if cut.Cut? {
      var tail := data[cut.skip + cut.size..];
      if |tail| >= 5 {
        SaneIsIdle(codec, framing, tail, spill, other);
      }
    }
    SaneFront(codec, framing, data, other);
  }

  /** No write behind them changes that. */
  lemma WriteKeepsRegular(codec: Codec, framing: Framing, s: Flow, w: Spills)
    requires Regular(codec, framing, s) && |w.chunks| == |s.chunks|
    ensures Regular(codec, framing, Written(s, w))
  {
    hide CutUnit, Sane;
    var t := Written(s, w);
    if s.cur.Some? && |s.cur.value.rest| >= 5 {
      SaneIsIdle(codec, framing, s.cur.value.rest, s.cur.value.spill, w.cur);
    }
    forall i | 0 <= i < |t.chunks| ensures Sane(codec, framing, t.chunks[i].data, t.chunks[i].spill) {
      assert Sane(codec, framing, s.chunks[i].data, s.chunks[i].spill);
      if s.chunks[i].data == [] {
        NothingIsSane(codec, framing, t.chunks[i].spill);
      } else {
        SaneIsIdle(codec, framing, s.chunks[i].data, s.chunks[i].spill, w.chunks[i]);
      }
    }
  }

  lemma NothingIsSane(codec: Codec, framing: Framing, spill: Spill)
    ensures Sane(codec, framing, [], spill)
  {
  }

  lemma ChunksLeft(codec: Codec, framing: Framing, s: Flow)
    requires s.pic.Some? && !Step(codec, framing, s).Astray?
    ensures var cs := Step(codec, framing, s).s.chunks; cs == s.chunks || (s.chunks != [] && cs == s.chunks[1..])
  {
    hide Look, Supply;
    if s.cur.None? || |s.cur.value.rest| < 5 {
      SupplyLooks(s);
      if Supply(s).Fed? {
        LookKeepsChunks(codec, framing, Supply(s).s);
      }
    } else {
      LookKeepsChunks(codec, framing, s);
    }
  }

  lemma LookKeepsChunks(codec: Codec, framing: Framing, s: Flow)
    requires s.pic.Some? && s.cur.Some? && s.cur.value.rest != [] && !Look(codec, framing, s).Astray?
    ensures Look(codec, framing, s).s.chunks == s.chunks
  {
    hide CutOf, HeaderType, HeaderFirst, HeaderOpens;
  }

  // ----- a run to a pass that is not fine

  const START := Trace(EMPTY, [], [])

  /** An H.264 stream of an access unit delimiter and, alone in a chunk, an end-of-sequence unit. */
  const DELIMITER := Chunk([0, 0, 1, 9, 16], NO_SPILL, -1)
  const END_OF_SEQUENCE := Chunk([0, 0, 1, 10], NO_SPILL, -1)

  lemma DelimiterIsStored()
    ensures CutUnit(Avc, StartCode, DELIMITER.data, NO_SPILL) == Cut(3, 2)
  {
    var d := DELIMITER.data;
    assert StartCodeAt(d, 0);
    FirstStartCodeIs(d, 0);
    assert d[3..] == [9, 16];
  }

  lemma RunCons(codec: Codec, framing: Framing, r: Trace, e: Event, es: seq<Event>, r': Trace)
    requires Accounted(codec, r) && Allowed(codec, framing, r.now, e)
    requires Accounted(codec, Apply(codec, framing, r, e)) && Run(codec, framing, Apply(codec, framing, r, e), es, r')
    ensures Run(codec, framing, r, [e] + es, r')
  {
    hide Accounted, Allowed, Apply;
    assert ([e] + es)[1..] == es;
  }

  lemma DelimiterStep(s: Flow)
    requires s == EMPTY.(chunks := [DELIMITER, END_OF_SEQUENCE], pic := Some(Pic([], [], true, -1)))
    ensures var r := Step(Avc, StartCode, s);
            && r.More? && r.s.found && r.s.chunks == [END_OF_SEQUENCE] && UnitsSoFar(r.s) == 1
            && r.s.cur.Some? && r.s.cur.value.rest == [] && r.s.pic.Some? && r.s.pic.value.bytes != []
  {
    DelimiterIsStored();
    SupplyLooks(s);
    hide CutUnit;
    assert Look(Avc, StartCode, Supply(s).s).More?;
  }

  lemma EndOfSequenceIsNext(s: Flow)
    requires s.pic.Some? && s.found && s.chunks == [END_OF_SEQUENCE] && UnitsSoFar(s) == 1
    requires s.cur.Some? && s.cur.value.rest == []
    ensures var r := Step(Avc, StartCode, s); r.Done? && Stranded(r.s) && r.s.cur.value.rest == END_OF_SEQUENCE.data
  {
    SupplyLooks(s);
    ShortStartCode(Avc, END_OF_SEQUENCE.data, NO_SPILL);
    hide CutUnit, Supply;
  }

  lemma BothSubmitted() returns (r1: Trace, r2: Trace, r3: Trace)
    ensures Accounted(Avc, START) && Accounted(Avc, r1) && Accounted(Avc, r2) && Accounted(Avc, r3)
    ensures r1 == Apply(Avc, StartCode, START, Submit(DELIMITER))
    ensures r2 == Apply(Avc, StartCode, r1, Submit(END_OF_SEQUENCE))
    ensures r2.now.pic.None? && r3 == Apply(Avc, StartCode, r2, Pass)
    ensures r3.now == EMPTY.(chunks := [DELIMITER, END_OF_SEQUENCE], pic := Some(Pic([], [], true, -1)))
  {
    r1 := Apply(Avc, StartCode, START, Submit(DELIMITER));
    r2 := Apply(Avc, StartCode, r1, Submit(END_OF_SEQUENCE));
    r3 := Apply(Avc, StartCode, r2, Pass);
    assert Accounted(Avc, START);
    hide Accounted;
    ApplyKeeps(Avc, StartCode, START, Submit(DELIMITER));
    ApplyKeeps(Avc, StartCode, r1, Submit(END_OF_SEQUENCE));
    ApplyKeeps(Avc, StartCode, r2, Pass);
  }

  /** From the empty pipeline: the next pass emits the delimiter's picture and strands the end-of-sequence unit. */
  lemma EndOfSequenceStrands() returns (r: Trace)
    ensures Run(Avc, StartCode, START, [Submit(DELIMITER), Submit(END_OF_SEQUENCE), Pass, Pass], r)
    ensures r.now.pic.Some? && Step(Avc, StartCode, r.now).Done? && Stranded(Step(Avc, StartCode, r.now).s)
    ensures Step(Avc, StartCode, r.now).s.cur.value.rest == END_OF_SEQUENCE.data
  {
    var r1, r2, r3 := BothSubmitted();
    DelimiterStep(r3.now);
    assert Allowed(Avc, StartCode, r3.now, Pass);
    hide Accounted, Run;
    r := Apply(Avc, StartCode, r3, Pass);
    ApplyKeeps(Avc, StartCode, r3, Pass);
    EndOfSequenceIsNext(r.now);
    assert PassIsFine(Avc, StartCode, r3.now) && PassIsFine(Avc, StartCode, r2.now);
    RunOfFour(Avc, StartCode, START, r1, r2, r3, r, Submit(DELIMITER), Submit(END_OF_SEQUENCE), Pass, Pass);
  }

  lemma RunOfFour(codec: Codec, framing: Framing, r0: Trace, r1: Trace, r2: Trace, r3: Trace, r4: Trace,
                  e0: Event, e1: Event, e2: Event, e3: Event)
    requires Accounted(codec, r0) && Allowed(codec, framing, r0.now, e0) && r1 == Apply(codec, framing, r0, e0)
    requires Accounted(codec, r1) && Allowed(codec, framing, r1.now, e1) && r2 == Apply(codec, framing, r1, e1)
    requires Accounted(codec, r2) && Allowed(codec, framing, r2.now, e2) && r3 == Apply(codec, framing, r2, e2)
    requires Accounted(codec, r3) && Allowed(codec, framing, r3.now, e3) && r4 == Apply(codec, framing, r3, e3)
    requires Accounted(codec, r4)
    ensures Run(codec, framing, r0, [e0, e1, e2, e3], r4)
  {
    hide *;
    RunIsDone(codec, framing, r4);
    assert [e3] + [] == [e3] && [e2] + [e3] == [e2, e3] && [e1] + [e2, e3] == [e1, e2, e3];
    assert [e0] + [e1, e2, e3] == [e0, e1, e2, e3];
    RunCons(codec, framing, r3, e3, [], r4);
    RunCons(codec, framing, r2, e2, [e3], r4);
    RunCons(codec, framing, r1, e1, [e2, e3], r4);
    RunCons(codec, framing, r0, e0, [e1, e2, e3], r4);
  }

  lemma RunIsDone(codec: Codec, framing: Framing, r: Trace)
    requires Accounted(codec, r)
    ensures Run(codec, framing, r, [], r)
  {
  }
}
