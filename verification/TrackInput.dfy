/** A track while samples arrive: mp4_muxer_input_sample and chunk_update of src/mp4_muxer.c.
    Every list of the track is tied to the ghost sequence of the samples taken so far. */
module TrackInput {
  import opened RunLength
  import opened TimeScale
  import opened ChunkRule
  import opened Samples

  /** Decode times; sample numbers are the list positions. */
  function DtsList(ss: seq<Sample>): (r: seq<nat>)
    ensures |r| == |ss| && forall i | 0 <= i < |ss| :: r[i] == ss[i].dts
  {
    seq(|ss|, i requires 0 <= i < |ss| => ss[i].dts)
  }

  /** 64-bit difference of composition and decode time, relative to the low 32 bits of the first. */
  function CtsValue(s: Sample, base: nat): nat { Wrap64(s.cts - s.dts - base) }

  function CtsBase(ss: seq<Sample>): nat {
    if ss == [] then 0 else Wrap32(ss[0].cts - ss[0].dts)
  }

  /** In 32 bits a stored offset is the difference to the first one. */
  lemma CtsValueIs(ss: seq<Sample>, i: nat)
    requires i < |ss|
    ensures Wrap32(CtsValue(ss[i], CtsBase(ss))) == (ss[i].cts - ss[i].dts - (ss[0].cts - ss[0].dts)) % 0x1_0000_0000
  {
    Wrapped(ss[i].cts - ss[i].dts, ss[0].cts - ss[0].dts);
  }

  lemma Wrapped(x: int, y: int)
    ensures Wrap32(Wrap64(x - Wrap32(y))) == (x - y) % 0x1_0000_0000
  {
    var k := (x - Wrap32(y)) / TWO64;
    assert x - Wrap32(y) == k * TWO64 + Wrap64(x - Wrap32(y));
    var l := y / TWO32;
    assert y == l * TWO32 + Wrap32(y);
    assert x - y == Wrap64(x - Wrap32(y)) + (k * TWO32 - l) * TWO32;
  }

  function CtsValues(ss: seq<Sample>, base: nat): (r: seq<nat>)
    ensures |r| == |ss| && forall i | 0 <= i < |ss| :: r[i] == CtsValue(ss[i], base)
  {
    seq(|ss|, i requires 0 <= i < |ss| => CtsValue(ss[i], base))
  }

  /** The numbers of the samples that have a flag. */
  function Syncs(ss: seq<Sample>): seq<nat> {
    if ss == [] then [] else Syncs(ss[..|ss| - 1]) + if ss[|ss| - 1].sync then [|ss| - 1] else []
  }

  function DescStarts(ss: seq<Sample>): seq<nat> {
    if ss == [] then [] else DescStarts(ss[..|ss| - 1]) + if ss[|ss| - 1].newDesc then [|ss| - 1] else []
  }

  function MaxSize(ss: seq<Sample>): nat {
    if ss == [] then 0
    else if MaxSize(ss[..|ss| - 1]) < ss[|ss| - 1].Size() then ss[|ss| - 1].Size()
    else MaxSize(ss[..|ss| - 1])
  }

  /** The largest size. */
  lemma {:induction false} MaxSizeIs(ss: seq<Sample>)
    ensures forall i | 0 <= i < |ss| :: |ss[i].data| <= MaxSize(ss)
    ensures ss != [] ==> exists i :: 0 <= i < |ss| && |ss[i].data| == MaxSize(ss)
  {
    if ss != [] {
      var n := |ss| - 1;
      MaxSizeIs(ss[..n]);
      assert MaxSize(ss) == if MaxSize(ss[..n]) < |ss[n].data| then |ss[n].data| else MaxSize(ss[..n]);
      if n > 0 && MaxSize(ss) == MaxSize(ss[..n]) {
        var i :| 0 <= i < n && |ss[..n][i].data| == MaxSize(ss[..n]);
        assert |ss[i].data| == MaxSize(ss);
      } else {
        assert |ss[n].data| == MaxSize(ss);
      }
    }
  }

  class Track {
    const g: Grouping
    var sampleNum: nat
    var dtsLst: seq<nat>
    var syncLst: seq<nat>
    var ctsOffsetLst: seq<Run>
    var sizeLst: seq<Run>
    var chunkLst: seq<Chunk>
    var stsdLst: seq<nat>
    var sampleDescrIndex: nat
    var chunkDtsTop: nat
    var ctsOffsetV1Base: nat
    var mediaDuration: nat
    var mdatSize: nat
    var sampleMaxSize: nat
    /** The temporary file the sample bytes are appended to. */
    var file: seq<Byte>

    ghost var samples: seq<Sample>
    /** The start of the span-aligned window whose end is chunkDtsTop. */
    ghost var windowStart: nat
    /** The top before there is a chunk. */
    ghost const topSetUp: nat

    ghost predicate SizesMatch(ss: seq<Sample>)
      reads `sizeLst, `mdatSize, `sampleMaxSize, `file
    {
      && Expand(sizeLst) == Sizes(ss) && Canonical(sizeLst)
      && mdatSize == Sum(Sizes(ss))
      && sampleMaxSize == MaxSize(ss)
      && file == Bytes(ss)
      && (forall i | 0 <= i < |ss| :: ss[i].Size() > 0)
    }

    ghost predicate TimesMatch(ss: seq<Sample>)
      reads `dtsLst, `syncLst, `ctsOffsetLst, `ctsOffsetV1Base, `mediaDuration
    {
      && dtsLst == DtsList(ss)
      && syncLst == Syncs(ss)
      && ctsOffsetV1Base == CtsBase(ss)
      && Expand(ctsOffsetLst) == CtsValues(ss, ctsOffsetV1Base) && Canonical(ctsOffsetLst)
      && (ss != [] ==> mediaDuration == Wrap64(ss[|ss| - 1].dts + ss[|ss| - 1].duration - ss[0].dts))
    }

    /** With interleaving the top ends an aligned window, and the last chunk starts inside or after
        that window, although the top moves by one span per chunk only. */
    ghost predicate TopMatches(ss: seq<Sample>)
      requires GoodChunks(g, ss, chunkLst)
      reads `chunkLst, `chunkDtsTop, `windowStart
    {
      g.span > 0 && chunkLst != [] ==>
        chunkDtsTop == windowStart + g.span && OpenWindow(g.span, ss, chunkLst, windowStart)
    }

    /** The chunks are those the rule forms, and the top is the one the rule goes by. */
    ghost predicate RuleMatches(ss: seq<Sample>)
      reads `chunkLst, `chunkDtsTop
    {
      && ByRule(g, topSetUp, ss, chunkLst)
      && chunkDtsTop == Top(g.span, topSetUp, Firsts(ss, chunkLst))
    }

    ghost predicate Valid()
      reads this
    {
      && sampleNum == |samples| && SizesMatch(samples) && TimesMatch(samples)
      && (samples != [] ==> samples[0].newDesc)
      && GoodChunks(g, samples, chunkLst) && TopMatches(samples) && RuleMatches(samples)
      && sampleDescrIndex == NewDescs(samples)
      && stsdLst == DescStarts(samples)
    }

    /** What a chunk holds together: samples of one description, the chunk's, and with interleaving, for decode
        times in order, of one span-aligned window. */
    lemma ChunkHoldsTogether(c: nat, i: nat, j: nat)
      requires Valid() && c < |chunkLst|
      requires First(chunkLst[c]) <= i < End(chunkLst[c]) && First(chunkLst[c]) <= j < End(chunkLst[c])
      ensures i < |samples| && j < |samples|
        && NewDescs(samples[..i + 1]) == NewDescs(samples[..j + 1]) == chunkLst[c].descIndex
      ensures g.span > 0 && NonDecreasing(samples) ==> InOneWindow(g.span, samples[i].dts, samples[j].dts)
    {
      hide Rescale, SizesMatch, TimesMatch, TopMatches, RuleMatches;
      OneDescription(g.maxSize, samples, chunkLst[c], i);
      OneDescription(g.maxSize, samples, chunkLst[c], j);
      if g.span > 0 && NonDecreasing(samples) { OneWindow(g.span, samples, chunkLst, c, i, j); }
    }

    /** With interleaving, while no decode time is further than one span from the one before, chunks change exactly
        with the description, the window or the size limit. */
    lemma ChunksInTime(c: nat)
      requires Valid() && c < |chunkLst| && g.span > 0 && Steady(samples, g.span)
      ensures c + 1 < |chunkLst| ==> OpensInTime(g, samples, chunkLst[c])
      ensures StaysInTime(g, samples, chunkLst[c])
    {
      hide Rescale, SizesMatch, TimesMatch, TopMatches, AreChunks, ByRule, Steady;
      SteadyChunks(g, topSetUp, samples, chunkLst, c);
    }

    /** mp4_muxer_add_track: without interleaving the window never closes. */
    constructor (grouping: Grouping, interleave: bool)
      requires grouping.mediaScale > 0
      ensures Valid() && samples == [] && g == grouping && topSetUp == if interleave then 0 else TWO64 - 1
    {
      g := grouping;
      sampleNum, sampleDescrIndex, ctsOffsetV1Base, mediaDuration, mdatSize, sampleMaxSize := 0, 0, 0, 0, 0, 0;
      dtsLst, syncLst, ctsOffsetLst, sizeLst, chunkLst, stsdLst := [], [], [], [], [], [];
      chunkDtsTop, topSetUp := if interleave then 0 else TWO64 - 1, if interleave then 0 else TWO64 - 1;
      file, samples, windowStart := [], [], 0;
    }

    /** Chunk span control for a new chunk: the top moves up by one span when the sample has reached
        it, however far past it the sample lies. */
    method RaiseTop(s: Sample)
      requires GoodChunks(g, samples, chunkLst) && TopMatches(samples) && RuleMatches(samples)
      modifies `chunkDtsTop, `windowStart
      ensures chunkDtsTop == Top(g.span, topSetUp, Firsts(samples, chunkLst) + [s.dts])
      ensures g.span > 0 ==> chunkDtsTop == windowStart + g.span && Aligned(windowStart, g.span)
      ensures g.span > 0 && NonDecreasing(samples + [s]) ==> windowStart <= s.dts
    {
      hide Top, ByRule, GoodChunks, AreChunks, InBounds, Aligned, Firsts, WindowBegin, WindowEnd, OpenWindow,
        NonDecreasing;
      LastEnds(g, samples, chunkLst);
      TopNext(g.span, topSetUp, Firsts(samples, chunkLst), s.dts);
      LastFirst(samples, chunkLst);
      if g.span > 0 && chunkLst != [] { WindowIsOpen(samples, chunkLst, s); }
      if g.span > 0 {
        if chunkLst != [] {
          if s.dts >= chunkDtsTop {
            AlignedNext(windowStart, g.span);
            chunkDtsTop := chunkDtsTop + g.span;
            windowStart := windowStart + g.span;
          }
        } else {
          WindowHolds(s.dts, g.span);
          chunkDtsTop := (s.dts / g.span + 1) * g.span;
          windowStart := WindowBegin(s.dts, g.span);
        }
      }
    }

    /** The window of the last chunk does not start after a later sample. */
    lemma WindowIsOpen(ss: seq<Sample>, cs: seq<Chunk>, s: Sample)
      requires InBounds(ss, cs) && cs != [] && OpenWindow(g.span, ss, cs, windowStart)
      ensures Aligned(windowStart, g.span) && (NonDecreasing(ss + [s]) ==> windowStart <= s.dts)
    {
      if NonDecreasing(ss + [s]) { PrefixInOrder(ss, s); }
    }

    static lemma LastEnds(g: Grouping, ss: seq<Sample>, cs: seq<Chunk>)
      requires GoodChunks(g, ss, cs)
      ensures AreChunks(g.maxSize, ss, cs) && InBounds(ss, cs) && g.mediaScale > 0
      ensures (cs == [] ==> ss == []) && (cs != [] ==> cs[|cs| - 1].idx + cs[|cs| - 1].sampleNum == |ss| + 1)
    {
    }

    static lemma LastFirst(ss: seq<Sample>, cs: seq<Chunk>)
      requires InBounds(ss, cs)
      ensures Firsts(ss, cs) == [] <==> cs == []
      ensures cs != [] ==> 0 <= First(cs[|cs| - 1]) < |ss|
    {
    }

    /** dref and stsd control */
    method OpenDescription(s: Sample)
      requires sampleDescrIndex == NewDescs(samples) && sampleNum == |samples|
      modifies `sampleDescrIndex, `stsdLst
      ensures sampleDescrIndex == NewDescs(samples + [s])
      ensures stsdLst == old(stsdLst) + if s.newDesc then [|samples|] else []
    {
      AppendStep(samples, s);
      if s.newDesc {
        stsdLst := stsdLst + [sampleNum];
        sampleDescrIndex := sampleDescrIndex + 1;
      }
    }

    /** The part of chunk_update that opens a chunk. */
    method OpenChunk(s: Sample)
      requires GoodChunks(g, samples, chunkLst) && TopMatches(samples) && RuleMatches(samples)
      requires chunkLst != [] ==> Opens(g.maxSize, chunkDtsTop, chunkLst[|chunkLst| - 1].size, s)
      requires sampleDescrIndex == NewDescs(samples) && sampleNum == |samples|
      modifies `chunkLst, `sampleDescrIndex, `stsdLst, `chunkDtsTop, `windowStart
      ensures GoodChunks(g, samples + [s], chunkLst) && TopMatches(samples + [s]) && RuleMatches(samples + [s])
      ensures sampleDescrIndex == NewDescs(samples + [s])
      ensures stsdLst == old(stsdLst) + if s.newDesc then [|samples|] else []
    {
      hide GoodChunks, Rescale, Aligned, Top, ByRule, NewDescs, OpenWindow, Firsts, NonDecreasing;
      LastEnds(g, samples, chunkLst);
      hide AreChunks, InBounds, Opens, DescStarts;
      var idx := 1;
      if chunkLst != [] { idx := chunkLst[|chunkLst| - 1].idx + chunkLst[|chunkLst| - 1].sampleNum; }
      OpenDescription(s);
      RaiseTop(s);
      var chunk := Chunk(idx, Rescale(s.dts, g.movieScale, g.mediaScale), 0, 1, s.Size(), sampleDescrIndex);
      Opened(g, topSetUp, samples, chunkLst, s, chunk, windowStart);
      chunkLst := chunkLst + [chunk];
    }

    static lemma DescriptionsGrow(ss: seq<Sample>, s: Sample)
      ensures NewDescs(ss + [s]) == NewDescs(ss) + if s.newDesc then 1 else 0
      ensures DescStarts(ss + [s]) == DescStarts(ss) + if s.newDesc then [|ss|] else []
    {
      AppendStep(ss, s);
      assert (ss + [s])[..|ss|] == ss;
    }

    /** The part of chunk_update that joins the last chunk. */
    method JoinChunk(s: Sample)
      requires GoodChunks(g, samples, chunkLst) && TopMatches(samples) && RuleMatches(samples)
      requires chunkLst != [] && !Opens(g.maxSize, chunkDtsTop, chunkLst[|chunkLst| - 1].size, s)
      modifies `chunkLst
      ensures GoodChunks(g, samples + [s], chunkLst) && TopMatches(samples + [s]) && RuleMatches(samples + [s])
    {
      hide GoodChunks, Aligned, Rescale, Top, ByRule, Firsts, OpenWindow, NewDescs, NonDecreasing;
      LastEnds(g, samples, chunkLst);
      hide AreChunks, InBounds, DescStarts;
      JoinedRight(g, topSetUp, samples, chunkLst, s, windowStart);
      chunkLst := Joined(chunkLst, s);
    }

    /** chunk_update: joins the last chunk, or opens a new one on a new sample description, at the
        window top, or at the size limit. */
    method ChunkUpdate(s: Sample)
      requires GoodChunks(g, samples, chunkLst) && TopMatches(samples) && RuleMatches(samples)
      requires sampleDescrIndex == NewDescs(samples) && stsdLst == DescStarts(samples)
      requires sampleNum == |samples| && (samples == [] ==> s.newDesc)
      modifies `chunkLst, `sampleDescrIndex, `stsdLst, `chunkDtsTop, `windowStart
      ensures GoodChunks(g, samples + [s], chunkLst) && TopMatches(samples + [s]) && RuleMatches(samples + [s])
      ensures sampleDescrIndex == NewDescs(samples + [s]) && stsdLst == DescStarts(samples + [s])
    {
      hide GoodChunks, RuleMatches, TopMatches, NewDescs;
      LastEnds(g, samples, chunkLst);
      hide AreChunks, InBounds, DescStarts;
      DescriptionsGrow(samples, s);
      if chunkLst != [] && !s.newDesc {
        var last := chunkLst[|chunkLst| - 1];
        if s.dts < chunkDtsTop && last.size + s.Size() <= g.maxSize {
          JoinChunk(s);
          return;
        }
      }
      OpenChunk(s);
    }

    static lemma SizesGrow(ss: seq<Sample>, s: Sample)
      ensures Sizes(ss + [s]) == Sizes(ss) + [s.Size()] && Bytes(ss + [s]) == Bytes(ss) + s.data
      ensures Sum(Sizes(ss + [s])) == Sum(Sizes(ss)) + s.Size()
      ensures MaxSize(ss + [s]) == if MaxSize(ss) < s.Size() then s.Size() else MaxSize(ss)
    {
      AppendStep(ss, s);
      assert (ss + [s])[..|ss|] == ss;
    }

    method UpdateSizes(s: Sample)
      requires SizesMatch(samples) && s.Size() > 0
      modifies `sizeLst, `mdatSize, `sampleMaxSize, `file
      ensures SizesMatch(samples + [s])
    {
      hide Canonical, Expand, Sum, Sizes, Bytes, MaxSize, AppendItem;
      SizesGrow(samples, s);
      file := file + s.data;
      AppendItemExpands(sizeLst, s.Size());
      sizeLst := AppendItem(sizeLst, s.Size());
      if sampleMaxSize < s.Size() { sampleMaxSize := s.Size(); }
      mdatSize := mdatSize + s.Size();
    }

    /** What appending a sample does to the time lists. */
    lemma TimesGrow(s: Sample)
      ensures var all := samples + [s];
        && DtsList(all) == DtsList(samples) + [s.dts] && DtsList(all)[0] == all[0].dts
        && Syncs(all) == Syncs(samples) + (if s.sync then [|samples|] else [])
        && all[|samples|] == s
        && CtsBase(all) == (if samples == [] then Wrap32(s.cts - s.dts) else CtsBase(samples))
        && CtsValues(all, CtsBase(all)) == CtsValues(samples, CtsBase(all)) + [Wrap64(s.cts - s.dts - CtsBase(all))]
    {
      hide Wrap32, Wrap64;
      assert (samples + [s])[..|samples|] == samples;
    }

    /** `number` is the number of the sample. */
    method UpdateTimes(s: Sample, number: nat)
      requires TimesMatch(samples) && number == |samples|
      modifies `dtsLst, `syncLst, `ctsOffsetLst, `ctsOffsetV1Base, `mediaDuration
      ensures TimesMatch(samples + [s])
    {
      hide Canonical, Expand, Wrap32, Wrap64, Syncs, AppendItem;
      CanonicalEmpty(ctsOffsetLst);
      TimesGrow(s);
      if s.sync { syncLst := syncLst + [number]; }
      dtsLst := dtsLst + [s.dts];
      if ctsOffsetLst == [] { ctsOffsetV1Base := Wrap32(s.cts - s.dts); }
      var value := Wrap64(s.cts - s.dts - ctsOffsetV1Base);
      AppendItemExpands(ctsOffsetLst, value);
      ctsOffsetLst := AppendItem(ctsOffsetLst, value);
      mediaDuration := Wrap64(s.dts + s.duration - dtsLst[0]);
    }

    /** mp4_muxer_input_sample for a sample whose bytes go to the temporary file.  Empty samples are
        dropped; the first one taken must open a sample description. */
    method InputSample(s: Sample)
      requires Valid() && (samples == [] && s.Size() > 0 ==> s.newDesc)
      modifies this
      ensures Valid() && samples == old(samples) + if s.Size() == 0 then [] else [s]
    {
      hide GoodChunks, SizesMatch, TimesMatch, TopMatches, RuleMatches, NewDescs, DescStarts;
      if s.Size() == 0 { return; }
      UpdateSizes(s);
      UpdateTimes(s, sampleNum);
      ChunkUpdate(s);
      sampleNum := sampleNum + 1;
      assert (samples + [s])[0].newDesc;
      samples := samples + [s];
    }
  }
}
