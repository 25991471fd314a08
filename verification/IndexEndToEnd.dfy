/** From input samples to lookups: muxing any set of tracks and reading the tables back. */
module IndexEndToEnd {
  import opened RunLength
  import opened TimeScale
  import opened Samples
  import opened SampleTables
  import opened IndexLookup
  import TW = TableWriter
  import TI = TrackInput
  import MW = MdatWriter
  import opened IndexTiling
  import MergeSchedule
  import opened QueryHistory

  // ---------------------------------------------------------------- input

  /** The samples that are kept: those with data. */
  function Kept(ss: seq<Sample>): (r: seq<Sample>)
    ensures forall i | 0 <= i < |r| :: r[i].Size() > 0
  {
    if ss == [] then []
    else Kept(ss[..|ss| - 1]) + if ss[|ss| - 1].Size() > 0 then [ss[|ss| - 1]] else []
  }

  /** Kept samples are those with data, each once and in order. */
  lemma {:induction false} KeptParts(a: seq<Sample>, b: seq<Sample>)
    ensures Kept(a + b) == Kept(a) + Kept(b)
    decreases |b|
  {
    if b == [] {
      assert a + b == a;
    } else {
      KeptParts(a, b[..|b| - 1]);
      assert (a + b)[..|a + b| - 1] == a + b[..|b| - 1];
    }
  }

  lemma KeptOne(s: Sample)
    ensures Kept([s]) == if s.data != [] then [s] else []
  {
    assert [s][..0] == [];
  }

  lemma {:induction false} KeptPrefix(ss: seq<Sample>, n: nat)
    requires n <= |ss|
    ensures Kept(ss[..n]) <= Kept(ss)
    decreases |ss|
  {
    if n < |ss| {
      KeptPrefix(ss[..|ss| - 1], n);
      assert ss[..|ss| - 1][..n] == ss[..n];
    } else {
      assert ss[..n] == ss;
    }
  }

  /** Taking the next sample never changes which sample was kept first. */
  lemma KeptNext(ss: seq<Sample>, i: nat)
    requires i < |ss|
    ensures Kept(ss[..i + 1]) == Kept(ss[..i]) + if ss[i].Size() > 0 then [ss[i]] else []
    ensures Kept(ss[..i]) == [] && ss[i].Size() > 0 ==> Kept(ss) != [] && Kept(ss)[0] == ss[i]
  {
    assert ss[..i + 1][..i] == ss[..i];
    KeptPrefix(ss, i + 1);
  }

  /** All samples of one track, in input order. */
  method InputAll(g: Grouping, interleave: bool, ss: seq<Sample>) returns (track: TI.Track)
    requires g.mediaScale > 0 && (Kept(ss) != [] ==> Kept(ss)[0].newDesc)
    ensures fresh(track) && track.Valid() && track.samples == Kept(ss) && track.g == g
  {
    EmptyKept();
    hide TI.Track.Valid, Kept;
    track := new TI.Track(g, interleave);
    assert ss[..0] == [];
    var i := 0;
    while i < |ss|
      invariant 0 <= i <= |ss| && fresh(track) && track.Valid() && track.g == g
      invariant track.samples == Kept(ss[..i])
    {
      KeptNext(ss, i);
      track.InputSample(ss[i]);
      i := i + 1;
    }
    assert ss[..|ss|] == ss;
  }

  lemma EmptyKept()
    ensures Kept([]) == []
  {
  }

  // ---------------------------------------------------------------- tables

  lemma {:induction false} SyncsIncrease(ss: seq<Sample>)
    ensures forall i | 0 <= i < |TI.Syncs(ss)| :: TI.Syncs(ss)[i] < |ss|
    ensures forall i, j | 0 <= i < j < |TI.Syncs(ss)| :: TI.Syncs(ss)[i] < TI.Syncs(ss)[j]
  {
    if ss != [] { SyncsIncrease(ss[..|ss| - 1]); }
  }

  /** The limits of the 32-bit table fields and 64-bit time sums. */
  ghost predicate Limits(ss: seq<Sample>, mediaDuration: nat, dtsOffset: nat) {
    && 0 < |ss| < TWO32
    && (forall i | 0 <= i < |ss| :: 0 < ss[i].Size() < TWO32)
    && TW.StepsFit(TI.DtsList(ss))
    && ss[|ss| - 1].dts - ss[0].dts + TW.LastStep(TI.DtsList(ss), mediaDuration) + dtsOffset < TWO64
  }

  function MediaDuration(ss: seq<Sample>): nat {
    if ss == [] then 0 else Wrap64(ss[|ss| - 1].dts + ss[|ss| - 1].duration - ss[0].dts)
  }

  /** The duration that stts gives the last sample: what the media duration leaves of it. */
  function LastDuration(ss: seq<Sample>): nat
    requires ss != []
  {
    TW.LastStep(TI.DtsList(ss), MediaDuration(ss))
  }

  /** What the tables say about decode and composition times. */
  ghost predicate TimesKept(t: Tables, ss: seq<Sample>) {
    && |Expand(t.stts)| == |ss| > 0
    && (forall i | 0 <= i < |ss| :: t.Dts(i) == ss[i].dts - ss[0].dts + t.dtsOffset)
    && Expand(t.stts)[|ss| - 1] == LastDuration(ss)
    && (forall i | 0 <= i < |ss| :: t.CtsOffset(i) == Wrap32(TI.CtsValue(ss[i], TI.CtsBase(ss))))
  }

  /** Some samples, but not all, are sync samples. */
  predicate Mixed(ss: seq<Sample>) {
    0 < |TI.Syncs(ss)| < |ss|
  }

  /** The sync samples are listed when the track is mixed. */
  ghost predicate SyncsKept(stss: seq<nat>, ss: seq<Sample>) {
    && |stss| == (if Mixed(ss) then |TI.Syncs(ss)| else 0)
    && forall i | 0 <= i < |stss| :: stss[i] == TI.Syncs(ss)[i] + 1
  }

  lemma {:induction false} SyncsBounded(ss: seq<Sample>)
    ensures |TI.Syncs(ss)| <= |ss|
    ensures forall i | 0 <= i < |ss| :: ss[i].sync <==> i in TI.Syncs(ss)
  {
    if ss != [] { SyncsBounded(ss[..|ss| - 1]); SyncsIncrease(ss[..|ss| - 1]); }
  }

  lemma SttsKept(stts: seq<Run>, ss: seq<Sample>, mediaDuration: nat, dtsOffset: nat, i: nat)
    requires Limits(ss, mediaDuration, dtsOffset) && i < |ss|
    requires Expand(stts) == TW.Steps(TI.DtsList(ss)) + [TW.LastStep(TI.DtsList(ss), mediaDuration)]
    ensures |Expand(stts)| == Total(stts) == |ss| && Weight(stts) + dtsOffset < TWO64
    ensures Sum(Expand(stts)[..i]) + ss[0].dts == ss[i].dts
    ensures Expand(stts)[|ss| - 1] == TW.LastStep(TI.DtsList(ss), mediaDuration)
  {
    hide Expand, Sum, Total, Weight, TW.Steps, TW.LastStep;
    var dts := TI.DtsList(ss);
    var last := TW.LastStep(dts, mediaDuration);
    ExpandLength(stts);
    ExpandSum(stts);
    TW.StepsSum(dts, [last], i);
    TW.StepsSum(dts, [last], |ss| - 1);
    SumTakeNext(Expand(stts), |ss| - 1);
    assert Expand(stts)[..|ss|] == Expand(stts);
  }

  /** The time tables: stts, ctts and stss. */
  method TimeTables(track: TI.Track, ghost dtsOffset: nat) returns (stts: seq<Run>, ctts: seq<Run>, stss: seq<nat>)
    requires track.Valid() && Limits(track.samples, track.mediaDuration, dtsOffset)
    ensures |Expand(stts)| == Total(stts) == |track.samples| && Weight(stts) + dtsOffset < TWO64
    ensures forall i | 0 <= i < |track.samples| ::
      Sum(Expand(stts)[..i]) + track.samples[0].dts == track.samples[i].dts
    ensures Expand(stts)[|track.samples| - 1] == LastDuration(track.samples)
    ensures Total(ctts) <= |track.samples|
    ensures forall i | 0 <= i < |track.samples| ::
      (if i < |Expand(ctts)| then Expand(ctts)[i] else 0)
        == Wrap32(TI.CtsValue(track.samples[i], TI.CtsBase(track.samples)))
    ensures forall i | 0 <= i < |stss| :: 0 < stss[i] < TWO32
    ensures forall i, j | 0 <= i < j < |stss| :: stss[i] < stss[j]
    ensures SyncsKept(stss, track.samples)
  {
    hide Expand, Total, Weight, Sum, Canonical, TW.Steps, TW.LastStep, GoodChunks, TI.Syncs, Wrap32, Wrap64;
    ghost var ss := track.samples;
    DurationIs(track);
    stts := TW.WriteStts(track.dtsLst, track.mediaDuration);
    forall i | 0 <= i < |ss|
      ensures |Expand(stts)| == Total(stts) == |ss| && Weight(stts) + dtsOffset < TWO64
      ensures Sum(Expand(stts)[..i]) + ss[0].dts == ss[i].dts
      ensures Expand(stts)[|ss| - 1] == LastDuration(ss)
    {
      SttsKept(stts, ss, track.mediaDuration, dtsOffset, i);
    }
    ctts := TW.WriteCtts(track.ctsOffsetLst);
    ExpandLength(track.ctsOffsetLst);
    EmptyTable();
    forall i | 0 <= i < |ss|
      ensures (if i < |Expand(ctts)| then Expand(ctts)[i] else 0) == Wrap32(TI.CtsValue(ss[i], TI.CtsBase(ss)))
    {
      TW.CttsRoundTrip(track.ctsOffsetLst, ctts, i);
    }
    stss := TW.WriteStss(track.syncLst, track.sampleNum);
    SyncsIncrease(ss);
    SyncsBounded(ss);
  }

  /** The place tables: stsc, stsz and stco. */
  method PlaceTables(track: TI.Track, out: MW.TrackOutput, co64: bool)
      returns (stsc: seq<StscEntry>, fixedSize: nat, sizes: seq<nat>, stco: seq<nat>)
    requires track.Valid() && track.samples != []
    requires forall i | 0 <= i < |track.samples| :: track.samples[i].Size() < TWO32
    requires out.samples == track.samples && AreChunks(out.maxSize, out.samples, out.chunkLst)
    ensures TW.DescribesChunks(stsc, out.chunkLst, |out.chunkLst|) && out.chunkLst != []
    ensures fixedSize == 0 ==> |sizes| == |track.samples|
    ensures forall i | 0 <= i < |track.samples| ::
      (if fixedSize != 0 then fixedSize else if i < |sizes| then sizes[i] else 0) == track.samples[i].Size()
    ensures |stco| == |out.chunkLst|
    ensures forall c | 0 <= c < |stco| :: stco[c] == TW.StoredOffset(co64, out.chunkLst[c].offset)
  {
    hide Expand, Total, Weight, Sum, TW.DescribesChunks, GoodChunks, TI.Syncs, Wrap32, Wrap64, TI.Track.TimesMatch,
      TW.StoredOffset;
    CanonicalEmpty(track.sizeLst);
    fixedSize, sizes := TW.WriteStsz(track.sizeLst);
    forall i | 0 <= i < |track.samples|
      ensures (if fixedSize != 0 then fixedSize else if i < |sizes| then sizes[i] else 0) == track.samples[i].Size()
    {
      TW.StszRoundTrip(track.sizeLst, fixedSize, sizes, i);
    }
    stsc := TW.WriteStsc(out.chunkLst);
    stco := TW.WriteStco(out.chunkLst, co64);
  }

  /** write_stbl_box without the description boxes, after the chunk offsets are final. */
  method BuildTables(track: TI.Track, out: MW.TrackOutput, co64: bool, dtsOffset: nat) returns (t: Tables)
    requires track.Valid() && Limits(track.samples, track.mediaDuration, dtsOffset)
    requires out.samples == track.samples && AreChunks(out.maxSize, out.samples, out.chunkLst)
    ensures WellFormed(t) && Describes(t, out.maxSize, out.samples, out.chunkLst)
    ensures t.dtsOffset == dtsOffset && TimesKept(t, track.samples) && SyncsKept(t.stss, track.samples)
    ensures |t.stco| == |out.chunkLst| && forall c | 0 <= c < |t.stco| ::
      t.stco[c] == TW.StoredOffset(co64, out.chunkLst[c].offset)
  {
    hide Expand, Total, Weight, Sum, AreChunks, TW.DescribesChunks, TW.StepsFit, TI.Track.Valid, SyncsKept;
    var stts, ctts, stss := TimeTables(track, dtsOffset);
    var stsc, fixedSize, sizes, stco := PlaceTables(track, out, co64);
    t := Tables(track.sampleNum, dtsOffset, stts, ctts, stsc, fixedSize, sizes, stco, stss);
    SampleCount(track);
    assert Describes(t, out.maxSize, out.samples, out.chunkLst);
    DescribedIsConsistent(t, out.maxSize, track.samples, out.chunkLst);
  }

  lemma SampleCount(track: TI.Track)
    requires track.Valid()
    ensures track.sampleNum == |track.samples|
  {
  }

  lemma EmptyTable()
    ensures Total([]) == 0
  {
  }

  // ---------------------------------------------------------------- the whole run

  /** Everything the muxer is given for one track. */
  datatype TrackIn = TrackIn(g: Grouping, interleave: bool, samples: seq<Sample>, dtsOffset: nat)

  /** The first kept sample opens a description, and counts, sizes and times fit their fields. */
  ghost predicate InputOk(input: TrackIn) {
    var ss := Kept(input.samples);
    && input.g.mediaScale > 0
    && ss != [] && ss[0].newDesc
    && Limits(ss, MediaDuration(ss), input.dtsOffset)
    && forall i | 0 <= i < |ss| :: Nearest(ss[i].dts, input.g.movieScale, input.g.mediaScale) < TWO64 - 1
  }

  /** Every lookup in the tables answers with what was put in. */
  ghost predicate TrackFound(ss: seq<Sample>, t: Tables, bytes: seq<Byte>) {
    && WellFormed(t) && t.sampleNum == |ss| && TimesKept(t, ss) && SyncsKept(t.stss, ss)
    && forall i | 0 <= i < |ss| :: SampleFound(ss, t, bytes, i)
  }

  ghost predicate SampleFound(ss: seq<Sample>, t: Tables, bytes: seq<Byte>, i: nat)
    requires WellFormed(t) && t.sampleNum == |ss| && i < |ss|
  {
    && t.Offset(i) + t.Size(i) <= |bytes|
    && bytes[t.Offset(i)..t.Offset(i) + t.Size(i)] == ss[i].data
    && forall e: nat | e < |t.stsc| && t.Covers(e, t.ChunkOf(i)) :: t.stsc[e].descIndex == NewDescs(ss[..i + 1])
  }

  /** The tables describe the written chunks of the track. */
  ghost predicate TablesOf(t: Tables, out: MW.TrackOutput, bytes: seq<Byte>, co64: bool)
    reads out
  {
    && WellFormed(t) && Describes(t, out.maxSize, out.samples, out.chunkLst)
    && out.Placed(bytes) && out.chunkToOut == |out.chunkLst| == |t.stco|
    && forall c | 0 <= c < |t.stco| :: t.stco[c] == TW.StoredOffset(co64, out.chunkLst[c].offset)
  }

  lemma SampleIsFound(t: Tables, out: MW.TrackOutput, bytes: seq<Byte>, co64: bool, i: nat)
    requires TablesOf(t, out, bytes, co64) && (co64 || |bytes| < TWO32) && i < |out.samples|
    ensures SampleFound(out.samples, t, bytes, i)
  {
    hide AreChunks, TW.DescribesChunks, Bytes, Sum;
    LookupOffset(t, out.maxSize, out.samples, out.chunkLst, i);
    var c := t.ChunkOf(i);
    assert out.ChunkAt(bytes, out.chunkLst[c]);
    LookupFindsBytes(t, out, bytes, i);
    forall e: nat | e < |t.stsc| && t.Covers(e, c) ensures t.stsc[e].descIndex == NewDescs(out.samples[..i + 1]) {
      LookupFindsDescription(t, out.maxSize, out.samples, out.chunkLst, i, e);
    }
  }

  lemma TrackIsFound(t: Tables, out: MW.TrackOutput, bytes: seq<Byte>, co64: bool)
    requires TablesOf(t, out, bytes, co64) && (co64 || |bytes| < TWO32)
    requires TimesKept(t, out.samples) && SyncsKept(t.stss, out.samples)
    ensures TrackFound(out.samples, t, bytes)
  {
    hide SampleFound, TimesKept, SyncsKept;
    forall i | 0 <= i < |out.samples| ensures SampleFound(out.samples, t, bytes, i) {
      SampleIsFound(t, out, bytes, co64, i);
    }
  }

  /** A track holds the kept samples of its input, and nothing of it is written yet. */
  ghost predicate Ready(track: TI.Track, out: MW.TrackOutput, input: TrackIn)
    reads track, out
  {
    && track.Valid() && track.samples == Kept(input.samples)
    && out.samples == track.samples && out.Valid() && out.chunkToOut == 0
    && (forall c | 0 <= c < |out.chunkLst| :: out.chunkLst[c].dts < TWO64 - 1)
    && forall c, d | 0 <= c < d < |out.chunkLst| :: out.chunkLst[c].dts <= out.chunkLst[d].dts
  }

  /** Input of one track, followed by the resets of setup_muxer. */
  method Take(input: TrackIn) returns (track: TI.Track, out: MW.TrackOutput)
    requires InputOk(input)
    ensures fresh(track) && fresh(out) && Ready(track, out, input)
  {
    hide TI.Track.Valid, MW.TrackOutput.Valid, Limits, Rescale;
    track := InputAll(input.g, input.interleave, input.samples);
    out := new MW.TrackOutput(track);
    ChunkTimesFit(track, input);
  }

  method TakeAll(ins: seq<TrackIn>) returns (tracks: seq<TI.Track>, outs: seq<MW.TrackOutput>)
    requires forall t | 0 <= t < |ins| :: InputOk(ins[t])
    ensures |tracks| == |outs| == |ins| && MW.Distinct(outs)
    ensures forall t | 0 <= t < |ins| :: fresh(tracks[t]) && fresh(outs[t]) && Ready(tracks[t], outs[t], ins[t])
  {
    hide InputOk, Ready;
    tracks, outs := [], [];
    var t := 0;
    while t < |ins|
      invariant 0 <= t <= |ins| && |tracks| == |outs| == t && MW.Distinct(outs)
      invariant forall u | 0 <= u < t :: fresh(tracks[u]) && fresh(outs[u]) && Ready(tracks[u], outs[u], ins[u])
    {
      var track, out := Take(ins[t]);
      tracks, outs := tracks + [track], outs + [out];
      t := t + 1;
    }
  }

  /** Converted to the movie's time scale, the chunk times still fit 64 bits and are in order. */
  lemma ChunkTimesFit(track: TI.Track, input: TrackIn)
    requires track.Valid() && track.samples == Kept(input.samples) && track.g == input.g && InputOk(input)
    ensures forall c | 0 <= c < |track.chunkLst| :: track.chunkLst[c].dts < TWO64 - 1
    ensures forall c, d | 0 <= c < d < |track.chunkLst| :: track.chunkLst[c].dts <= track.chunkLst[d].dts
  {
    hide Rescale, Nearest, Limits, IsChunk, TI.Track.SizesMatch, TI.Track.TimesMatch, TI.Track.TopMatches, ChunkWindows;
    var g, ss, cs := track.g, track.samples, track.chunkLst;
    forall c, d | 0 <= c <= d < |cs| ensures cs[c].dts <= cs[d].dts < TWO64 - 1 {
      FirstsIncrease(g.maxSize, ss, cs, c, d);
      InOrder(ss, MediaDuration(ss), input.dtsOffset, First(cs[c]), First(cs[d]));
      RescaleMonotone(ss[First(cs[c])].dts, ss[First(cs[d])].dts, g.movieScale, g.mediaScale);
    }
  }

  lemma FirstsIncrease(maxSize: nat, ss: seq<Sample>, cs: seq<Chunk>, c: nat, d: nat)
    requires AreChunks(maxSize, ss, cs) && c <= d < |cs|
    ensures 0 <= First(cs[c]) <= First(cs[d]) < |ss|
  {
    hide Sum;
    ChunkStarts(maxSize, ss, cs, c);
    ChunkStarts(maxSize, ss, cs, d);
    SumMonotone(SampleNums(cs), c, d);
    ChunkInBounds(maxSize, ss, cs[d]);
  }

  lemma {:induction false} InOrder(ss: seq<Sample>, mediaDuration: nat, dtsOffset: nat, i: nat, j: nat)
    requires Limits(ss, mediaDuration, dtsOffset) && i <= j < |ss|
    ensures ss[i].dts <= ss[j].dts
    decreases j
  {
    if i < j {
      InOrder(ss, mediaDuration, dtsOffset, i, j - 1);
      assert TI.DtsList(ss)[j - 1] <= TI.DtsList(ss)[j];
    }
  }

  lemma AfterMdat(outs: seq<MW.TrackOutput>, plan: MW.Plan, bytes: seq<Byte>, start: nat)
    requires MW.Written(outs, plan, bytes, start) && plan.progress == MergeSchedule.Lengths(plan.times)
    ensures forall t | 0 <= t < |outs| ::
      outs[t].Valid() && outs[t].Placed(bytes) && outs[t].chunkToOut == |outs[t].chunkLst|
  {
    hide MW.TrackOutput.Valid, MW.TrackOutput.Placed, MW.Tile;
  }

  /** A track whose chunks are all in the file. */
  ghost predicate Finished(track: TI.Track, out: MW.TrackOutput, input: TrackIn, bytes: seq<Byte>)
    reads track, out
  {
    && track.Valid() && track.samples == Kept(input.samples) && InputOk(input)
    && out.samples == track.samples && out.Valid() && out.Placed(bytes) && out.chunkToOut == |out.chunkLst|
  }

  lemma DurationIs(track: TI.Track)
    requires track.Valid() && track.samples != []
    ensures track.mediaDuration == MediaDuration(track.samples)
  {
    hide Wrap64;
  }

  /** The tables of one track. */
  method WriteTrack(track: TI.Track, out: MW.TrackOutput, input: TrackIn, co64: bool, ghost bytes: seq<Byte>)
    returns (t: Tables)
    requires Finished(track, out, input, bytes)
    ensures co64 || |bytes| < TWO32 ==> TrackFound(Kept(input.samples), t, bytes) && Indexed(out, t)
  {
    hide Indexed, Limits, AreChunks, MW.TrackOutput.ReadAt, MW.TrackOutput.SourceOk, MW.TrackOutput.Placed,
      TI.Track.Valid, TrackFound, WellFormed, TimesKept, SyncsKept, Describes, Kept;
    DurationIs(track);
    t := BuildTables(track, out, co64, input.dtsOffset);
    if co64 || |bytes| < TWO32 {
      TrackIsFound(t, out, bytes, co64);
      TrackIsIndexed(t, out, bytes, co64);
    }
  }

  lemma TrackIsIndexed(t: Tables, out: MW.TrackOutput, bytes: seq<Byte>, co64: bool)
    requires TablesOf(t, out, bytes, co64) && (co64 || |bytes| < TWO32)
    ensures Indexed(out, t)
  {
    hide Describes, WellFormed, AreChunks;
    forall c | 0 <= c < |out.chunkLst| ensures t.stco[c] == out.chunkLst[c].offset {
      NotWrapped(t, out, bytes, co64, c);
    }
  }

  lemma NotWrapped(t: Tables, out: MW.TrackOutput, bytes: seq<Byte>, co64: bool, c: nat)
    requires TablesOf(t, out, bytes, co64) && (co64 || |bytes| < TWO32) && c < |out.chunkLst|
    ensures t.stco[c] == out.chunkLst[c].offset
  {
    hide Describes, WellFormed;
    assert out.ChunkAt(bytes, out.chunkLst[c]);
  }

  method WriteTables(ins: seq<TrackIn>, tracks: seq<TI.Track>, outs: seq<MW.TrackOutput>, co64: bool,
    ghost bytes: seq<Byte>)
      returns (tables: seq<Tables>)
    requires |tracks| == |outs| == |ins| && forall t | 0 <= t < |ins| :: Finished(tracks[t], outs[t], ins[t], bytes)
    ensures |tables| == |ins|
    ensures co64 || |bytes| < TWO32 ==>
      forall t | 0 <= t < |ins| :: TrackFound(Kept(ins[t].samples), tables[t], bytes) && Indexed(outs[t], tables[t])
  {
    hide TrackFound, Finished, Indexed;
    tables := [];
    var t := 0;
    while t < |ins|
      invariant 0 <= t <= |ins| && |tables| == t
      invariant co64 || |bytes| < TWO32 ==>
        forall u | 0 <= u < t :: TrackFound(Kept(ins[u].samples), tables[u], bytes) && Indexed(outs[u], tables[u])
    {
      var table := WriteTrack(tracks[t], outs[t], ins[t], co64, bytes);
      tables := tables + [table];
      t := t + 1;
    }
  }

  /** Writing the media data finishes every track; the chunks come in the order of the stable merge. */
  method WriteAll(ins: seq<TrackIn>, tracks: seq<TI.Track>, outs: seq<MW.TrackOutput>, snk: MW.Sink)
      returns (ok: bool, ghost plan: MW.Plan, ghost start: nat)
    requires forall t | 0 <= t < |ins| :: InputOk(ins[t])
    requires |tracks| == |outs| == |ins| && MW.Distinct(outs)
    requires forall t | 0 <= t < |ins| :: Ready(tracks[t], outs[t], ins[t])
    modifies outs, snk
    ensures ok && old(snk.bytes) <= snk.bytes && |old(snk.bytes)| < start <= |snk.bytes|
    ensures forall t | 0 <= t < |ins| :: Finished(tracks[t], outs[t], ins[t], snk.bytes)
    ensures MW.IsMdatBox(snk.bytes[|old(snk.bytes)|..], |snk.bytes| - start)
    ensures snk.bytes[|old(snk.bytes)|..start] == MW.MdatHeader(|snk.bytes| - start)
    ensures Complete(outs, plan, snk.bytes, start) && MergeSchedule.Sorted(plan.times, plan.order)
  {
    hide InputOk, Kept, MW.IsMdatBox, MW.Written, MW.Scheduled, TI.Track.Valid, MW.TrackOutput.Valid,
      MW.TrackOutput.Placed, MW.MdatHeader, Sum, MergeSchedule.Sorted, MergeSchedule.TracksInOrder;
    assert forall t | 0 <= t < |ins| :: Ready(tracks[t], outs[t], ins[t]);
    TracksAreInOrder(ins, tracks, outs);
    ok, plan := MW.WriteMdatBox(outs, snk);
    start := |old(snk.bytes)| + |MW.MdatHeader(Sum(MW.MdatSizes(outs)))|;
    HeaderNotEmpty(Sum(MW.MdatSizes(outs)));
    assert forall t | 0 <= t < |ins| :: tracks[t].Valid() && tracks[t].samples == Kept(ins[t].samples);
    AfterMdat(outs, plan, snk.bytes, start);
  }

  lemma HeaderNotEmpty(mdatSize: nat)
    ensures |MW.MdatHeader(mdatSize)| > 0
  {
  }

  /** Header and payload together are one box. */
  lemma PayloadInBox(bytes: seq<Byte>, from: nat, start: nat)
    requires from <= start <= |bytes| < TWO64 && bytes[from..start] == MW.MdatHeader(|bytes| - start)
    ensures MW.IsBox(bytes[from..])
  {
    hide MW.IsBox, MW.MdatHeader;
    var mdatSize: nat := |bytes| - start;
    MW.HeaderLength(mdatSize);
    assert bytes[from..] == MW.MdatHeader(mdatSize) + bytes[start..];
    MW.MdatHeaderAnnounces(mdatSize, bytes[start..]);
  }

  lemma TracksAreInOrder(ins: seq<TrackIn>, tracks: seq<TI.Track>, outs: seq<MW.TrackOutput>)
    requires |tracks| == |outs| == |ins| && forall t | 0 <= t < |ins| :: Ready(tracks[t], outs[t], ins[t])
    ensures MergeSchedule.TracksInOrder(MW.AllTimes(outs))
  {
    hide TI.Track.Valid, MW.TrackOutput.Valid;
    assert forall t | 0 <= t < |ins| :: Ready(tracks[t], outs[t], ins[t]);
  }

  /** Main result.  For every set of tracks and every run of input samples, after the media data and
      the tables are written, looking up any sample yields its decode time, composition offset,
      size and description, and the range of the file that holds its data; what was appended is one mdat box by
      type and announced size; and the ranges of all samples of all tracks cut its payload into pieces. */
  method Mux(ins: seq<TrackIn>, co64: bool, snk: MW.Sink) returns (ok: bool, tables: seq<Tables>, ghost start: nat)
    requires forall t | 0 <= t < |ins| :: InputOk(ins[t])
    modifies snk
    ensures ok && |tables| == |ins| && old(snk.bytes) <= snk.bytes
    ensures co64 || |snk.bytes| < TWO32 ==>
      forall t | 0 <= t < |ins| :: TrackFound(Kept(ins[t].samples), tables[t], snk.bytes)
    ensures |old(snk.bytes)| < start <= |snk.bytes| && MW.IsMdatBox(snk.bytes[|old(snk.bytes)|..], |snk.bytes| - start)
    ensures co64 || |snk.bytes| < TWO32 ==> SamplesTile(tables, start, |snk.bytes|)
    ensures |snk.bytes| < TWO64 ==> MW.IsBox(snk.bytes[|old(snk.bytes)|..])
  {
    hide MW.IsBox, MW.IsMdatBox, MW.MdatHeader, TrackFound, InputOk, Ready, Finished, Complete, Indexed, SamplesTile;
    var tracks, outs := TakeAll(ins);
    ghost var plan;
    ok, plan, start := WriteAll(ins, tracks, outs, snk);
    tables := WriteTables(ins, tracks, outs, co64, snk.bytes);
    if |snk.bytes| < TWO64 { PayloadInBox(snk.bytes, |old(snk.bytes)|, start); }
    if co64 || |snk.bytes| < TWO32 {
      SamplesTilePayload(outs, tables, plan, snk.bytes, start);
    }
  }

  // ---------------------------------------------------------------- reading back

  /** Queries past the end are for the last sample. */
  function Inside(ss: seq<Sample>, i: nat): nat
    requires ss != []
  {
    if i < |ss| then i else |ss| - 1
  }

  /** The decode time the tables give sample i. */
  function DtsIn(ss: seq<Sample>, t: Tables, i: nat): int
    requires i < |ss|
  {
    ss[i].dts - ss[0].dts + t.dtsOffset
  }

  /** The composition offset of sample i, relative to the first one, in 32 bits. */
  function OffsetIn(ss: seq<Sample>, i: nat): nat
    requires i < |ss|
  {
    (ss[i].cts - ss[i].dts - (ss[0].cts - ss[0].dts)) % 0x1_0000_0000
  }

  /** r is the last sample whose decode time is not after the given time; times up to the offset of the track
      belong to its first sample. */
  ghost predicate IsSampleAt(ss: seq<Sample>, t: Tables, time: nat, r: nat)
    requires ss != []
  {
    if time <= t.dtsOffset then r == 0
    else r < |ss| && DtsIn(ss, t, r) <= time && forall j: nat | r < j < |ss| :: time < DtsIn(ss, t, j)
  }

  /** r is the last sync sample not after sample i, or -1 as a 32-bit value when there is none; a track of sync
      samples only, or of none, lists no sync samples, and every sample counts as one. */
  ghost predicate IsPrevSync(ss: seq<Sample>, i: nat, r: nat)
    requires i < |ss|
  {
    if forall j, k | 0 <= j < |ss| && 0 <= k < |ss| :: ss[j].sync == ss[k].sync then r == i
    else if exists j | 0 <= j <= i :: ss[j].sync then r <= i && ss[r].sync && forall j | r < j <= i :: !ss[j].sync
    else r == 0xFFFF_FFFF
  }

  /** The reply is what went into the muxer. */
  ghost predicate FromInput(ss: seq<Sample>, t: Tables, bytes: seq<Byte>, q: Query, r: Reply)
    requires ss != []
  {
    match q
    case TimingOf(n) =>
      var i := Inside(ss, n);
      r.Timing? && r.dts == DtsIn(ss, t, i) && r.ctsOffset == OffsetIn(ss, i)
    case CtsOffsetOf(n) => r == Number(OffsetIn(ss, Inside(ss, n)))
    case DurationOf(n) =>
      r.Number? && if n + 1 < |ss| then ss[n].dts + r.n == ss[n + 1].dts else r.n == LastDuration(ss)
    case SizeOf(n) => r == Number(ss[Inside(ss, n)].Size())
    case OffsetOf(n) =>
      var s := ss[Inside(ss, n)];
      && r.Place? && r.offset + s.Size() <= |bytes| && bytes[r.offset..r.offset + s.Size()] == s.data
      && r.descIndex == NewDescs(ss[..Inside(ss, n) + 1])
    case PrevSyncOf(n) => r.Number? && IsPrevSync(ss, Inside(ss, n), r.n)
    case IdxAt(time) => r.Number? && IsSampleAt(ss, t, time, r.n)
  }

  /** Main result for reading: any sequence of lookups of all kinds, forward, backward or mixed, on one stream
      with its shared search positions, is answered with what went in; only the previous sync sample is 0,
      wrongly, as long as its search position stands at a start that is not a sync sample. */
  method Replay(t: Tables, queries: seq<Query>, ghost ss: seq<Sample>, ghost bytes: seq<Byte>)
    returns (replies: seq<Reply>)
    requires ss != [] && TrackFound(ss, t, bytes)
    ensures |replies| == |queries|
    ensures forall k | 0 <= k < |queries| && !Misled(t, queries[..k], queries[k]) ::
      FromInput(ss, t, bytes, queries[k], replies[k])
    ensures forall k | 0 <= k < |queries| && Misled(t, queries[..k], queries[k]) ::
      replies[k] == Number(0) && !ss[0].sync
  {
    hide SampleFound, TimesKept, SyncsKept, FromInput, Stateless, Misled;
    replies := AskAll(t, queries);
    forall k | 0 <= k < |queries| && !Misled(t, queries[..k], queries[k])
      ensures FromInput(ss, t, bytes, queries[k], replies[k])
    {
      StatelessIsInput(t, ss, bytes, queries[k], replies[k]);
    }
    forall k | 0 <= k < |queries| && Misled(t, queries[..k], queries[k]) ensures !ss[0].sync {
      FirstIsNoSync(t, queries[..k], queries[k], ss);
    }
  }

  lemma FirstIsNoSync(t: Tables, history: seq<Query>, q: Query, ss: seq<Sample>)
    requires ss != [] && SyncsKept(t.stss, ss) && Misled(t, history, q)
    ensures !ss[0].sync
  {
    SyncsIncrease(ss);
    SyncsBounded(ss);
    assert t.stss[0] == TI.Syncs(ss)[0] + 1;
  }

  lemma StatelessIsInput(t: Tables, ss: seq<Sample>, bytes: seq<Byte>, q: Query, r: Reply)
    requires ss != [] && TrackFound(ss, t, bytes) && Stateless(t, q, r)
    ensures FromInput(ss, t, bytes, q, r)
  {
    hide Expand, Sum, Locate, Wrap32, Wrap64, Tables.Offset, Tables.SampleAt, Tables.Consistent, Tables.PrevSync,
      SyncsKept, Mixed, IsPrevSync, IsSampleAt, Tables.Dts, Tables.Duration, SampleFound;
    ClampIsInside(t, ss, q);
    OffsetsAre(ss);
    match q
    case SizeOf(n) => SizeIsFound(t, ss, bytes, Inside(ss, n));
    case DurationOf(n) => if n + 1 < |ss| { DurationIsStep(t, ss, n); } else { DurationIsLast(t, ss); }
    case OffsetOf(n) => PlaceIsFound(t, ss, bytes, Inside(ss, n), r);
    case PrevSyncOf(n) => PrevSyncIsKept(t, ss, Inside(ss, n));
    case IdxAt(time) => SampleAtIsKept(t, ss, time);
    case _ =>
  }

  lemma OffsetsAre(ss: seq<Sample>)
    ensures forall i | 0 <= i < |ss| :: Wrap32(TI.CtsValue(ss[i], TI.CtsBase(ss))) == OffsetIn(ss, i)
  {
    forall i | 0 <= i < |ss| ensures Wrap32(TI.CtsValue(ss[i], TI.CtsBase(ss))) == OffsetIn(ss, i) {
      TI.CtsValueIs(ss, i);
    }
  }

  /** A track is mixed when its samples differ in being sync samples. */
  lemma {:induction false} MixedIs(ss: seq<Sample>)
    ensures |TI.Syncs(ss)| <= |ss|
    ensures |TI.Syncs(ss)| == |ss| <==> forall i | 0 <= i < |ss| :: ss[i].sync
    ensures |TI.Syncs(ss)| == 0 <==> forall i | 0 <= i < |ss| :: !ss[i].sync
  {
    if ss != [] { MixedIs(ss[..|ss| - 1]); }
  }

  lemma ClampIsInside(t: Tables, ss: seq<Sample>, q: Query)
    requires ss != [] && t.sampleNum == |ss| < TWO32
    ensures !q.IdxAt? ==> t.Clamp(q.sample) == Inside(ss, q.sample)
  {
  }

  lemma SizeIsFound(t: Tables, ss: seq<Sample>, bytes: seq<Byte>, i: nat)
    requires TrackFound(ss, t, bytes) && i < |ss|
    ensures t.Size(i) == ss[i].Size()
  {
    hide TimesKept, SyncsKept, Tables.Offset;
    assert SampleFound(ss, t, bytes, i);
    assert |bytes[t.Offset(i)..t.Offset(i) + t.Size(i)]| == |ss[i].data|;
  }

  lemma PlaceIsFound(t: Tables, ss: seq<Sample>, bytes: seq<Byte>, i: nat, r: Reply)
    requires TrackFound(ss, t, bytes) && i < |ss| && r.Place? && r.offset == t.Offset(i)
    requires exists e | 0 <= e < |t.stsc| :: t.Covers(e, t.ChunkOf(i)) && r.descIndex == t.stsc[e].descIndex
    ensures r.offset + ss[i].Size() <= |bytes| && bytes[r.offset..r.offset + ss[i].Size()] == ss[i].data
    ensures r.descIndex == NewDescs(ss[..i + 1])
  {
    hide TimesKept, SyncsKept, Tables.Offset, Tables.ChunkOf;
    assert SampleFound(ss, t, bytes, i);
    var e: nat :| e < |t.stsc| && t.Covers(e, t.ChunkOf(i)) && r.descIndex == t.stsc[e].descIndex;
  }

  lemma DurationIsStep(t: Tables, ss: seq<Sample>, i: nat)
    requires TimesKept(t, ss) && i + 1 < |ss|
    ensures ss[i].dts + t.Duration(i) == ss[i + 1].dts
  {
    hide Expand, Sum, Wrap32, TI.CtsValue;
    SumTakeNext(Expand(t.stts), i);
    assert t.Dts(i + 1) == t.Dts(i) + t.Duration(i);
  }

  lemma DurationIsLast(t: Tables, ss: seq<Sample>)
    requires TimesKept(t, ss)
    ensures t.Duration(|ss| - 1) == LastDuration(ss)
  {
    hide Expand, Sum, Wrap32, TI.CtsValue, LastDuration;
  }

  /** The last sample gets its own duration exactly when it has none and is the only one, or decode times start
      at 0, or the duration is below the first decode time and equals the step before. */
  lemma LastDurationExactly(ss: seq<Sample>)
    requires ss != [] && TW.StepsFit(TI.DtsList(ss)) && ss[0].dts <= ss[|ss| - 1].dts
    requires ss[|ss| - 1].duration < TWO32 && ss[|ss| - 1].dts + ss[|ss| - 1].duration < TWO64
    ensures var last := ss[|ss| - 1];
      LastDuration(ss) == last.duration <==>
        if |ss| == 1 then last.duration == 0
        else ss[0].dts == 0 || (last.duration < ss[0].dts && last.dts - ss[|ss| - 2].dts == last.duration)
  {
    hide TW.Delta32;
  }

  /** Two samples at 5 and 7, of duration 10 each: the last one gets 5. */
  lemma LastDurationShort(a: Sample, b: Sample)
    requires a.dts == 5 && b.dts == 7 && b.duration == 10
    ensures LastDuration([a, b]) == 5
  {
  }

  lemma SampleAtIsKept(t: Tables, ss: seq<Sample>, time: nat)
    requires TimesKept(t, ss) && t.sampleNum == |ss| < TWO32
    ensures IsSampleAt(ss, t, time, t.SampleAt(time))
  {
    hide Expand, Sum, Locate, TI.CtsValue;
    var s := Expand(t.stts);
    if t.dtsOffset < time < t.dtsOffset + Sum(s) {
      SampleAtIsGreatest(t, time);
    } else if time > t.dtsOffset {
      SumTakeNext(s, |s| - 1);
      assert s[..|s|] == s;
      assert t.Dts(|s| - 1) <= time;
    }
  }

  lemma PrevSyncIsKept(t: Tables, ss: seq<Sample>, i: nat)
    requires SyncsKept(t.stss, ss) && i < |ss| < TWO32
    ensures IsPrevSync(ss, i, if t.stss == [] then i else t.PrevSync(i, |t.stss|))
  {
    SyncsIncrease(ss);
    SyncsBounded(ss);
    MixedIs(ss);
    if t.stss != [] { LastListed(t, TI.Syncs(ss), i, |t.stss|); }
  }

  /** The last of the first n listed sync samples that is not after sample i. */
  lemma {:induction false} LastListed(t: Tables, syncs: seq<nat>, i: nat, n: nat)
    requires |t.stss| == |syncs| && n <= |syncs| && forall k | 0 <= k < |syncs| :: t.stss[k] == syncs[k] + 1 < TWO32
    requires forall k, l | 0 <= k < l < |syncs| :: syncs[k] < syncs[l]
    ensures var r := t.PrevSync(i, n);
      if exists k | 0 <= k < n :: syncs[k] <= i
      then r <= i && r in syncs && forall k | 0 <= k < n && syncs[k] <= i :: syncs[k] <= r
      else r == TWO32 - 1
    decreases n
  {
    if n > 0 && syncs[n - 1] > i { LastListed(t, syncs, i, n - 1); }
  }
}
