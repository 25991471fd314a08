/** From input samples to fragments and back: one track is taken in, split, written and read. */
module FragmentEndToEnd {
  import opened RunLength
  import opened TimeScale
  import opened Samples
  import opened FragmentReader
  import opened Options
  import opened FragmentSplit
  import opened FragmentRule
  import E2E = IndexEndToEnd
  import FR = Fragmenter
  import FS = FragmentSize
  import FW = FragmentWriter
  import TI = TrackInput
  import TW = TableWriter

  /** The fragmenter's view of a track. */
  function SourceOf(ss: seq<Sample>, max: nat): (src: Source)
    requires ss != []
    ensures src.N() == |ss|
  {
    Source(TI.DtsList(ss) + [ss[0].dts + E2E.MediaDuration(ss)], TI.Syncs(ss), TI.DescStarts(ss), max)
  }

  /** Decode times increase, no sample lasts longer than a fragment may, and sizes, steps and times fit their
      fields. */
  ghost predicate TrackOk(ss: seq<Sample>, max: nat) {
    && ss != [] && ss[0].newDesc
    && Increasing(TI.DtsList(ss)) && TW.StepsFit(TI.DtsList(ss))
    && ss[|ss| - 1].dts <= ss[0].dts + E2E.MediaDuration(ss) < 0x8000_0000_0000_0000
    && max < 0x8000_0000_0000_0000 - 1
    && (forall i, j | 0 <= i && j == i + 1 && j < |ss| :: ss[j].dts - ss[i].dts <= max)
    && ss[0].dts + E2E.MediaDuration(ss) - ss[|ss| - 1].dts <= max
    && forall i | 0 <= i < |ss| :: ss[i].Size() < TWO32
  }

  lemma {:induction false} DescsIncrease(ss: seq<Sample>)
    ensures forall i | 0 <= i < |TI.DescStarts(ss)| :: TI.DescStarts(ss)[i] < |ss|
    ensures forall i, j | 0 <= i < j < |TI.DescStarts(ss)| :: TI.DescStarts(ss)[i] < TI.DescStarts(ss)[j]
  {
    if ss != [] { DescsIncrease(ss[..|ss| - 1]); }
  }

  lemma SourceIsTimed(ss: seq<Sample>, max: nat)
    requires TrackOk(ss, max)
    ensures WellTimed(SourceOf(ss, max))
  {
    hide E2E.MediaDuration, TW.StepsFit, TI.Syncs, TI.DescStarts;
    E2E.SyncsIncrease(ss);
    DescsIncrease(ss);
    var times, n := SourceOf(ss, max).times, |ss|;
    assert forall i | 0 <= i < n :: times[i] == TI.DtsList(ss)[i];
  }

  ghost predicate AllSync(ss: seq<Sample>) {
    forall i | 0 <= i < |ss| :: ss[i].sync
  }

  /** The fragment starts with a sync sample. */
  predicate OnSync(ss: seq<Sample>, f: Frag) {
    f.start < |ss| && ss[f.start].sync
  }

  /** The duration up to the second sample; of a lone sample, its own. */
  function FirstStep(ss: seq<Sample>): int
    requires ss != []
  {
    if |ss| > 1 then ss[1].dts - ss[0].dts else ss[0].duration % 0x1_0000_0000
  }

  /** The flags every sample has without sdtp entries: by the kind of track, or 0 from an empty trex. */
  ghost function PlainFlags(cfg: FW.Config, ss: seq<Sample>): nat {
    if cfg.emptyTrex then 0 else if AllSync(ss) then 0x02A0_0000 else 0x0121_0000
  }

  /** The track box: zeros, or the first step, the first size and the usual flags. */
  ghost predicate TrexRight(cfg: FW.Config, ss: seq<Sample>, sdtp: seq<nat>, trex: Trex)
    requires ss != []
  {
    if cfg.emptyTrex then trex == Trex(0, 0, 0)
    else
      && trex.duration == FirstStep(ss) && trex.size == ss[0].Size()
      && (sdtp == [] ==> trex.flags == PlainFlags(cfg, ss))
      && (sdtp != [] ==> FW.IsDefault(sdtp, trex.flags))
  }

  /** The header of a fragment: nothing when it must stay empty, but for the duration of AC-4; every default in
      place of an empty trex; else only that duration, and flags other than the track's. */
  ghost predicate HeaderRight(cfg: FW.Config, ss: seq<Sample>, sdtp: seq<nat>, trex: Trex, h: Tfhd)
    requires ss != []
  {
    if cfg.emptyTrex && !cfg.emptyTfhd then
      h.duration.Some? && h.duration.value == FirstStep(ss) && h.size == Some(ss[0].Size()) && h.flags == Some(0)
    else
      && (h.duration.Some? <==> cfg.ac4 && !cfg.emptyTrex && sdtp != [])
      && (h.duration.Some? ==> h.duration.value == FirstStep(ss))
      && h.size == None && (cfg.emptyTfhd || sdtp == [] ==> h.flags == None)
      && (!cfg.emptyTrex ==> h.flags != Some(trex.flags))
  }

  /** What a reader must find: each of the first n samples once, in order, with decode time, size,
      composition offset relative to the first one and flags, those given or the usual ones. */
  ghost predicate FirstRead(cfg: FW.Config, ss: seq<Sample>, sdtp: seq<nat>, read: seq<ReadSample>, n: nat) {
    && |read| == n <= |ss|
    && forall i | 0 <= i < n :: IsRead(cfg, ss, sdtp, read[i], i)
  }

  ghost predicate IsRead(cfg: FW.Config, ss: seq<Sample>, sdtp: seq<nat>, r: ReadSample, i: nat)
    requires i < |ss|
  {
    && r.dts == ss[i].dts && r.size == ss[i].Size()
    && r.ctsOffset == (ss[i].cts - ss[i].dts - (ss[0].cts - ss[0].dts)) % 0x1_0000_0000
    && (!cfg.emptyTrex && !cfg.writeSdtp && |sdtp| == |ss| ==> r.flags == sdtp[i])
    && (sdtp == [] ==> r.flags == PlainFlags(cfg, ss))
  }

  /** The lists of a track, as setup_muxer finds them. */
  lemma ListsOf(track: TI.Track, max: nat)
    requires track.Valid() && TrackOk(track.samples, max)
    ensures track.dtsLst == TI.DtsList(track.samples) && track.syncLst == TI.Syncs(track.samples)
    ensures track.stsdLst == TI.DescStarts(track.samples) && track.mediaDuration == E2E.MediaDuration(track.samples)
    ensures Expand(track.sizeLst) == Sizes(track.samples) && Canonical(track.sizeLst)
    ensures Expand(track.ctsOffsetLst) == TI.CtsValues(track.samples, TI.CtsBase(track.samples))
      && Canonical(track.ctsOffsetLst)
    ensures forall i | 0 <= i < |track.samples| :: 0 < track.samples[i].Size() < TWO32
  {
    hide Wrap64, Expand;
    E2E.DurationIs(track);
  }

  /** The rule by which the samples are split. */
  function RuleOf(g: Grouping, ss: seq<Sample>, stpp: bool, rangeMax: nat, rangeMin: nat, firstSampleIsSync: bool): Rule
    requires g.mediaScale > 0 && ss != []
  {
    Rule(SourceOf(ss, Rescale(rangeMax, g.mediaScale, 1000)),
         Rescale(if firstSampleIsSync then 10 else rangeMin, g.mediaScale, 1000), stpp)
  }

  /** A lone sample after time 0 is not written. */
  function Written(ss: seq<Sample>, covered: nat): nat {
    if |ss| == 1 && ss[0].dts > 0 then 0 else covered
  }

  /** Main result: whatever samples come in, a split that succeeds is the one of the rule; it is a
      partition into fitting fragments exactly when no start goes wrong; and the fragments written for it
      read back as the samples they cover, but for a lone sample after time 0. */
  method FragmentAndRead(g: Grouping, ss: seq<Sample>, cfg: FW.Config, sdtp: seq<nat>, stpp: bool,
                         rangeMax: nat, rangeMin: nat, firstSampleIsSync: bool)
      returns (ok: bool, frags: seq<Frag>, trex: Trex, trafs: seq<Traf>)
    requires g.mediaScale > 0 && E2E.Kept(ss) != [] && TrackOk(E2E.Kept(ss), Rescale(rangeMax, g.mediaScale, 1000))
    requires (sdtp != [] ==> |sdtp| == |E2E.Kept(ss)|) && forall i | 0 <= i < |sdtp| :: sdtp[i] < 0xFFFF_FFFF
    ensures ok ==>
      var r := RuleOf(g, E2E.Kept(ss), stpp, rangeMax, rangeMin, firstSampleIsSync);
      r.Ok() && frags == r.All() && (Partition(frags, r.N()) && AllFit(r.src, frags) <==> r.Sound())
        && (E2E.Kept(ss)[0].dts == 0 ==> (r.Sound() <==> r.EndIsSafe()))
    ensures ok && firstSampleIsSync && !stpp && !AllSync(E2E.Kept(ss)) ==>
      forall i | 0 <= i < |frags| :: OnSync(E2E.Kept(ss), frags[i])
    ensures ok ==> TrexRight(cfg, E2E.Kept(ss), sdtp, trex)
    ensures ok ==> forall i | 0 <= i < |trafs| :: HeaderRight(cfg, E2E.Kept(ss), sdtp, trex, trafs[i].tfhd)
    ensures ok ==> Covered(frags) <= |E2E.Kept(ss)| && forall i | 0 <= i < |trafs| :: WellFormedRun(trafs[i].trun)
    ensures ok ==>
      FirstRead(cfg, E2E.Kept(ss), sdtp, ReadAll(trex, trafs), Written(E2E.Kept(ss), Covered(frags)))
  {
    hide E2E.Kept, TrackOk, RuleOf, Rescale, WellTimed, Partition, AllFit, TI.Track.Valid, Covered, Consecutive,
      Rule.Sound, Rule.EndIsSafe, Rule.All, Rule.Ok, AllSync, OnSync, TrexRight, HeaderRight, FirstRead;
    ghost var max := Rescale(rangeMax, g.mediaScale, 1000);
    frags, trex, trafs := [], Trex(0, 0, 0), [];
    OpensDescription(E2E.Kept(ss), max);
    var track := E2E.InputAll(g, false, ss);
    ok, frags := SplitTrack(track, stpp, rangeMax, rangeMin, firstSampleIsSync);
    if ok { trex, trafs := WriteAndRead(track, cfg, sdtp, frags, max); }
  }

  /** The splitter on the track's lists. */
  method SplitTrack(track: TI.Track, stpp: bool, rangeMax: nat, rangeMin: nat, firstSampleIsSync: bool)
      returns (ok: bool, frags: seq<Frag>)
    requires track.Valid() && track.g.mediaScale > 0
    requires TrackOk(track.samples, Rescale(rangeMax, track.g.mediaScale, 1000))
    ensures ok ==>
      var r := RuleOf(track.g, track.samples, stpp, rangeMax, rangeMin, firstSampleIsSync);
      r.Ok() && frags == r.All() && (Partition(frags, r.N()) && AllFit(r.src, frags) <==> r.Sound())
        && (track.samples[0].dts == 0 ==> (r.Sound() <==> r.EndIsSafe()))
    ensures ok && firstSampleIsSync && !stpp && !AllSync(track.samples) ==>
      forall i | 0 <= i < |frags| :: OnSync(track.samples, frags[i])
    ensures ok ==> Consecutive(frags) && Covered(frags) <= |track.samples|
  {
    hide TrackOk, Rescale, WellTimed, Partition, AllFit, AllSync, OnSync, TI.Track.Valid, E2E.MediaDuration, TI.Syncs,
      TI.DescStarts, TI.DtsList, FR.Track.CursorsAt, FR.Track.SomeOffSync, Covered, Consecutive,
      Rule.Sound, Rule.EndIsSafe, Rule.All, Rule.Ok;
    ghost var max := Rescale(rangeMax, track.g.mediaScale, 1000);
    OpensDescription(track.samples, max);
    SourceIsTimed(track.samples, max);
    ListsOf(track, max);
    BelowLimit(track.samples, max);
    var splitter := new FR.Track(track.dtsLst, track.syncLst, track.stsdLst, track.mediaDuration,
      track.g.mediaScale, stpp, max);
    SyncsAre(track.samples);
    ok := splitter.CreateFragmentList(rangeMax, rangeMin, firstSampleIsSync);
    if !ok { return false, []; }
    frags := splitter.segmentLst;
    StartOnSync(track.samples, frags);
    ghost var r := RuleOf(track.g, track.samples, stpp, rangeMax, rangeMin, firstSampleIsSync);
    assert r == splitter.RuleFor(Rescale(if firstSampleIsSync then 10 else rangeMin, track.g.mediaScale, 1000));
    r.SoundExactly();
    r.AllInOrder();
    if track.samples[0].dts == 0 { r.SafeExactly(); }
  }

  /** The sync list is as long as the track exactly when every sample is one. */
  lemma SyncsAre(ss: seq<Sample>)
    ensures |TI.Syncs(ss)| == |ss| <==> AllSync(ss)
    ensures forall i: nat | i in TI.Syncs(ss) :: i < |ss| && ss[i].sync
  {
    E2E.MixedIs(ss);
    E2E.SyncsIncrease(ss);
    E2E.SyncsBounded(ss);
  }

  lemma StartOnSync(ss: seq<Sample>, frags: seq<Frag>)
    ensures (forall i | 0 <= i < |frags| :: frags[i].start in TI.Syncs(ss)) ==>
      forall i | 0 <= i < |frags| :: OnSync(ss, frags[i])
  {
    SyncsAre(ss);
  }

  lemma OpensDescription(ss: seq<Sample>, max: nat)
    requires TrackOk(ss, max)
    ensures ss != [] && ss[0].newDesc
  {
  }

  lemma BelowLimit(ss: seq<Sample>, max: nat)
    requires TrackOk(ss, max)
    ensures ss[0].dts + E2E.MediaDuration(ss) + max < FR.NO_LIMIT
  {
  }

  /** The writer on the track's lists, for any consecutive fragments. */
  method WriteAndRead(track: TI.Track, cfg: FW.Config, sdtp: seq<nat>, frags: seq<Frag>, ghost max: nat)
      returns (trex: Trex, trafs: seq<Traf>)
    requires track.Valid() && TrackOk(track.samples, max)
    requires Consecutive(frags) && Covered(frags) <= |track.samples|
    requires (sdtp != [] ==> |sdtp| == |track.samples|) && forall i | 0 <= i < |sdtp| :: sdtp[i] < 0xFFFF_FFFF
    ensures forall i | 0 <= i < |trafs| :: WellFormedRun(trafs[i].trun)
    ensures FirstRead(cfg, track.samples, sdtp, ReadAll(trex, trafs), Written(track.samples, Covered(frags)))
    ensures TrexRight(cfg, track.samples, sdtp, trex)
    ensures forall i | 0 <= i < |trafs| :: HeaderRight(cfg, track.samples, sdtp, trex, trafs[i].tfhd)
  {
    hide TI.Track.Valid, TrackOk, Expand, Canonical, Increasing, TW.StepsFit, Consecutive, Covered, TrexRight,
      HeaderRight, FirstRead, FirstStep, FW.FragTrack.CursorsAt, FW.FragTrack.ReadsFirst, FW.FragTrack.ListsOk,
      FW.FragTrack.TrafsOf;
    WriterFits(track, max);
    var allRap := |track.syncLst| == |track.dtsLst|;
    var writer := new FW.FragTrack(cfg, track.dtsLst, track.mediaDuration, track.sizeLst, track.ctsOffsetLst, sdtp,
      allRap);
    trex := writer.TrexBox();
    DefaultsAre(track, writer, max);
    trafs := writer.WriteFragments(frags);
    HeadersAre(track.samples, writer, frags);
    ReadIs(track, writer, trafs, writer.Written(Covered(frags)), max);
  }

  /** The lists meet what the writer asks for. */
  lemma WriterFits(track: TI.Track, max: nat)
    requires track.Valid() && TrackOk(track.samples, max)
    ensures track.dtsLst != [] && Increasing(track.dtsLst) && TW.StepsFit(track.dtsLst)
    ensures track.dtsLst[|track.dtsLst| - 1] < 0x8000_0000_0000_0000 && |track.dtsLst| == |track.samples|
    ensures track.samples != [] && track.dtsLst[0] == track.samples[0].dts
    ensures |Expand(track.sizeLst)| == |track.dtsLst| && Canonical(track.sizeLst)
    ensures forall i | 0 <= i < |track.dtsLst| :: 0 < Expand(track.sizeLst)[i] < TWO32
    ensures |Expand(track.ctsOffsetLst)| == |track.dtsLst| && Canonical(track.ctsOffsetLst)
  {
    hide TI.Track.Valid, Expand, Canonical, E2E.MediaDuration;
    ListsOf(track, max);
  }

  /** The writer works on the lists of the track. */
  ghost predicate Works(writer: FW.FragTrack, track: TI.Track)
    reads track
  {
    && writer.ListsOk() && writer.dtsLst == track.dtsLst && writer.sizeLst == track.sizeLst
    && writer.ctsOffsetLst == track.ctsOffsetLst && writer.N() == |track.samples|
    && |Expand(writer.sizeLst)| == writer.N() && |Expand(writer.ctsOffsetLst)| == writer.N()
    && TrexRight(writer.cfg, track.samples, writer.sdtpLst, writer.TrexBox())
  }

  /** What the writer's reader gets, in terms of the samples. */
  lemma SampleIs(track: TI.Track, writer: FW.FragTrack, r: ReadSample, i: nat, max: nat)
    requires track.Valid() && TrackOk(track.samples, max) && track.samples != [] && Works(writer, track)
    requires i < writer.N() && writer.IsSample(r, i)
    ensures IsRead(writer.cfg, track.samples, writer.sdtpLst, r, i)
  {
    hide TI.Track.Valid, Expand, Canonical, FW.FragTrack.ListsOk, E2E.MediaDuration, Wrap32, TI.CtsValue, TI.CtsBase;
    ListsOf(track, max);
    E2E.OffsetsAre(track.samples);
  }

  lemma ReadIs(track: TI.Track, writer: FW.FragTrack, trafs: seq<Traf>, n: nat, max: nat)
    requires track.Valid() && TrackOk(track.samples, max) && track.samples != [] && Works(writer, track)
    requires n <= writer.N() && writer.ReadsFirst(trafs, n)
    ensures forall i | 0 <= i < |trafs| :: WellFormedRun(trafs[i].trun)
    ensures FirstRead(writer.cfg, track.samples, writer.sdtpLst, ReadAll(writer.TrexBox(), trafs), n)
  {
    hide TI.Track.Valid, TrackOk, TrexRight, IsRead, FW.FragTrack.IsSample, FW.FragTrack.ListsOk, Expand;
    var read := ReadAll(writer.TrexBox(), trafs);
    forall i | 0 <= i < n ensures IsRead(writer.cfg, track.samples, writer.sdtpLst, read[i], i) {
      SampleIs(track, writer, read[i], i, max);
    }
  }

  /** The defaults of the writer in terms of the samples. */
  lemma DefaultsAre(track: TI.Track, writer: FW.FragTrack, max: nat)
    requires track.Valid() && TrackOk(track.samples, max) && writer.ListsOk()
    requires writer.dtsLst == track.dtsLst && writer.sizeLst == track.sizeLst
      && writer.mediaDuration == track.mediaDuration
    requires writer.allRapSamples == (|track.syncLst| == |track.dtsLst|)
    ensures writer.trex.duration == FirstStep(track.samples) && writer.trex.size == track.samples[0].Size()
    ensures TrexRight(writer.cfg, track.samples, writer.sdtpLst, writer.TrexBox())
  {
    hide TI.Track.Valid, Expand, Canonical, AllSync, Increasing;
    ListsOf(track, max);
    SyncsAre(track.samples);
    var ss := track.samples;
    assert writer.trex.size == ss[0].Size();
    assert writer.trex.duration == FirstStep(ss) by { FirstStepIs(ss); }
  }

  lemma FirstStepIs(ss: seq<Sample>)
    requires ss != [] && TW.StepsFit(TI.DtsList(ss))
    ensures |ss| > 1 ==> TW.Delta32(TI.DtsList(ss)[1], TI.DtsList(ss)[0]) == FirstStep(ss)
    ensures |ss| == 1 ==> Wrap32(E2E.MediaDuration(ss)) == FirstStep(ss)
  {
  }

  lemma HeadersAre(ss: seq<Sample>, writer: FW.FragTrack, frags: seq<Frag>)
    requires writer.ListsOk() && (forall i | 0 <= i < |frags| :: frags[i].stop <= writer.N())
    requires ss != [] && writer.trex.duration == FirstStep(ss) && writer.trex.size == ss[0].Size()
    ensures forall k | 0 <= k < |writer.TrafsOf(frags)| ::
      HeaderRight(writer.cfg, ss, writer.sdtpLst, writer.TrexBox(), writer.TrafsOf(frags)[k].tfhd)
  {
    hide Expand, Canonical, Increasing, TW.StepsFit, FW.FragTrack.TrafsOf;
    writer.HeadersAllowed(frags);
  }

  /** The sizes prepare_traf finds for the fragments of a partition add up to the media size of the track. */
  method TotalSize(track: TI.Track, frags: seq<Frag>) returns (total: int)
    requires track.Valid() && Partition(frags, |track.samples|)
    ensures total == track.mdatSize
  {
    hide TI.Track.Valid, Partition, FS.FragBytes, Sum, Expand, Total;
    SizesAre(track);
    ghost var sizes := Sizes(track.samples);
    total := 0;
    var k := 0;
    NoBytes(sizes);
    assert frags[..0] == [];
    while k < |frags|
      invariant 0 <= k <= |frags| && total == FS.FragBytes(sizes, frags[..k])
    {
      FragInside(frags, k, |track.samples|);
      MoreBytes(sizes, frags, k);
      var size := FS.FragmentBytes(track.sizeLst, frags[k].start, frags[k].stop);
      total := total + size;
      k := k + 1;
    }
    assert frags[..|frags|] == frags && sizes[..|sizes|] == sizes;
    FS.FragmentsAddUp(sizes, frags, |track.samples|);
  }

  lemma SizesAre(track: TI.Track)
    requires track.Valid()
    ensures Expand(track.sizeLst) == Sizes(track.samples) && Total(track.sizeLst) == |track.samples|
    ensures track.mdatSize == Sum(Sizes(track.samples))
  {
    ExpandLength(track.sizeLst);
  }

  lemma NoBytes(sizes: seq<nat>)
    ensures FS.FragBytes(sizes, []) == 0
  {
  }

  lemma MoreBytes(sizes: seq<nat>, frags: seq<Frag>, k: nat)
    requires k < |frags| && frags[k].start <= frags[k].stop <= |sizes|
    ensures FS.FragBytes(sizes, frags[..k + 1])
      == FS.FragBytes(sizes, frags[..k]) + Sum(sizes[frags[k].start..frags[k].stop])
  {
    assert frags[..k + 1][..k] == frags[..k];
  }

  lemma FragInside(frags: seq<Frag>, k: nat, n: nat)
    requires Partition(frags, n) && k < |frags|
    ensures frags[k].start < frags[k].stop <= n
  {
    StopsIncrease(frags, k, |frags| - 1);
  }
}
