/** The box writers that turn a track's lists into sample tables: write_stts_box, write_ctts_box,
    write_stss_box, write_stsc_box, write_stsz_box and write_stco_box of src/mp4_muxer.c. */
module TableWriter {
  import opened RunLength
  import opened TimeScale
  import opened Samples
  import opened SampleTables
  import TrackInput

  // ---------------------------------------------------------------- stts

  /** The 32-bit difference of two decode times. */
  function Delta32(later: nat, earlier: nat): (r: nat)
    ensures r < TWO32 && r == (later as int - earlier as int) % 0x1_0000_0000
    ensures earlier <= later < earlier + TWO32 ==> r == later - earlier
  {
    Wrap32(later as int - earlier as int)
  }

  /** The 32-bit differences of neighbouring decode times. */
  function Steps(dts: seq<nat>): (r: seq<nat>)
    requires dts != []
    ensures |r| == |dts| - 1 && forall i | 0 <= i < |r| :: r[i] == Delta32(dts[i + 1], dts[i])
  {
    seq(|dts| - 1, i requires 0 <= i < |dts| - 1 => Delta32(dts[i + 1], dts[i]))
  }

  /** The duration given to the last sample: what is left of the media duration, or the previous
      delta when nothing is left; a lone sample gets 0. */
  function LastStep(dts: seq<nat>, mediaDuration: nat): nat
    requires dts != []
  {
    var n := |dts|;
    if n == 1 then 0
    else if mediaDuration >= dts[n - 1] then Delta32(mediaDuration, dts[n - 1])
    else Delta32(dts[n - 1], dts[n - 2])
  }

  lemma LastStepIs(dts: seq<nat>, mediaDuration: nat)
    requires |dts| > 1
    ensures LastStep(dts, mediaDuration) ==
            if mediaDuration < dts[|dts| - 1] then Delta32(dts[|dts| - 1], dts[|dts| - 2])
            else Delta32(mediaDuration, dts[|dts| - 1])
  {
  }

  /** The loop of write_stts_box: every delta but the last, with the open run still unwritten. */
  method CollectSteps(dts: seq<nat>) returns (entries: seq<Run>, sampleCount: nat, prev: nat)
    requires |dts| > 1
    ensures Expand(entries + [Run(sampleCount, prev)]) == Steps(dts)
    ensures Canonical(entries + [Run(sampleCount, prev)])
    ensures prev == Delta32(dts[|dts| - 1], dts[|dts| - 2])
  {
    hide Delta32, Canonical, Expand, Steps;
    ghost var steps := Steps(dts);
    var dts1 := dts[1];
    entries, sampleCount, prev := [], 1, Delta32(dts1, dts[0]);
    SingleRun(prev);
    assert steps[..1] == [prev];
    var i := 2;
    while i < |dts|
      invariant 2 <= i <= |dts| && dts1 == dts[i - 1] && prev == steps[i - 2]
      invariant Expand(entries + [Run(sampleCount, prev)]) == steps[..i - 1]
      invariant Canonical(entries + [Run(sampleCount, prev)])
    {
      ghost var open := entries + [Run(sampleCount, prev)];
      var delta := Delta32(dts[i], dts1);
      dts1 := dts[i];
      assert steps[..i] == steps[..i - 1] + [delta];
      AppendToOpen(entries, sampleCount, prev, delta);
      if delta == prev {
        sampleCount := sampleCount + 1;
      } else {
        entries := entries + [Run(sampleCount, prev)];
        sampleCount, prev := 1, delta;
      }
      i := i + 1;
    }
    assert steps[..|dts| - 1] == steps;
  }

  /** One more item against a list whose last run is still open. */
  lemma AppendToOpen(rs: seq<Run>, count: nat, value: nat, v: nat)
    requires Canonical(rs + [Run(count, value)])
    ensures var next := if v == value then rs + [Run(count + 1, value)] else rs + [Run(count, value)] + [Run(1, v)];
      Expand(next) == Expand(rs + [Run(count, value)]) + [v] && Canonical(next)
  {
    hide Expand, Canonical;
    var open := rs + [Run(count, value)];
    assert open[..|open| - 1] == rs;
    AppendItemExpands(open, v);
  }

  lemma SingleRun(v: nat)
    ensures Expand([] + [Run(1, v)]) == [v] && Canonical([] + [Run(1, v)])
  {
    assert [Run(1, v)][..0] == [];
    assert Repeat(v, 1) == [v];
  }

  /** write_stts_box: the run-length form of the deltas, the remainder of the media duration last. */
  method WriteStts(dts: seq<nat>, mediaDuration: nat) returns (entries: seq<Run>)
    requires dts != []
    ensures Expand(entries) == Steps(dts) + [LastStep(dts, mediaDuration)]
    ensures mediaDuration < dts[|dts| - 1] + TWO32 ==> Canonical(entries)
  {
    hide Delta32, Canonical, Expand, LastStep, Steps;
    if |dts| == 1 {
      // dts0 and dts1 keep their initial values, so the remainder equals the delta 0
      SingleRun(0);
      assert LastStep(dts, mediaDuration) == 0 by { LastStepOfOne(dts, mediaDuration); }
      return [] + [Run(1, 0)];
    }
    var sampleCount, prev;
    entries, sampleCount, prev := CollectSteps(dts);
    var dts1 := dts[|dts| - 1];
    LastStepIs(dts, mediaDuration);
    ghost var open := entries + [Run(sampleCount, prev)];
    if mediaDuration >= dts1 && prev != mediaDuration - dts1 {
      var last := Delta32(mediaDuration, dts1);
      PushRun(open, 1, last);
      assert Repeat(last, 1) == [last];
      AppendToOpen(entries, sampleCount, prev, last);
      entries := entries + [Run(sampleCount, prev)];
      entries := entries + [Run(1, last)];
    } else {
      AppendToOpen(entries, sampleCount, prev, prev);
      entries := entries + [Run(sampleCount + 1, prev)];
    }
  }

  lemma LastStepOfOne(dts: seq<nat>, mediaDuration: nat)
    requires |dts| == 1
    ensures LastStep(dts, mediaDuration) == 0
  {
  }

  lemma Wrap32Fits(x: int)
    requires 0 <= x < TWO32
    ensures Wrap32(x) == x
  {
  }

  lemma PushRun(rs: seq<Run>, count: nat, value: nat)
    ensures Expand(rs + [Run(count, value)]) == Expand(rs) + Repeat(value, count)
  {
    assert (rs + [Run(count, value)])[..|rs|] == rs;
  }

  /** Decode times step by less than 2^32, and never back. */
  ghost predicate StepsFit(dts: seq<nat>) {
    forall i, j | 0 <= i && j == i + 1 && j < |dts| :: dts[i] <= dts[j] < dts[i] + TWO32
  }

  /** Reading the written deltas back gives every decode time relative to the first. */
  lemma {:induction false} StepsSum(dts: seq<nat>, tail: seq<nat>, i: nat)
    requires i < |dts| && StepsFit(dts)
    ensures Sum((Steps(dts) + tail)[..i]) + dts[0] == dts[i]
    decreases i
  {
    hide Delta32, Steps;
    var all := Steps(dts) + tail;
    if i > 0 {
      StepsSum(dts, tail, i - 1);
      SumTakeNext(all, i - 1);
      assert all[i - 1] == Delta32(dts[i], dts[i - 1]);
    }
  }

  /** For two or more samples starting at 0 the deltas add up to the media duration. */
  lemma StepsSumToDuration(dts: seq<nat>, mediaDuration: nat)
    requires |dts| > 1 && dts[0] == 0 && StepsFit(dts)
    requires dts[|dts| - 1] <= mediaDuration < dts[|dts| - 1] + TWO32
    ensures Sum(Steps(dts) + [LastStep(dts, mediaDuration)]) == mediaDuration
  {
    hide Delta32, Steps, Sum;
    var n := |dts|;
    var all := Steps(dts) + [LastStep(dts, mediaDuration)];
    StepsSum(dts, [LastStep(dts, mediaDuration)], n - 1);
    assert all[..n] == all;
    SumTakeNext(all, n - 1);
  }

  // ---------------------------------------------------------------- ctts

  function Wrapped(s: seq<nat>): (r: seq<nat>)
    ensures |r| == |s| && forall i | 0 <= i < |s| :: r[i] == Wrap32(s[i])
  {
    seq(|s|, i requires 0 <= i < |s| => Wrap32(s[i]))
  }

  /** no_cts_offset of setup_muxer */
  predicate NoCtsOffset(lst: seq<Run>) { |lst| == 1 && lst[0].value == 0 }

  /** That is when all offsets are 0. */
  lemma NoOffsetsExactly(lst: seq<Run>)
    requires Canonical(lst) && Expand(lst) != []
    ensures NoCtsOffset(lst) <==> forall i | 0 <= i < |Expand(lst)| :: Expand(lst)[i] == 0
  {
    var zeros := [Run(|Expand(lst)|, 0)];
    assert zeros[..0] == [] && lst[..0] == [];
    if NoCtsOffset(lst) {
      assert Expand(lst) == [] + Repeat(0, lst[0].count);
    } else if forall i | 0 <= i < |Expand(lst)| :: Expand(lst)[i] == 0 {
      assert Expand(zeros) == [] + Repeat(0, |Expand(lst)|) == Expand(lst);
      CanonicalIsUnique(lst, zeros);
      assert false;
    }
  }

  /** write_ctts_box: one entry per run, or no box at all when every offset is 0. */
  method WriteCtts(lst: seq<Run>) returns (entries: seq<Run>)
    ensures NoCtsOffset(lst) ==> entries == []
    ensures !NoCtsOffset(lst) ==> Expand(entries) == Wrapped(Expand(lst)) && Total(entries) == Total(lst)
  {
    hide Wrap32;
    entries := [];
    if NoCtsOffset(lst) { return; }
    var i := 0;
    while i < |lst|
      invariant 0 <= i <= |lst|
      invariant Expand(entries) == Wrapped(Expand(lst[..i])) && Total(entries) == Total(lst[..i])
    {
      PrefixStep(lst, i);
      PushRun(entries, lst[i].count, Wrap32(lst[i].value));
      assert (entries + [Run(lst[i].count, Wrap32(lst[i].value))])[..|entries|] == entries;
      entries := entries + [Run(lst[i].count, Wrap32(lst[i].value))];
      i := i + 1;
    }
    assert lst[..|lst|] == lst;
  }

  /** What a reader of the ctts table (present or not) gets for sample i. */
  lemma CttsRoundTrip(lst: seq<Run>, entries: seq<Run>, i: nat)
    requires NoCtsOffset(lst) ==> entries == []
    requires !NoCtsOffset(lst) ==> Expand(entries) == Wrapped(Expand(lst))
    requires i < |Expand(lst)|
    ensures (if i < |Expand(entries)| then Expand(entries)[i] else 0) == Wrap32(Expand(lst)[i])
  {
    if NoCtsOffset(lst) {
      assert lst[..0] == [];
      assert Expand(lst) == [] + Repeat(0, lst[0].count);
    }
  }

  // ---------------------------------------------------------------- stss

  /** write_stss_box (when enabled): 1-based sync sample numbers, no box when all samples or none
      are sync samples. */
  method WriteStss(syncLst: seq<nat>, sampleNum: nat) returns (entries: seq<nat>)
    ensures entries == if |syncLst| == 0 || |syncLst| == sampleNum then []
      else seq(|syncLst|, (i: nat) requires i < |syncLst| => syncLst[i] + 1)
  {
    entries := [];
    if |syncLst| == 0 || |syncLst| == sampleNum { return; }
    var i := 0;
    while i < |syncLst|
      invariant 0 <= i <= |syncLst| && |entries| == i
      invariant forall j | 0 <= j < i :: entries[j] == syncLst[j] + 1
    {
      entries := entries + [syncLst[i] + 1];
      i := i + 1;
    }
  }

  // ---------------------------------------------------------------- stsz

  /** write_stsz_box: one common size, or 0 followed by all sizes. */
  method WriteStsz(sizeLst: seq<Run>) returns (fixedSize: nat, sizes: seq<nat>)
    requires sizeLst != []
    ensures |sizeLst| == 1 ==> fixedSize == Wrap32(sizeLst[0].value) && sizes == []
    ensures |sizeLst| != 1 ==> fixedSize == 0 && sizes == Wrapped(Expand(sizeLst))
  {
    hide Wrap32;
    sizes := [];
    if |sizeLst| == 1 { return Wrap32(sizeLst[0].value), []; }
    fixedSize := 0;
    var i := 0;
    while i < |sizeLst|
      invariant 0 <= i <= |sizeLst|
      invariant sizes == Wrapped(Expand(sizeLst[..i]))
    {
      ghost var before := sizes;
      var u := 0;
      while u < sizeLst[i].count
        invariant 0 <= u <= sizeLst[i].count
        invariant sizes == before + Repeat(Wrap32(sizeLst[i].value), u)
      {
        sizes := sizes + [Wrap32(sizeLst[i].value)];
        u := u + 1;
      }
      PrefixStep(sizeLst, i);
      i := i + 1;
    }
    assert sizeLst[..|sizeLst|] == sizeLst;
  }

  /** Because samples are never empty, a reader can tell the two forms apart and finds every size. */
  lemma StszRoundTrip(sizeLst: seq<Run>, fixedSize: nat, sizes: seq<nat>, i: nat)
    requires |sizeLst| == 1 ==> fixedSize == Wrap32(sizeLst[0].value) && sizes == []
    requires |sizeLst| != 1 ==> fixedSize == 0 && sizes == Wrapped(Expand(sizeLst))
    requires forall j | 0 <= j < |Expand(sizeLst)| :: 0 < Expand(sizeLst)[j] < TWO32
    requires i < |Expand(sizeLst)|
    ensures (if fixedSize != 0 then fixedSize else if i < |sizes| then sizes[i] else 0) == Expand(sizeLst)[i]
  {
    Wrap32Fits(Expand(sizeLst)[i]);
    if |sizeLst| == 1 {
      assert sizeLst[..0] == [];
      assert Expand(sizeLst) == [] + Repeat(sizeLst[0].value, sizeLst[0].count);
      assert Expand(sizeLst)[i] == sizeLst[0].value;
    }
  }

  // ---------------------------------------------------------------- stsc and stco

  /** Entry e is the one in force for chunk c (entries cover up to the next entry or the end n). */
  predicate InForce(entries: seq<StscEntry>, n: nat, e: nat, c: nat)
    requires e < |entries|
  {
    entries[e].firstChunk - 1 <= c < (if e + 1 < |entries| then entries[e + 1].firstChunk - 1 else n)
  }

  /** The entries start at chunk 1, are increasing, and describe each of the first n chunks. */
  ghost predicate DescribesChunks(entries: seq<StscEntry>, chunks: seq<Chunk>, n: nat)
    requires n <= |chunks|
  {
    && (n == 0 <==> entries == [])
    && (entries != [] ==> entries[0].firstChunk == 1 && entries[|entries| - 1].firstChunk <= n)
    && (forall e, f | 0 <= e < f < |entries| :: entries[e].firstChunk < entries[f].firstChunk)
    && (forall e, c | 0 <= e < |entries| && 0 <= c < n && InForce(entries, n, e, c) ::
         entries[e].samplesPerChunk == chunks[c].sampleNum && entries[e].descIndex == chunks[c].descIndex)
  }

  /** No entry repeats the one before it. */
  ghost predicate NoneRepeats(entries: seq<StscEntry>) {
    forall e, f | 0 <= e && f == e + 1 && f < |entries| ::
      entries[e].samplesPerChunk != entries[f].samplesPerChunk || entries[e].descIndex != entries[f].descIndex
  }

  lemma NothingDescribed(chunks: seq<Chunk>)
    ensures DescribesChunks([], chunks, 0)
  {
  }

  /** Chunk i gets an entry of its own. */
  lemma EntryAdded(entries: seq<StscEntry>, chunks: seq<Chunk>, i: nat)
    requires i < |chunks| && DescribesChunks(entries, chunks, i)
    ensures DescribesChunks(entries + [StscEntry(i + 1, chunks[i].sampleNum, chunks[i].descIndex)], chunks, i + 1)
  {
    hide InForce;
    var all := entries + [StscEntry(i + 1, chunks[i].sampleNum, chunks[i].descIndex)];
    forall e, c | 0 <= e < |all| && 0 <= c < i + 1 && InForce(all, i + 1, e, c)
      ensures all[e].samplesPerChunk == chunks[c].sampleNum && all[e].descIndex == chunks[c].descIndex
    {
      ForceAdded(entries, all[|entries|], i, e, c);
    }
  }

  /** The new entry is in force for chunk i only. */
  lemma ForceAdded(entries: seq<StscEntry>, last: StscEntry, i: nat, e: nat, c: nat)
    requires last.firstChunk == i + 1 && e <= |entries| && c <= i && InForce(entries + [last], i + 1, e, c)
    requires forall f | 0 <= f < |entries| :: entries[f].firstChunk <= i
    ensures if e == |entries| then c == i else c < i && InForce(entries, i, e, c)
  {
  }

  /** Chunk i is like the last entry. */
  lemma EntryStays(entries: seq<StscEntry>, chunks: seq<Chunk>, i: nat)
    requires i < |chunks| && DescribesChunks(entries, chunks, i) && i > 0 && entries != []
    requires chunks[i].sampleNum == entries[|entries| - 1].samplesPerChunk
      && chunks[i].descIndex == entries[|entries| - 1].descIndex
    ensures DescribesChunks(entries, chunks, i + 1)
  {
    forall e, c | 0 <= e < |entries| && 0 <= c < i + 1 && InForce(entries, i + 1, e, c)
      ensures entries[e].samplesPerChunk == chunks[c].sampleNum && entries[e].descIndex == chunks[c].descIndex
    {
      assert c < i ==> InForce(entries, i, e, c);
    }
  }

  /** write_stsc_box: a new entry whenever the sample count or the description changes. */
  method WriteStsc(chunks: seq<Chunk>) returns (entries: seq<StscEntry>)
    requires forall c | 0 <= c < |chunks| :: chunks[c].sampleNum > 0
    ensures DescribesChunks(entries, chunks, |chunks|) && NoneRepeats(entries)
  {
    hide DescribesChunks, InForce;
    entries := [];
    NothingDescribed(chunks);
    var sampleNum, descIndex := 0, 0;
    var i := 0;
    while i < |chunks|
      invariant 0 <= i <= |chunks|
      invariant DescribesChunks(entries, chunks, i) && NoneRepeats(entries)
      invariant i == 0 ==> sampleNum == 0 && entries == []
      invariant i > 0 ==>
        entries != [] && sampleNum == entries[|entries| - 1].samplesPerChunk
        && descIndex == entries[|entries| - 1].descIndex
    {
      if sampleNum != chunks[i].sampleNum || descIndex != chunks[i].descIndex {
        sampleNum, descIndex := chunks[i].sampleNum, chunks[i].descIndex;
        EntryAdded(entries, chunks, i);
        entries := entries + [StscEntry(i + 1, sampleNum, descIndex)];
      } else {
        EntryStays(entries, chunks, i);
      }
      i := i + 1;
    }
  }

  /** A chunk offset as it is stored: 32 bits unless co64 is used. */
  function StoredOffset(co64: bool, offset: nat): nat {
    if co64 then offset else Wrap32(offset)
  }

  /** write_stco_box */
  method WriteStco(chunks: seq<Chunk>, co64: bool) returns (offsets: seq<nat>)
    ensures |offsets| == |chunks|
    ensures forall c | 0 <= c < |chunks| ::
      offsets[c] == StoredOffset(co64, chunks[c].offset)
                 == if co64 then chunks[c].offset else chunks[c].offset % 0x1_0000_0000
  {
    offsets := [];
    var c := 0;
    while c < |chunks|
      invariant 0 <= c <= |chunks| && |offsets| == c
      invariant forall j | 0 <= j < c :: offsets[j] == StoredOffset(co64, chunks[j].offset)
    {
      offsets := offsets + [if co64 then chunks[c].offset else Wrap32(chunks[c].offset)];
      c := c + 1;
    }
  }
}
