/** The sample tables of a track (ISO/IEC 14496-12 sections 8.6 and 8.7) and what they mean:
    stateless answers to every query of src/mp4_stream.c. */
module SampleTables {
  import opened RunLength
  import opened TimeScale

  /** One stsc entry; chunk numbers are 1-based. */
  datatype StscEntry = StscEntry(firstChunk: nat, samplesPerChunk: nat, descIndex: nat)

  /** `fixedSize` is the sample_size field of stsz, 0 meaning that `sizes` lists every sample;
      `stss` holds 1-based sample numbers, empty meaning that every sample is a sync sample. */
  datatype Tables = Tables(
    sampleNum: nat,
    dtsOffset: nat,
    stts: seq<Run>,
    ctts: seq<Run>,
    stsc: seq<StscEntry>,
    fixedSize: nat,
    sizes: seq<nat>,
    stco: seq<nat>,
    stss: seq<nat>)
  {
    /** Queries past the end are answered for the last sample; 32-bit arithmetic. */
    function Clamp(i: nat): nat {
      if i >= sampleNum then Wrap32(sampleNum - 1) else i
    }

    function Dts(i: nat): nat {
      if i < |Expand(stts)| then Sum(Expand(stts)[..i]) + dtsOffset else TWO64 - 1
    }

    function Duration(i: nat): nat {
      if i < |Expand(stts)| then Expand(stts)[i] else TWO32 - 1
    }

    function CtsOffset(i: nat): nat {
      if i < |Expand(ctts)| then Expand(ctts)[i] else 0
    }

    /** The sample being decoded at a time; the last one once the track is over. */
    function SampleAt(time: nat): nat {
      if time <= dtsOffset then 0
      else if time - dtsOffset < Sum(Expand(stts)) then Locate(Expand(stts), time - dtsOffset)
      else Wrap32(sampleNum - 1)
    }

    function Size(i: nat): nat {
      if fixedSize != 0 then fixedSize else if i < |sizes| then sizes[i] else 0
    }

    function AllSizes(): seq<nat> { seq(sampleNum, (i: nat) => Size(i)) }

    /** How many chunks stsc entry e covers; the last entry is open-ended. */
    function ChunkCount(e: nat): int
      requires e < |stsc|
    {
      (if e + 1 < |stsc| then stsc[e + 1].firstChunk else |stco| + 1) - stsc[e].firstChunk
    }

    predicate StscOk() {
      && |stsc| > 0 && stsc[0].firstChunk == 1
      && (forall e | 0 <= e < |stsc| :: ChunkCount(e) > 0)
    }

    function ChunkRuns(): seq<Run>
      requires StscOk()
    {
      seq(|stsc|, e requires 0 <= e < |stsc| => Run(ChunkCount(e), stsc[e].samplesPerChunk))
    }

    /** Samples in each chunk. */
    function PerChunk(): seq<nat>
      requires StscOk()
    {
      Expand(ChunkRuns())
    }

    /** stsc entry e covers the 0-based chunk c. */
    predicate Covers(e: nat, c: nat)
      requires e < |stsc|
    {
      stsc[e].firstChunk - 1 <= c < stsc[e].firstChunk - 1 + ChunkCount(e)
    }

    /** The tables describe the same samples. */
    predicate Consistent() {
      && StscOk()
      && 0 < sampleNum == Weight(ChunkRuns())
      && (fixedSize == 0 ==> |sizes| == sampleNum)
    }

    function ChunkOf(i: nat): nat
      requires Consistent() && i < sampleNum
    {
      ExpandSum(ChunkRuns());
      Locate(PerChunk(), i)
    }

    /** Where sample i lies in the file: its chunk's offset plus the samples before it in the chunk. */
    function Offset(i: nat): nat
      requires Consistent() && i < sampleNum
    {
      var c := ChunkOf(i);
      ChunksAreStored();
      stco[c] + Sum(AllSizes()[Sum(PerChunk()[..c])..i])
    }

    lemma ChunksAreStored()
      requires StscOk()
      ensures |PerChunk()| == |stco|
      ensures forall e | 0 <= e <= |stsc| ::
        Total(ChunkRuns()[..e]) == if e < |stsc| then stsc[e].firstChunk - 1 else |stco|
    {
      ExpandLength(ChunkRuns());
      TotalsUpTo(|stsc|);
      assert ChunkRuns()[..|stsc|] == ChunkRuns();
    }

    lemma {:induction false} TotalsUpTo(n: nat)
      requires StscOk() && n <= |stsc|
      ensures forall e | 0 <= e <= n :: Total(ChunkRuns()[..e]) == if e < |stsc| then stsc[e].firstChunk - 1 else |stco|
    {
      if n > 0 {
        TotalsUpTo(n - 1);
        PrefixStep(ChunkRuns(), n - 1);
      }
    }

    /** The last sync sample no later than i among the first n entries, or 2^32-1. */
    function PrevSync(i: nat, n: nat): nat
      requires n <= |stss|
    {
      if n == 0 then TWO32 - 1
      else if stss[n - 1] <= i + 1 then Wrap32(stss[n - 1] as int - 1)
      else PrevSync(i, n - 1)
    }
  }

  /** Tables of one track: 32-bit counters and 64-bit time sums do not wrap, sync samples are
      increasing, and stsc, stco and stsz agree on the number of samples. */
  ghost predicate WellFormed(t: Tables) {
    && 0 < t.sampleNum < TWO32
    && Total(t.stts) < TWO32 && Weight(t.stts) + t.dtsOffset < TWO64
    && Total(t.ctts) < TWO32
    && (forall i | 0 <= i < |t.stss| :: 0 < t.stss[i] < TWO32)
    && (forall i, j | 0 <= i < j < |t.stss| :: t.stss[i] < t.stss[j])
    && t.Consistent()
  }

  const ONE_SAMPLE := Tables(1, 0, [], [], [StscEntry(1, 1, 1)], 1, [], [0], [])

  lemma OneSampleIsWellFormed()
    ensures WellFormed(ONE_SAMPLE)
  {
    assert ONE_SAMPLE.ChunkRuns() == [Run(1, 1)];
  }

  // ---------------------------------------------------------------- time to sample

  /** The answer is the greatest sample whose decode time is not after the query, for every time
      past the track's offset and before its end. */
  lemma SampleAtIsGreatest(t: Tables, time: nat)
    requires t.dtsOffset < time < t.dtsOffset + Sum(Expand(t.stts))
    ensures var r := t.SampleAt(time);
      && r < |Expand(t.stts)| && t.Dts(r) <= time
      && forall j | r < j < |Expand(t.stts)| :: time < t.Dts(j)
  {
    var s, d := Expand(t.stts), time - t.dtsOffset;
    var r := t.SampleAt(time);
    forall j | r < j < |s| ensures time < t.Dts(j) {
      SumMonotone(s, r + 1, j);
    }
  }

  /** Where durations are positive, time-to-sample inverts sample-to-time. */
  lemma SampleAtInverts(t: Tables, i: nat)
    requires i < |Expand(t.stts)| && Expand(t.stts)[i] > 0
    ensures t.SampleAt(t.Dts(i)) == if Sum(Expand(t.stts)[..i]) == 0 then 0 else i
    ensures (forall j | 0 <= j < i :: Expand(t.stts)[j] > 0) ==> t.SampleAt(t.Dts(i)) == i
  {
    var s := Expand(t.stts);
    SumTakeNext(s, i);
    LocateIs(s, Sum(s[..i]), i);
    if i > 0 && s[0] > 0 { SumTakeNext(s, 0); SumMonotone(s, 1, i); }
  }
}
