/** The sample lookups of src/mp4_stream.c.  Every table keeps a cursor of its last search; a query
    resumes there, or restarts from the first entry when it lies before the cursor.  The stts cursor
    is shared by three different queries. */
module SampleReader {
  import opened RunLength
  import opened SampleTables
  import opened TimeScale

  /** Last search info of box_data_tbl_t. */
  datatype Cursor = Cursor(sampleIdx0: nat, entryIdx: nat, accVal: nat)

  const START := Cursor(0, 0, 0)

  type TrackTables = t: Tables | WellFormed(t)
    ghost witness (OneSampleIsWellFormed(); ONE_SAMPLE)

  class Stream {
    const t: TrackTables
    var sttsAt: Cursor
    var cttsAt: Cursor
    var stscAt: Cursor
    var stssAt: Cursor

    /** The cursor of a count/value table points at a run boundary. */
    ghost predicate AtRun(c: Cursor, rs: seq<Run>) {
      c.entryIdx <= |rs| && c.sampleIdx0 == Total(rs[..c.entryIdx])
    }

    ghost predicate AtTimedRun(c: Cursor, rs: seq<Run>) {
      AtRun(c, rs) && c.accVal == Weight(rs[..c.entryIdx])
    }

    ghost predicate AtChunkRun(c: Cursor) {
      c.entryIdx < |t.stsc| && c.sampleIdx0 == Weight(t.ChunkRuns()[..c.entryIdx])
    }

    /** The stss cursor starts with zeros, not with the first entry of the table. */
    ghost predicate AtSync(c: Cursor) {
      t.stss != [] ==>
        && c.entryIdx < |t.stss|
        && (c.sampleIdx0 + 1 == t.stss[c.entryIdx] || Unsearched(c))
    }

    ghost predicate Unsearched(c: Cursor) { c.entryIdx == 0 && c.sampleIdx0 == 0 }

    ghost predicate Valid()
      reads this
    {
      AtTimedRun(sttsAt, t.stts) && AtRun(cttsAt, t.ctts) && AtChunkRun(stscAt) && AtSync(stssAt)
    }

    constructor (tables: TrackTables)
      ensures Valid() && t == tables
      ensures sttsAt == cttsAt == stscAt == stssAt == START
    {
      t := tables;
      sttsAt, cttsAt, stscAt, stssAt := START, START, START, START;
    }

    // -------------------------------------------------------------- stts and ctts

    lemma AtFirst(rs: seq<Run>)
      ensures AtRun(START, rs) && AtTimedRun(START, rs)
    {
    }

    /** sample_cts_offset */
    method SampleCtsOffset(sampleIdx: nat) returns (r: nat)
      requires Valid()
      modifies `cttsAt
      ensures Valid() && r == t.CtsOffset(t.Clamp(sampleIdx))
    {
      hide Expand, Sum, Total, Weight, WellFormed;
      var i := t.Clamp(sampleIdx);
      ExpandLength(t.ctts);
      if i < cttsAt.sampleIdx0 { cttsAt := START; }
      AtFirst(t.ctts);
      while cttsAt.entryIdx < |t.ctts|
        invariant AtRun(cttsAt, t.ctts) && cttsAt.sampleIdx0 <= i
        decreases |t.ctts| - cttsAt.entryIdx
      {
        var run := t.ctts[cttsAt.entryIdx];
        PrefixStep(t.ctts, cttsAt.entryIdx);
        if i < cttsAt.sampleIdx0 + run.count {
          RunItem(t.ctts, cttsAt.entryIdx, i - cttsAt.sampleIdx0);
          return run.value;
        }
        cttsAt := Cursor(cttsAt.sampleIdx0 + run.count, cttsAt.entryIdx + 1, cttsAt.accVal);
      }
      assert t.ctts[..|t.ctts|] == t.ctts;
      return 0;
    }

    /** stream_get_sample_idx */
    method SampleIdx(startTime: nat) returns (r: nat)
      requires Valid()
      modifies `sttsAt
      ensures Valid() && r == t.SampleAt(startTime)
    {
      hide Expand, Sum, Total, Weight, Wrap32;
      if startTime <= t.dtsOffset { return 0; }
      var time := startTime - t.dtsOffset;
      ExpandSum(t.stts);
      if time < sttsAt.accVal { sttsAt := START; }
      AtFirst(t.stts);
      while sttsAt.entryIdx < |t.stts|
        invariant AtTimedRun(sttsAt, t.stts) && sttsAt.accVal <= time
        decreases |t.stts| - sttsAt.entryIdx
      {
        var run := t.stts[sttsAt.entryIdx];
        var valNext := sttsAt.accVal + run.count * run.value;
        PrefixStep(t.stts, sttsAt.entryIdx);
        if time < valNext {
          LocateInRun(t.stts, sttsAt.entryIdx, time);
          var d := time - sttsAt.accVal;
          DivMod(d, run.value);
          return sttsAt.sampleIdx0 + d / run.value;
        }
        sttsAt := Cursor(sttsAt.sampleIdx0 + run.count, sttsAt.entryIdx + 1, valNext);
      }
      assert t.stts[..|t.stts|] == t.stts;
      return Wrap32(t.sampleNum - 1);
    }

    /** The search that timing and duration share: moves the stts cursor to the run of sample i, or behind
        the table. */
    method SeekTimedRun(i: nat) returns (found: bool)
      requires AtTimedRun(sttsAt, t.stts)
      modifies `sttsAt
      ensures AtTimedRun(sttsAt, t.stts) && |Expand(t.stts)| == Total(t.stts) && (found <==> i < |Expand(t.stts)|)
      ensures found ==>
        sttsAt.entryIdx < |t.stts|
        && sttsAt.sampleIdx0 <= i < sttsAt.sampleIdx0 + t.stts[sttsAt.entryIdx].count
    {
      hide Expand, Sum, Total, Weight, WellFormed;
      ExpandLength(t.stts);
      if i < sttsAt.sampleIdx0 { sttsAt := START; }
      AtFirst(t.stts);
      while sttsAt.entryIdx < |t.stts|
        invariant AtTimedRun(sttsAt, t.stts) && sttsAt.sampleIdx0 <= i
        decreases |t.stts| - sttsAt.entryIdx
      {
        var run := t.stts[sttsAt.entryIdx];
        PrefixStep(t.stts, sttsAt.entryIdx);
        PrefixMonotone(t.stts, sttsAt.entryIdx + 1);
        if i < sttsAt.sampleIdx0 + run.count { return true; }
        sttsAt := Cursor(sttsAt.sampleIdx0 + run.count, sttsAt.entryIdx + 1, sttsAt.accVal + run.count * run.value);
      }
      assert t.stts[..|t.stts|] == t.stts;
      return false;
    }

    /** stream_get_sample_timing */
    method SampleTiming(sampleIdx: nat) returns (dts: nat, ctsOffset: nat)
      requires Valid()
      modifies `sttsAt, `cttsAt
      ensures Valid() && dts == t.Dts(t.Clamp(sampleIdx))
      ensures ctsOffset == if t.Clamp(sampleIdx) < |Expand(t.stts)| then t.CtsOffset(t.Clamp(sampleIdx)) else 0
    {
      hide Expand, Sum, Total, Weight, WellFormed;
      var i := t.Clamp(sampleIdx);
      var found := SeekTimedRun(i);
      if !found { return TWO64 - 1, 0; }
      var run := t.stts[sttsAt.entryIdx];
      RunItem(t.stts, sttsAt.entryIdx, i - sttsAt.sampleIdx0);
      dts := sttsAt.accVal + (i - sttsAt.sampleIdx0) * run.value;
      ctsOffset := SampleCtsOffset(i);
      return dts + t.dtsOffset, ctsOffset;
    }

    /** stream_get_sample_duration */
    method SampleDuration(sampleIdx: nat) returns (r: nat)
      requires Valid()
      modifies `sttsAt
      ensures Valid() && r == t.Duration(t.Clamp(sampleIdx))
    {
      hide Expand, Sum, Total, Weight, WellFormed;
      var i := t.Clamp(sampleIdx);
      var found := SeekTimedRun(i);
      if !found { return TWO32 - 1; }
      RunItem(t.stts, sttsAt.entryIdx, i - sttsAt.sampleIdx0);
      return t.stts[sttsAt.entryIdx].value;
    }

    // -------------------------------------------------------------- stsz, stsc and stco

    /** stream_get_sample_size, for stsz */
    method SampleSize(sampleIdx: nat) returns (r: nat)
      requires Valid()
      ensures r == t.Size(t.Clamp(sampleIdx))
    {
      var i := t.Clamp(sampleIdx);
      r := t.fixedSize;
      if r == 0 && i < |t.sizes| { r := t.sizes[i]; }
    }

    /** What one step over stsc entry e adds. */
    lemma ChunkRunStep(e: nat)
      requires e < |t.stsc|
      ensures Total(t.ChunkRuns()[..e]) == t.stsc[e].firstChunk - 1 && t.stsc[e].firstChunk > 0
      ensures Weight(t.ChunkRuns()[..e + 1]) == Weight(t.ChunkRuns()[..e]) + t.ChunkCount(e) * t.stsc[e].samplesPerChunk
      ensures e + 1 == |t.stsc| ==> Weight(t.ChunkRuns()[..e + 1]) == t.sampleNum
    {
      t.ChunksAreStored();
      PrefixStep(t.ChunkRuns(), e);
      if e + 1 == |t.stsc| { assert t.ChunkRuns()[..e + 1] == t.ChunkRuns(); }
    }

    lemma NoRuns()
      ensures AtChunkRun(START)
    {
    }

    /** Moves the stsc cursor to the entry holding sample i. */
    method SeekChunkRun(i: nat) returns (firstChunk: nat)
      requires AtChunkRun(stscAt) && i < t.sampleNum
      modifies `stscAt
      ensures AtChunkRun(stscAt) && stscAt.sampleIdx0 <= i
      ensures i < Weight(t.ChunkRuns()[..stscAt.entryIdx + 1])
      ensures firstChunk == t.stsc[stscAt.entryIdx].firstChunk - 1
    {
      hide Total, Weight, Expand, Sum;
      NoRuns();
      if i < stscAt.sampleIdx0 { stscAt := START; }
      ChunkRunStep(stscAt.entryIdx);
      var firstNext := t.stsc[stscAt.entryIdx].firstChunk - 1;
      while true
        invariant AtChunkRun(stscAt) && stscAt.sampleIdx0 <= i
        invariant 0 <= firstNext == t.stsc[stscAt.entryIdx].firstChunk - 1
        decreases |t.stsc| - stscAt.entryIdx
      {
        var e := stscAt.entryIdx;
        firstChunk := firstNext;
        ChunkRunStep(e);
        if e == |t.stsc| - 1 { return; }
        firstNext := t.stsc[e + 1].firstChunk - 1;
        assert firstNext - firstChunk == t.ChunkCount(e);
        var next := stscAt.sampleIdx0 + (firstNext - firstChunk) * t.stsc[e].samplesPerChunk;
        if i < next { return; }
        stscAt := Cursor(next, e + 1, stscAt.accVal);
      }
    }

    /** The bytes of samples first..i-1, the offset of sample i inside its chunk. */
    method BytesBetween(first: nat, i: nat) returns (bytes: nat)
      requires Valid() && first <= i <= t.sampleNum
      ensures bytes == Sum(t.AllSizes()[first..i])
    {
      bytes := 0;
      if t.fixedSize != 0 {
        assert t.AllSizes()[first..i] == Repeat(t.fixedSize, i - first);
        SumRepeat(t.fixedSize, i - first);
        return (i - first) * t.fixedSize;
      }
      var j := first;
      while j < i
        invariant first <= j <= i
        invariant bytes == Sum(t.AllSizes()[first..j])
      {
        var size := SampleSize(j);
        assert t.AllSizes()[first..j + 1][..j - first] == t.AllSizes()[first..j];
        bytes := bytes + size;
        j := j + 1;
      }
    }

    /** Splits a sample's place in its run of equal chunks into chunk and place in the chunk. */
    lemma ChunkFromRun(e: nat, i: nat)
      requires e < |t.stsc| && i < t.sampleNum
      requires Weight(t.ChunkRuns()[..e]) <= i < Weight(t.ChunkRuns()[..e + 1])
      ensures t.stsc[e].samplesPerChunk > 0
      ensures var d, v := i - Weight(t.ChunkRuns()[..e]), t.stsc[e].samplesPerChunk;
        && t.ChunkOf(i) == Total(t.ChunkRuns()[..e]) + d / v
        && d / v < t.ChunkCount(e)
        && Sum(t.PerChunk()[..t.ChunkOf(i)]) == i - d % v
    {
      hide Total, Weight, Sum, Locate, Expand;
      PrefixStep(t.ChunkRuns(), e);
      LocateInRun(t.ChunkRuns(), e, i);
      DivideInside(i - Weight(t.ChunkRuns()[..e]), t.stsc[e].samplesPerChunk, t.ChunkCount(e));
    }

    lemma OffsetParts(i: nat, c: nat, first: nat)
      requires i < t.sampleNum && c == t.ChunkOf(i) && first == Sum(t.PerChunk()[..c])
      ensures c < |t.stco| && first <= i && t.Offset(i) == t.stco[c] + Sum(t.AllSizes()[first..i])
    {
      t.ChunksAreStored();
    }

    /** The chunk of sample i, the sample's place in it, and the chunk's sample description. */
    method FindChunk(i: nat) returns (chunkIdx: nat, inChunk: nat, descIndex: nat)
      requires AtChunkRun(stscAt) && i < t.sampleNum
      modifies `stscAt
      ensures AtChunkRun(stscAt)
      ensures chunkIdx == t.ChunkOf(i) && inChunk <= i && i - inChunk == Sum(t.PerChunk()[..chunkIdx])
      ensures exists e | 0 <= e < |t.stsc| :: t.Covers(e, chunkIdx) && descIndex == t.stsc[e].descIndex
    {
      var firstChunk := SeekChunkRun(i);
      var e := stscAt.entryIdx;
      ChunkFromRun(e, i);
      ChunkRunStep(e);
      var samplesPerChunk := t.stsc[e].samplesPerChunk;
      descIndex := t.stsc[e].descIndex;
      var d := i - stscAt.sampleIdx0;
      DivMod(d, samplesPerChunk);
      var inRun := d / samplesPerChunk;
      chunkIdx := firstChunk + inRun;
      inChunk := d - inRun * samplesPerChunk;
      assert t.Covers(e, chunkIdx);
    }

    /** stream_get_sample_offset */
    method SampleOffset(sampleIdx: nat) returns (offset: nat, descIndex: nat)
      requires Valid()
      modifies `stscAt
      ensures Valid()
      ensures t.Clamp(sampleIdx) < t.sampleNum && offset == t.Offset(t.Clamp(sampleIdx))
      ensures exists e | 0 <= e < |t.stsc| ::
        t.Covers(e, t.ChunkOf(t.Clamp(sampleIdx))) && descIndex == t.stsc[e].descIndex
    {
      var i := t.Clamp(sampleIdx);
      var chunkIdx, inChunk;
      chunkIdx, inChunk, descIndex := FindChunk(i);
      OffsetParts(i, chunkIdx, i - inChunk);
      var inBytes := BytesBetween(i - inChunk, i);
      offset := t.stco[chunkIdx] + inBytes;
    }

    // -------------------------------------------------------------- stss

    /** The cursor stands in front of a table whose first entry is not sample 0, and a search for sample i does
        not get past the first entry. */
    ghost predicate Stuck(c: Cursor, i: nat) {
      t.stss != [] && Unsearched(c) && t.stss[0] > 1 && (|t.stss| == 1 || i < t.stss[1] - 1)
    }

    /** stream_get_prev_sync_sample_idx.  The answer is the stateless one except from an unsearched
        cursor, when the first sample is not a sync sample and the query lies before the second
        entry: then it is 0, and the cursor stays as it is. */
    method PrevSyncSampleIdx(sampleIdx: nat) returns (r: nat)
      requires Valid()
      modifies `stssAt
      ensures Valid()
      ensures t.stss == [] ==> r == t.Clamp(sampleIdx)
      ensures t.stss != [] ==>
        (r == t.PrevSync(t.Clamp(sampleIdx), |t.stss|) <==> !Stuck(old(stssAt), t.Clamp(sampleIdx)))
      ensures Stuck(old(stssAt), t.Clamp(sampleIdx)) ==> r == 0
      ensures t.stss != [] && t.stss[0] > 1 ==> (Unsearched(stssAt) <==> Stuck(old(stssAt), t.Clamp(sampleIdx)))
    {
      var i := t.Clamp(sampleIdx);
      if |t.stss| == 0 { return i; }
      if i < stssAt.sampleIdx0 { stssAt := Cursor(t.stss[0] - 1, 0, stssAt.accVal); }
      ghost var c0 := stssAt;
      while stssAt.entryIdx < |t.stss| - 1
        invariant AtSync(stssAt) && c0.entryIdx <= stssAt.entryIdx
        invariant stssAt.entryIdx > c0.entryIdx ==> stssAt.sampleIdx0 == t.stss[stssAt.entryIdx] - 1 <= i
        invariant stssAt.entryIdx == c0.entryIdx ==> stssAt == c0
        decreases |t.stss| - stssAt.entryIdx
      {
        var number := t.stss[stssAt.entryIdx + 1] - 1;
        if i < number { break; }
        stssAt := Cursor(number, stssAt.entryIdx + 1, stssAt.accVal);
      }
      PrevSyncIs(i, stssAt.entryIdx, |t.stss|);
      return if i < stssAt.sampleIdx0 then TWO32 - 1 else stssAt.sampleIdx0;
    }

    /** Scanning backwards from any entry past i finds entry e, or nothing when even entry 0 is past i. */
    lemma {:induction false} PrevSyncIs(i: nat, e: nat, n: nat)
      requires e < n <= |t.stss|
      requires e + 1 < |t.stss| ==> i < t.stss[e + 1] - 1
      requires t.stss[e] - 1 <= i || e == 0
      ensures t.PrevSync(i, n) == if t.stss[e] - 1 <= i then t.stss[e] - 1 else TWO32 - 1
      decreases n
    {
      if n > e + 1 { PrevSyncIs(i, e, n - 1); }
    }
  }
}
