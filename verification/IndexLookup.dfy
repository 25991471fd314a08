/** The tables written for a track, read back: every lookup finds what went into the muxer. */
module IndexLookup {
  import opened RunLength
  import opened Samples
  import opened SampleTables
  import TW = TableWriter
  import MW = MdatWriter

  // ---------------------------------------------------------------- stsc against the chunk list

  function SampleNums(cs: seq<Chunk>): (r: seq<nat>)
    ensures |r| == |cs| && forall c | 0 <= c < |cs| :: r[c] == cs[c].sampleNum
  {
    seq(|cs|, c requires 0 <= c < |cs| => cs[c].sampleNum)
  }

  /** The tables' stsc and stco describe the chunk list. */
  ghost predicate IndexesChunks(t: Tables, cs: seq<Chunk>) {
    cs != [] && |t.stco| == |cs| && TW.DescribesChunks(t.stsc, cs, |cs|)
  }

  lemma StscIsOk(t: Tables, cs: seq<Chunk>)
    requires IndexesChunks(t, cs)
    ensures t.StscOk()
    ensures forall e: nat, c: nat | e < |t.stsc| && t.Covers(e, c) && c < |cs| ::
      t.stsc[e].samplesPerChunk == cs[c].sampleNum && t.stsc[e].descIndex == cs[c].descIndex
  {
    forall e: nat, c: nat | e < |t.stsc| && t.Covers(e, c) && c < |cs|
      ensures t.stsc[e].samplesPerChunk == cs[c].sampleNum && t.stsc[e].descIndex == cs[c].descIndex
    {
      assert TW.InForce(t.stsc, |cs|, e, c);
    }
  }

  /** Some entry covers every chunk. */
  lemma {:induction false} SomeEntryCovers(t: Tables, c: nat, n: nat) returns (e: nat)
    requires t.StscOk() && 0 < n <= |t.stsc| && c < |t.stco|
    requires n < |t.stsc| ==> c < t.stsc[n].firstChunk - 1
    ensures e < n && t.Covers(e, c)
  {
    e := n - 1;
    if c < t.stsc[e].firstChunk - 1 { e := SomeEntryCovers(t, c, n - 1); }
  }

  /** Reading stsc back gives the number of samples of each chunk. */
  lemma PerChunkIs(t: Tables, cs: seq<Chunk>)
    requires IndexesChunks(t, cs) && t.StscOk()
    ensures t.PerChunk() == SampleNums(cs)
  {
    hide Expand, Total, Weight, TW.DescribesChunks;
    t.ChunksAreStored();
    StscIsOk(t, cs);
    forall c | 0 <= c < |cs| ensures t.PerChunk()[c] == cs[c].sampleNum {
      var e := SomeEntryCovers(t, c, |t.stsc|);
      RunItem(t.ChunkRuns(), e, c - (t.stsc[e].firstChunk - 1));
    }
  }

  /** The samples before chunk c are those of the earlier chunks. */
  lemma {:induction false} ChunkStarts(maxSize: nat, ss: seq<Sample>, cs: seq<Chunk>, c: nat)
    requires AreChunks(maxSize, ss, cs) && c <= |cs|
    ensures Sum(SampleNums(cs)[..c]) == if c == 0 then 0 else End(cs[c - 1])
    ensures c < |cs| ==> Sum(SampleNums(cs)[..c]) == First(cs[c])
  {
    hide IsChunk;
    if c > 0 {
      ChunkStarts(maxSize, ss, cs, c - 1);
      SumTakeNext(SampleNums(cs), c - 1);
    }
  }

  /** The chunk a sample belongs to. */
  lemma {:induction false} SomeChunkHolds(maxSize: nat, ss: seq<Sample>, cs: seq<Chunk>, i: nat, n: nat)
    returns (c: nat)
    requires AreChunks(maxSize, ss, cs) && 0 < n <= |cs| && i < End(cs[n - 1])
    ensures c < n && First(cs[c]) <= i < End(cs[c])
  {
    c := n - 1;
    if i < First(cs[c]) { c := SomeChunkHolds(maxSize, ss, cs, i, n - 1); }
  }

  /** The tables list the sizes of the samples and index the chunks they were grouped into. */
  ghost predicate Describes(t: Tables, maxSize: nat, ss: seq<Sample>, cs: seq<Chunk>) {
    && IndexesChunks(t, cs) && AreChunks(maxSize, ss, cs) && ss != []
    && t.sampleNum == |ss| && forall i | 0 <= i < |ss| :: t.Size(i) == ss[i].Size()
  }

  lemma SampleNumsSum(maxSize: nat, ss: seq<Sample>, cs: seq<Chunk>)
    requires AreChunks(maxSize, ss, cs)
    ensures Sum(SampleNums(cs)) == |ss|
  {
    ChunkStarts(maxSize, ss, cs, |cs|);
    assert SampleNums(cs)[..|cs|] == SampleNums(cs);
  }

  lemma DescribedIsConsistent(t: Tables, maxSize: nat, ss: seq<Sample>, cs: seq<Chunk>)
    requires Describes(t, maxSize, ss, cs) && (t.fixedSize == 0 ==> |t.sizes| == |ss|)
    ensures t.Consistent()
  {
    StscIsOk(t, cs);
    PerChunkIs(t, cs);
    ExpandSum(t.ChunkRuns());
    SampleNumsSum(maxSize, ss, cs);
  }

  lemma ChunkInBounds(maxSize: nat, ss: seq<Sample>, ch: Chunk)
    requires IsChunk(maxSize, ss, ch)
    ensures 0 <= First(ch) < End(ch) <= |ss|
  {
  }

  /** A lookup finds the sample's chunk and adds the sizes of the samples before it in the chunk. */
  lemma LookupOffset(t: Tables, maxSize: nat, ss: seq<Sample>, cs: seq<Chunk>, i: nat)
    requires Describes(t, maxSize, ss, cs) && t.Consistent() && i < |ss|
    ensures var c := t.ChunkOf(i);
      && c < |cs| && IsChunk(maxSize, ss, cs[c]) && First(cs[c]) <= i < End(cs[c])
      && t.Offset(i) == t.stco[c] + Sum(Sizes(ss[First(cs[c])..i]))
  {
    hide TW.DescribesChunks, Expand, Sum, Locate, IsChunk;
    PerChunkIs(t, cs);
    t.ChunksAreStored();
    var c := SomeChunkHolds(maxSize, ss, cs, i, |cs|);
    ChunkStarts(maxSize, ss, cs, c);
    ChunkStarts(maxSize, ss, cs, c + 1);
    LocateIs(t.PerChunk(), i, c);
    ChunkInBounds(maxSize, ss, cs[c]);
    assert t.AllSizes()[First(cs[c])..i] == Sizes(ss[First(cs[c])..i]);
  }

  /** The bytes of a sample inside the bytes of its chunk. */
  lemma SampleInChunk(ss: seq<Sample>, first: nat, i: nat, end: nat)
    requires first <= i < end <= |ss|
    ensures var at := Sum(Sizes(ss[first..i]));
      && at + ss[i].Size() <= |Bytes(ss[first..end])|
      && Bytes(ss[first..end])[at..at + ss[i].Size()] == ss[i].data
  {
    hide Sum, Bytes, Sizes;
    BytesLength(ss[first..i]);
    AppendStep(ss[first..i], ss[i]);
    assert ss[first..i] + [ss[i]] == ss[first..i + 1];
    assert ss[first..end] == ss[first..i + 1] + ss[i + 1..end];
    BytesConcat(ss[first..i + 1], ss[i + 1..end]);
  }

  lemma SubSlice<T>(s: seq<T>, a: nat, b: nat, x: nat, y: nat)
    requires a <= b <= |s| && x <= y <= b - a
    ensures s[a..b][x..y] == s[a + x..a + y]
  {
    var l, r := s[a..b][x..y], s[a + x..a + y];
    assert |l| == |r| && forall k | 0 <= k < |l| :: l[k] == r[k];
  }

  /** Main result for positions: where stco holds the full chunk offset, the looked-up range is the
      sample's data. */
  lemma LookupFindsBytes(t: Tables, out: MW.TrackOutput, bytes: seq<Byte>, i: nat)
    requires Describes(t, out.maxSize, out.samples, out.chunkLst) && t.Consistent() && i < |out.samples|
    requires out.Placed(bytes) && out.chunkToOut == |out.chunkLst|
    requires t.ChunkOf(i) < |out.chunkLst| ==> t.stco[t.ChunkOf(i)] == out.chunkLst[t.ChunkOf(i)].offset
    ensures t.Offset(i) + t.Size(i) <= |bytes|
    ensures bytes[t.Offset(i)..t.Offset(i) + t.Size(i)] == out.samples[i].data
  {
    hide AreChunks, TW.DescribesChunks, Bytes, Sum, Sizes;
    LookupOffset(t, out.maxSize, out.samples, out.chunkLst, i);
    var ch := out.chunkLst[t.ChunkOf(i)];
    SampleInChunk(out.samples, First(ch), i, End(ch));
    out.ChunkBytes(ch);
    assert out.ChunkAt(bytes, ch);
    var at := Sum(Sizes(out.samples[First(ch)..i]));
    assert at + t.Size(i) <= ch.size;
    SubSlice(bytes, ch.offset, ch.offset + ch.size, at, at + t.Size(i));
  }

  /** Main result for descriptions: the stsc entry covering the sample's chunk names the number of
      descriptions opened up to the sample. */
  lemma LookupFindsDescription(t: Tables, maxSize: nat, ss: seq<Sample>, cs: seq<Chunk>, i: nat, e: nat)
    requires Describes(t, maxSize, ss, cs) && t.Consistent() && i < |ss|
    requires e < |t.stsc| && t.Covers(e, t.ChunkOf(i))
    ensures t.stsc[e].descIndex == NewDescs(ss[..i + 1])
  {
    LookupOffset(t, maxSize, ss, cs, i);
    StscIsOk(t, cs);
    OneDescription(maxSize, ss, cs[t.ChunkOf(i)], i);
  }
}
