/** Samples as they are given to the muxer, the chunks they are grouped into, and what a chunk list
    says about the samples. */
module Samples {
  import opened RunLength
  import opened TimeScale

  type Byte = b: int | 0 <= b < 256

  /** `newDesc` and `sync` are the SAMPLE_NEW_SD and SAMPLE_SYNC flags. */
  datatype Sample = Sample(data: seq<Byte>, dts: nat, cts: nat, duration: nat, newDesc: bool, sync: bool)
  {
    function Size(): nat { |data| }
  }

  /** chunk_t: `idx` is the 1-based number of the first sample. */
  datatype Chunk = Chunk(idx: nat, dts: nat, offset: nat, sampleNum: nat, size: nat, descIndex: nat)

  function Sizes(ss: seq<Sample>): (r: seq<nat>)
    ensures |r| == |ss| && forall i | 0 <= i < |ss| :: r[i] == ss[i].Size()
  {
    seq(|ss|, i requires 0 <= i < |ss| => ss[i].Size())
  }

  /** The bytes of the samples, one after the other. */
  function Bytes(ss: seq<Sample>): seq<Byte> {
    if ss == [] then [] else Bytes(ss[..|ss| - 1]) + ss[|ss| - 1].data
  }

  /** How many samples open a new sample description. */
  function NewDescs(ss: seq<Sample>): nat {
    if ss == [] then 0 else NewDescs(ss[..|ss| - 1]) + if ss[|ss| - 1].newDesc then 1 else 0
  }

  /** The samples that open a description, counted. */
  lemma {:induction false} NewDescsCount(ss: seq<Sample>)
    ensures NewDescs(ss) == |set i | 0 <= i < |ss| && ss[i].newDesc|
  {
    var all := set i | 0 <= i < |ss| && ss[i].newDesc;
    if ss == [] {
      assert all == {};
    } else {
      var n := |ss| - 1;
      var before := set i | 0 <= i < n && ss[..n][i].newDesc;
      NewDescsCount(ss[..n]);
      assert all == before + if ss[n].newDesc then {n} else {};
    }
  }

  ghost predicate NonDecreasing(ss: seq<Sample>) {
    forall i, j | 0 <= i < j < |ss| :: ss[i].dts <= ss[j].dts
  }

  lemma {:induction false} BytesConcat(a: seq<Sample>, b: seq<Sample>)
    ensures Bytes(a + b) == Bytes(a) + Bytes(b)
    decreases |b|
  {
    if b == [] {
      assert a + b == a;
    } else {
      assert (a + b)[..|a + b| - 1] == a + b[..|b| - 1];
      BytesConcat(a, b[..|b| - 1]);
    }
  }

  lemma {:induction false} BytesLength(ss: seq<Sample>)
    ensures |Bytes(ss)| == Sum(Sizes(ss))
  {
    if ss != [] {
      assert Sizes(ss)[..|ss| - 1] == Sizes(ss[..|ss| - 1]);
      BytesLength(ss[..|ss| - 1]);
    }
  }

  lemma AppendStep(ss: seq<Sample>, s: Sample)
    ensures Bytes(ss + [s]) == Bytes(ss) + s.data
    ensures NewDescs(ss + [s]) == NewDescs(ss) + if s.newDesc then 1 else 0
    ensures Sizes(ss + [s]) == Sizes(ss) + [s.Size()]
    ensures Sum(Sizes(ss + [s])) == Sum(Sizes(ss)) + s.Size()
  {
    assert (ss + [s])[..|ss|] == ss;
    assert (Sizes(ss) + [s.Size()])[..|ss|] == Sizes(ss);
  }

  // ---------------------------------------------------------------- chunks

  /** How a track groups samples: scales, the interleaving span (0 for none) and the size limit. */
  datatype Grouping = Grouping(movieScale: nat, mediaScale: nat, span: nat, maxSize: nat)

  function First(ch: Chunk): int { ch.idx - 1 }

  function End(ch: Chunk): int { ch.idx - 1 + ch.sampleNum }

  /** Chunk ch groups the samples ss[First..End]: they share one description, and there is only one
      of them when the chunk is over the size limit. */
  ghost predicate IsChunk(maxSize: nat, ss: seq<Sample>, ch: Chunk) {
    && 0 <= First(ch) < End(ch) <= |ss|
    && ch.size == Sum(Sizes(ss[First(ch)..End(ch)]))
    && ch.descIndex == NewDescs(ss[..First(ch) + 1])
    && (forall j | First(ch) < j < End(ch) :: !ss[j].newDesc)
    && (ch.size > maxSize ==> ch.sampleNum == 1)
  }

  /** The chunks cut the samples into consecutive groups. */
  ghost predicate AreChunks(maxSize: nat, ss: seq<Sample>, cs: seq<Chunk>) {
    && (forall c | 0 <= c < |cs| :: IsChunk(maxSize, ss, cs[c]))
    && (|cs| == 0 <==> |ss| == 0)
    && (|cs| > 0 ==> First(cs[0]) == 0 && End(cs[|cs| - 1]) == |ss|)
    && (forall b, c | 0 <= b && c == b + 1 && c < |cs| :: First(cs[c]) == End(cs[b]))
  }

  ghost predicate InBounds(ss: seq<Sample>, cs: seq<Chunk>) {
    forall c | 0 <= c < |cs| :: 0 <= First(cs[c]) < End(cs[c]) <= |ss|
  }

  /** A chunk carries the decode time of its first sample in the movie's time scale. */
  ghost predicate ChunkTimes(g: Grouping, ss: seq<Sample>, cs: seq<Chunk>)
    requires g.mediaScale > 0 && InBounds(ss, cs)
  {
    forall c | 0 <= c < |cs| :: cs[c].dts == Rescale(ss[First(cs[c])].dts, g.movieScale, g.mediaScale)
  }

  /** x is a multiple of the span. */
  ghost predicate Aligned(x: nat, span: nat) {
    exists k: nat :: x == k * span
  }

  /** Both times lie in one span-long window that starts at a multiple of the span. */
  ghost predicate InOneWindow(span: nat, lo: nat, hi: nat) {
    exists w: nat :: Aligned(w, span) && w <= lo < w + span && w <= hi < w + span
  }

  /** With interleaving, for decode times in order, each chunk lies in one window. */
  ghost predicate ChunkWindows(span: nat, ss: seq<Sample>, cs: seq<Chunk>)
    requires InBounds(ss, cs)
  {
    span > 0 && NonDecreasing(ss) ==>
      forall c | 0 <= c < |cs| :: InOneWindow(span, ss[First(cs[c])].dts, ss[End(cs[c]) - 1].dts)
  }

  /** All samples of a chunk share one sample description. */
  lemma {:induction false} OneDescription(maxSize: nat, ss: seq<Sample>, ch: Chunk, j: nat)
    requires IsChunk(maxSize, ss, ch) && First(ch) <= j < End(ch)
    ensures NewDescs(ss[..j + 1]) == ch.descIndex
    decreases j
  {
    if j > First(ch) {
      assert ss[..j + 1][..j] == ss[..j];
      OneDescription(maxSize, ss, ch, j - 1);
    }
  }

  /** And, by ChunkWindows, any two of them lie in one window of the span. */
  lemma OneWindow(span: nat, ss: seq<Sample>, cs: seq<Chunk>, c: nat, i: nat, j: nat)
    requires InBounds(ss, cs) && ChunkWindows(span, ss, cs) && span > 0 && NonDecreasing(ss)
    requires c < |cs| && First(cs[c]) <= i < End(cs[c]) && First(cs[c]) <= j < End(cs[c])
    ensures InOneWindow(span, ss[i].dts, ss[j].dts)
  {
    var first, last := First(cs[c]), End(cs[c]) - 1;
    assert ss[first].dts <= ss[i].dts <= ss[last].dts && ss[first].dts <= ss[j].dts <= ss[last].dts;
  }

  /** A prefix of the samples keeps its chunks when more samples arrive. */
  lemma IsChunkGrows(maxSize: nat, ss: seq<Sample>, s: Sample, ch: Chunk)
    requires IsChunk(maxSize, ss, ch)
    ensures IsChunk(maxSize, ss + [s], ch)
  {
    var ss' := ss + [s];
    assert ss'[First(ch)..End(ch)] == ss[First(ch)..End(ch)];
    assert ss'[..First(ch) + 1] == ss[..First(ch) + 1];
  }

  /** The last chunk with one more sample. */
  function Extended(ch: Chunk, s: Sample): Chunk {
    ch.(size := ch.size + s.Size(), sampleNum := ch.sampleNum + 1)
  }

  lemma ExtendedIsChunk(maxSize: nat, ss: seq<Sample>, ch: Chunk, s: Sample)
    requires IsChunk(maxSize, ss, ch) && End(ch) == |ss|
    requires !s.newDesc && ch.size + s.Size() <= maxSize
    ensures IsChunk(maxSize, ss + [s], Extended(ch, s))
  {
    var ss' := ss + [s];
    assert ss'[First(ch)..|ss'|] == ss[First(ch)..|ss|] + [s];
    AppendStep(ss[First(ch)..|ss|], s);
    assert ss'[..First(ch) + 1] == ss[..First(ch) + 1];
  }

  lemma JoinsLast(maxSize: nat, ss: seq<Sample>, cs: seq<Chunk>, s: Sample)
    requires AreChunks(maxSize, ss, cs) && cs != []
    requires !s.newDesc && cs[|cs| - 1].size + s.Size() <= maxSize
    ensures AreChunks(maxSize, ss + [s], cs[|cs| - 1 := Extended(cs[|cs| - 1], s)])
  {
    var n := |cs| - 1;
    ExtendedIsChunk(maxSize, ss, cs[n], s);
    forall c | 0 <= c < n ensures IsChunk(maxSize, ss + [s], cs[c]) {
      IsChunkGrows(maxSize, ss, s, cs[c]);
    }
  }

  lemma SingleIsChunk(maxSize: nat, ss: seq<Sample>, s: Sample, ch: Chunk)
    requires ch.idx == |ss| + 1 && ch.sampleNum == 1 && ch.size == s.Size()
    requires ch.descIndex == NewDescs(ss + [s])
    ensures IsChunk(maxSize, ss + [s], ch)
  {
    var ss' := ss + [s];
    assert ss'[..First(ch) + 1] == ss';
    assert ss'[First(ch)..End(ch)] == [s];
    assert Sizes([s])[..0] == [];
  }

  lemma OpensChunk(maxSize: nat, ss: seq<Sample>, cs: seq<Chunk>, s: Sample, ch: Chunk)
    requires AreChunks(maxSize, ss, cs)
    requires ch.idx == |ss| + 1 && ch.sampleNum == 1 && ch.size == s.Size()
    requires ch.descIndex == NewDescs(ss + [s])
    ensures AreChunks(maxSize, ss + [s], cs + [ch])
  {
    hide IsChunk, NewDescs;
    SingleIsChunk(maxSize, ss, s, ch);
    forall c | 0 <= c < |cs| ensures IsChunk(maxSize, ss + [s], cs[c]) {
      IsChunkGrows(maxSize, ss, s, cs[c]);
    }
  }

  // ---------------------------------------------------------------- time windows

  lemma AlignedNext(x: nat, span: nat)
    requires Aligned(x, span)
    ensures Aligned(x + span, span)
  {
    var k: nat :| x == k * span;
    assert x + span == (k + 1) * span;
  }

  lemma AlignedFloor(x: nat, span: nat)
    requires span > 0
    ensures Aligned(x / span * span, span) && x / span * span <= x < (x / span + 1) * span
    ensures (x / span + 1) * span == x / span * span + span
  {
    assert x == x / span * span + x % span;
  }

  lemma AloneInWindow(span: nat, x: nat)
    requires span > 0
    ensures InOneWindow(span, x, x)
  {
    AlignedFloor(x, span);
  }

  lemma PrefixInOrder(ss: seq<Sample>, s: Sample)
    requires NonDecreasing(ss + [s])
    ensures NonDecreasing(ss) && forall i | 0 <= i < |ss| :: ss[i].dts <= s.dts
  {
    assert forall i | 0 <= i < |ss| :: (ss + [s])[i] == ss[i];
    assert (ss + [s])[|ss|] == s;
  }

  /** A sample joining below the window top keeps the last chunk inside the window. */
  lemma WindowsJoin(span: nat, ss: seq<Sample>, cs: seq<Chunk>, s: Sample, w: nat)
    requires InBounds(ss, cs) && ChunkWindows(span, ss, cs) && cs != [] && End(cs[|cs| - 1]) == |ss|
    requires span > 0 ==> Aligned(w, span) && s.dts < w + span
    requires span > 0 && NonDecreasing(ss) ==> w <= ss[First(cs[|cs| - 1])].dts
    ensures ChunkWindows(span, ss + [s], cs[|cs| - 1 := Extended(cs[|cs| - 1], s)])
  {
    if span > 0 && NonDecreasing(ss + [s]) {
      PrefixInOrder(ss, s);
    }
  }

  lemma WindowsOpen(span: nat, ss: seq<Sample>, cs: seq<Chunk>, s: Sample, ch: Chunk)
    requires InBounds(ss, cs) && ChunkWindows(span, ss, cs)
    requires ch.idx == |ss| + 1 && ch.sampleNum == 1
    ensures ChunkWindows(span, ss + [s], cs + [ch])
  {
    if span > 0 && NonDecreasing(ss + [s]) {
      PrefixInOrder(ss, s);
      AloneInWindow(span, s.dts);
    }
  }

  /** The chunk list describes the samples: groups, windows and movie times. */
  ghost predicate GoodChunks(g: Grouping, ss: seq<Sample>, cs: seq<Chunk>) {
    && g.mediaScale > 0
    && AreChunks(g.maxSize, ss, cs) && ChunkWindows(g.span, ss, cs) && ChunkTimes(g, ss, cs)
  }

  /** A window that ends at or before the top and does not start after the last chunk. */
  ghost predicate OpenWindow(span: nat, ss: seq<Sample>, cs: seq<Chunk>, w: nat)
    requires InBounds(ss, cs) && cs != []
  {
    Aligned(w, span) && (NonDecreasing(ss) ==> w <= ss[First(cs[|cs| - 1])].dts)
  }

  function Joined(cs: seq<Chunk>, s: Sample): seq<Chunk>
    requires cs != []
  {
    cs[|cs| - 1 := Extended(cs[|cs| - 1], s)]
  }

  lemma GoodJoin(g: Grouping, ss: seq<Sample>, cs: seq<Chunk>, s: Sample, w: nat)
    requires GoodChunks(g, ss, cs) && cs != []
    requires !s.newDesc && cs[|cs| - 1].size + s.Size() <= g.maxSize
    requires g.span > 0 ==> OpenWindow(g.span, ss, cs, w) && s.dts < w + g.span
    ensures GoodChunks(g, ss + [s], Joined(cs, s))
    ensures g.span > 0 ==> OpenWindow(g.span, ss + [s], Joined(cs, s), w)
  {
    hide IsChunk, NewDescs, Aligned, Rescale, ChunkWindows, ChunkTimes, NonDecreasing;
    ChunksInBounds(g.maxSize, ss, cs);
    JoinsLast(g.maxSize, ss, cs, s);
    ChunksInBounds(g.maxSize, ss + [s], Joined(cs, s));
    hide AreChunks, InBounds;
    WindowsJoin(g.span, ss, cs, s, w);
    TimesJoin(g, ss, cs, s);
    if g.span > 0 { WindowStays(g.span, ss, cs, s, w); }
  }

  lemma ChunksInBounds(maxSize: nat, ss: seq<Sample>, cs: seq<Chunk>)
    requires AreChunks(maxSize, ss, cs)
    ensures InBounds(ss, cs) && (cs != [] ==> End(cs[|cs| - 1]) == |ss|)
  {
  }

  lemma WindowStays(span: nat, ss: seq<Sample>, cs: seq<Chunk>, s: Sample, w: nat)
    requires InBounds(ss, cs) && cs != [] && OpenWindow(span, ss, cs, w) && InBounds(ss + [s], Joined(cs, s))
    ensures OpenWindow(span, ss + [s], Joined(cs, s), w)
  {
    hide Aligned;
    if NonDecreasing(ss + [s]) { PrefixInOrder(ss, s); }
  }

  lemma GoodOpen(g: Grouping, ss: seq<Sample>, cs: seq<Chunk>, s: Sample, ch: Chunk, w: nat)
    requires GoodChunks(g, ss, cs)
    requires ch.idx == |ss| + 1 && ch.sampleNum == 1 && ch.size == s.Size()
    requires ch.dts == Rescale(s.dts, g.movieScale, g.mediaScale) && ch.descIndex == NewDescs(ss + [s])
    requires g.span > 0 ==> Aligned(w, g.span) && (NonDecreasing(ss + [s]) ==> w <= s.dts)
    ensures GoodChunks(g, ss + [s], cs + [ch])
    ensures g.span > 0 ==> OpenWindow(g.span, ss + [s], cs + [ch], w)
  {
    OpensChunk(g.maxSize, ss, cs, s, ch);
    WindowsOpen(g.span, ss, cs, s, ch);
    TimesOpen(g, ss, cs, s, ch);
  }

  lemma TimesJoin(g: Grouping, ss: seq<Sample>, cs: seq<Chunk>, s: Sample)
    requires g.mediaScale > 0 && InBounds(ss, cs) && ChunkTimes(g, ss, cs) && cs != [] && End(cs[|cs| - 1]) == |ss|
    ensures ChunkTimes(g, ss + [s], Joined(cs, s))
  {
  }

  lemma TimesOpen(g: Grouping, ss: seq<Sample>, cs: seq<Chunk>, s: Sample, ch: Chunk)
    requires g.mediaScale > 0 && InBounds(ss, cs) && ChunkTimes(g, ss, cs)
    requires ch.idx == |ss| + 1 && ch.sampleNum == 1 && ch.dts == Rescale(s.dts, g.movieScale, g.mediaScale)
    ensures ChunkTimes(g, ss + [s], cs + [ch])
  {
  }
}
