/** The looked-up sample ranges of all tracks together: they do not overlap and fill the payload of the
    media data box. */
module IndexTiling {
  import opened RunLength
  import opened Samples
  import opened SampleTables
  import opened IndexLookup
  import opened MergeSchedule
  import MW = MdatWriter

  /** The tables describe the track's chunks with their full offsets. */
  ghost predicate Indexed(out: MW.TrackOutput, t: Tables)
    reads out
  {
    && WellFormed(t) && Describes(t, out.maxSize, out.samples, out.chunkLst)
    && forall c | 0 <= c < |out.chunkLst| :: t.stco[c] == out.chunkLst[c].offset
  }

  /** File position p belongs to sample i. */
  ghost predicate Holds(t: Tables, i: nat, p: int)
    requires WellFormed(t)
  {
    i < t.sampleNum && t.Offset(i) <= p < t.Offset(i) + t.Size(i)
  }

  /** The sizes of the samples of a chunk, cut at sample i. */
  lemma SizesInside(ss: seq<Sample>, first: nat, i: nat, end: nat)
    requires first <= i < end <= |ss|
    ensures var sizes := Sizes(ss[first..end]);
      && Sum(sizes[..i - first]) == Sum(Sizes(ss[first..i])) && sizes[i - first] == ss[i].Size()
      && Sum(sizes[..i - first + 1]) == Sum(sizes[..i - first]) + ss[i].Size() <= Sum(sizes)
  {
    var sizes := Sizes(ss[first..end]);
    assert sizes[..i - first] == Sizes(ss[first..i]);
    SumTakeNext(sizes, i - first);
    SumMonotone(sizes, i - first + 1, |sizes|);
    assert sizes[..|sizes|] == sizes;
  }

  /** A sample lies inside its chunk, behind the samples before it. */
  lemma SampleRange(out: MW.TrackOutput, t: Tables, i: nat)
    requires Indexed(out, t) && i < t.sampleNum
    ensures i < |out.samples| && t.ChunkOf(i) < |out.chunkLst|
    ensures var ch := out.chunkLst[t.ChunkOf(i)];
      && IsChunk(out.maxSize, out.samples, ch) && First(ch) <= i < End(ch)
      && var sizes := Sizes(out.samples[First(ch)..End(ch)]);
      && t.Offset(i) == ch.offset + Sum(sizes[..i - First(ch)]) && t.Size(i) == sizes[i - First(ch)]
      && Sum(sizes[..i - First(ch) + 1]) == Sum(sizes[..i - First(ch)]) + t.Size(i) <= ch.size
  {
    hide AreChunks, IndexesChunks, Sum;
    LookupOffset(t, out.maxSize, out.samples, out.chunkLst, i);
    var ch := out.chunkLst[t.ChunkOf(i)];
    SizesInside(out.samples, First(ch), i, End(ch));
  }

  lemma OneSamplePerPosition(out: MW.TrackOutput, t: Tables, i: nat, j: nat, p: int)
    requires Indexed(out, t) && Holds(t, i, p) && Holds(t, j, p) && t.ChunkOf(i) == t.ChunkOf(j)
    ensures i == j
  {
    hide Describes, IsChunk, Sum, Tables.Offset, Tables.ChunkOf, Tables.Consistent;
    SampleRange(out, t, i);
    SampleRange(out, t, j);
    var ch := out.chunkLst[t.ChunkOf(i)];
    ChunkInBounds(out.maxSize, out.samples, ch);
    IntervalIsUnique(Sizes(out.samples[First(ch)..End(ch)]), p - ch.offset, i - First(ch), j - First(ch));
  }

  /** Every chunk is out. */
  ghost predicate Complete(outs: seq<MW.TrackOutput>, plan: MW.Plan, bytes: seq<Byte>, start: nat)
    reads outs
  {
    MW.Scheduled(plan) && MW.Written(outs, plan, bytes, start) && plan.progress == Lengths(plan.times)
  }

  ghost predicate IsSlot(outs: seq<MW.TrackOutput>, s: Slot)
    reads outs
  {
    s.track < |outs| && s.chunk < |outs[s.track].chunkLst|
  }

  /** Chunk s was the k-th one emitted, and lies in the k-th range. */
  ghost predicate EmittedAs(outs: seq<MW.TrackOutput>, plan: MW.Plan, s: Slot, k: nat)
    reads outs
  {
    k < |plan.order| == |plan.ranges| && plan.order[k] == s && MW.RecordedAt(outs, s, plan.ranges[k])
  }

  /** Where an emitted chunk went. */
  lemma RangeOf(outs: seq<MW.TrackOutput>, plan: MW.Plan, bytes: seq<Byte>, start: nat, s: Slot) returns (k: nat)
    requires Complete(outs, plan, bytes, start) && IsSlot(outs, s)
    ensures EmittedAs(outs, plan, s, k)
  {
    hide Complete, Emitted, Find, MW.RecordedAt, MW.Recorded, ValidSlot, Lengths, Fits;
    SlotIsValid(outs, plan, bytes, start, s);
    k := Find(plan.times, plan.order, s);
    AtPlace(outs, plan, k);
  }

  lemma SlotIsValid(outs: seq<MW.TrackOutput>, plan: MW.Plan, bytes: seq<Byte>, start: nat, s: Slot)
    requires Complete(outs, plan, bytes, start) && IsSlot(outs, s)
    ensures ValidSlot(plan.times, s) && Fits(plan.times, Lengths(plan.times))
      && Emitted(plan.times, Lengths(plan.times), plan.order)
    ensures MW.Recorded(outs, plan.order, plan.ranges)
  {
    hide MW.Tile, MW.AllPlaced, MW.ReadPositions, Sum, Emitted, MW.Recorded, Lengths;
    assert MW.TimesOf(outs[s.track].chunkLst) == plan.times[s.track];
  }

  lemma AtPlace(outs: seq<MW.TrackOutput>, plan: MW.Plan, k: nat)
    requires MW.Recorded(outs, plan.order, plan.ranges) && k < |plan.order|
    ensures |plan.ranges| == |plan.order| && MW.RecordedAt(outs, plan.order[k], plan.ranges[k])
  {
    hide MW.RecordedAt;
  }

  /** All tables index their tracks, and everything is written. */
  ghost predicate AllIndexed(outs: seq<MW.TrackOutput>, tables: seq<Tables>, plan: MW.Plan, bytes: seq<Byte>,
    start: nat)
    reads outs
  {
    && |outs| == |tables| && (forall t | 0 <= t < |outs| :: Indexed(outs[t], tables[t]))
    && Complete(outs, plan, bytes, start)
  }

  ghost predicate HoldsIn(tables: seq<Tables>, t: nat, i: nat, p: int) {
    t < |tables| && WellFormed(tables[t]) && Holds(tables[t], i, p)
  }

  /** The emitted range around a position of a sample. */
  lemma PositionInRange(outs: seq<MW.TrackOutput>, tables: seq<Tables>, plan: MW.Plan, bytes: seq<Byte>, start: nat,
                        t: nat, i: nat, p: int) returns (k: nat)
    requires AllIndexed(outs, tables, plan, bytes, start) && HoldsIn(tables, t, i, p)
    ensures k < |plan.order| == |plan.ranges| && plan.order[k] == Slot(t, tables[t].ChunkOf(i))
    ensures plan.ranges[k].offset <= p < plan.ranges[k].offset + plan.ranges[k].size
  {
    hide Indexed, IsChunk, Sum, Complete;
    SampleRange(outs[t], tables[t], i);
    k := RangeOf(outs, plan, bytes, start, Slot(t, tables[t].ChunkOf(i)));
  }

  /** No position belongs to two samples. */
  lemma SamplesDisjoint(outs: seq<MW.TrackOutput>, tables: seq<Tables>, plan: MW.Plan, bytes: seq<Byte>, start: nat,
                        t: nat, i: nat, u: nat, j: nat, p: int)
    requires AllIndexed(outs, tables, plan, bytes, start) && HoldsIn(tables, t, i, p) && HoldsIn(tables, u, j, p)
    ensures t == u && i == j && start <= p < |bytes|
  {
    hide Indexed, WellFormed, Holds, MW.Tile;
    var k := PositionInRange(outs, tables, plan, bytes, start, t, i, p);
    var l := PositionInRange(outs, tables, plan, bytes, start, u, j, p);
    MW.TilePartitions(plan.ranges, start, |bytes|);
    assert k == l;
    OneSamplePerPosition(outs[t], tables[t], i, j, p);
  }

  /** Sample i of chunk c is looked up in chunk c. */
  lemma ChunkOfIs(out: MW.TrackOutput, t: Tables, i: nat, c: nat)
    requires Indexed(out, t) && i < t.sampleNum && c < |out.chunkLst|
    requires First(out.chunkLst[c]) <= i < End(out.chunkLst[c])
    ensures t.ChunkOf(i) == c
  {
    hide IsChunk, Sum, IndexesChunks;
    var d := t.ChunkOf(i);
    LookupOffset(t, out.maxSize, out.samples, out.chunkLst, i);
    ChunkStarts(out.maxSize, out.samples, out.chunkLst, c);
    ChunkStarts(out.maxSize, out.samples, out.chunkLst, c + 1);
    ChunkStarts(out.maxSize, out.samples, out.chunkLst, d);
    ChunkStarts(out.maxSize, out.samples, out.chunkLst, d + 1);
    IntervalIsUnique(SampleNums(out.chunkLst), i, c, d);
  }

  /** A position inside a chunk belongs to one of its samples. */
  lemma SampleAtPosition(out: MW.TrackOutput, t: Tables, c: nat, p: int) returns (i: nat)
    requires Indexed(out, t) && c < |out.chunkLst|
    requires out.chunkLst[c].offset <= p < out.chunkLst[c].offset + out.chunkLst[c].size
    ensures Holds(t, i, p)
  {
    hide Sum, Locate, IndexesChunks;
    var ch := out.chunkLst[c];
    assert IsChunk(out.maxSize, out.samples, ch);
    var m := Locate(Sizes(out.samples[First(ch)..End(ch)]), p - ch.offset);
    i := First(ch) + m;
    ChunkOfIs(out, t, i, c);
    SampleRange(out, t, i);
  }

  /** Every position of the payload belongs to a sample. */
  lemma PositionHeld(outs: seq<MW.TrackOutput>, tables: seq<Tables>, plan: MW.Plan, bytes: seq<Byte>, start: nat,
    p: int)
      returns (t: nat, i: nat)
    requires AllIndexed(outs, tables, plan, bytes, start) && start <= p < |bytes|
    ensures HoldsIn(tables, t, i, p)
  {
    hide Indexed, Holds, MW.Tile, MW.AllPlaced, MW.Scheduled, Sum;
    MW.TilePartitions(plan.ranges, start, |bytes|);
    assert MW.CoveredBy(plan.ranges, p);
    var k :| 0 <= k < |plan.ranges| && plan.ranges[k].offset <= p < plan.ranges[k].offset + plan.ranges[k].size;
    assert MW.RecordedAt(outs, plan.order[k], plan.ranges[k]);
    t := plan.order[k].track;
    IndexedIsWellFormed(outs[t], tables[t]);
    i := SampleAtPosition(outs[t], tables[t], plan.order[k].chunk, p);
  }

  lemma IndexedIsWellFormed(out: MW.TrackOutput, t: Tables)
    requires Indexed(out, t)
    ensures WellFormed(t)
  {
  }

  /** The ranges of all samples of all tracks cut the bytes from start to end into pieces. */
  ghost predicate SamplesTile(tables: seq<Tables>, start: nat, end: nat) {
    && (forall t: nat, i: nat, p | HoldsIn(tables, t, i, p) :: start <= p < end)
    && (forall t: nat, i: nat, u: nat, j: nat, p | HoldsIn(tables, t, i, p) && HoldsIn(tables, u, j, p) ::
      t == u && i == j)
    && (forall p | start <= p < end :: HeldBySome(tables, p))
  }

  ghost predicate HeldBySome(tables: seq<Tables>, p: int) {
    exists t: nat, i: nat :: HoldsIn(tables, t, i, p)
  }

  /** Main result: once everything is written, every payload byte belongs to exactly one sample of one
      track, as the lookups find them. */
  lemma SamplesTilePayload(outs: seq<MW.TrackOutput>, tables: seq<Tables>, plan: MW.Plan, bytes: seq<Byte>, start: nat)
    requires AllIndexed(outs, tables, plan, bytes, start)
    ensures SamplesTile(tables, start, |bytes|)
  {
    hide AllIndexed, HoldsIn;
    forall t: nat, i: nat, u: nat, j: nat, p | HoldsIn(tables, t, i, p) && HoldsIn(tables, u, j, p)
      ensures t == u && i == j && start <= p < |bytes|
    {
      SamplesDisjoint(outs, tables, plan, bytes, start, t, i, u, j, p);
    }
    forall p | start <= p < |bytes| ensures HeldBySome(tables, p) {
      var t, i := PositionHeld(outs, tables, plan, bytes, start, p);
    }
  }
}
