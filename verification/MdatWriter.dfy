/** Writing the media data: write_mdat_box and write_chunk of src/mp4_muxer.c, for tracks whose
    samples were kept in temporary files. */
module MdatWriter {
  import opened RunLength
  import opened TimeScale
  import opened Samples
  import opened MergeSchedule
  import opened BigEndian
  import TrackInput

  class Sink {
    var bytes: seq<Byte>

    constructor ()
      ensures bytes == []
    {
      bytes := [];
    }

    method Write(data: seq<Byte>)
      modifies this
      ensures bytes == old(bytes) + data
    {
      bytes := bytes + data;
    }
  }

  /** The output side of a track: how far its temporary file, its size list and its chunk list have
      been consumed. */
  class TrackOutput {
    const sizeLst: seq<Run>
    const file: seq<Byte>
    const mdatSize: nat
    const maxSize: nat
    ghost const samples: seq<Sample>
    var chunkLst: seq<Chunk>
    var chunkToOut: nat
    var filePos: nat
    var sizeIt: nat
    var sizeCnt: nat
    var size: nat

    /** Samples already copied. */
    ghost function Done(): int
      requires chunkToOut <= |chunkLst|
      reads this
    {
      if chunkToOut == 0 then 0 else End(chunkLst[chunkToOut - 1])
    }

    ghost predicate SourceOk() {
      && Expand(sizeLst) == Sizes(samples) && Canonical(sizeLst)
      && file == Bytes(samples) && mdatSize == Sum(Sizes(samples))
    }

    /** The file and the size iterator stand before sample n. */
    ghost predicate ReadAt(n: int)
      reads `filePos, `sizeIt, `sizeCnt, `size
    {
      && 0 <= n <= |samples|
      && filePos == |Bytes(samples[..n])|
      && sizeIt <= |sizeLst| && Total(sizeLst[..sizeIt]) == n + sizeCnt
      && (sizeCnt > 0 ==> sizeIt > 0 && size == sizeLst[sizeIt - 1].value && sizeCnt <= sizeLst[sizeIt - 1].count)
    }

    ghost predicate Valid()
      reads this
    {
      && SourceOk()
      && AreChunks(maxSize, samples, chunkLst)
      && chunkToOut <= |chunkLst|
      && ReadAt(Done())
    }

    /** The chunks already written lie at their recorded offsets. */
    ghost predicate Placed(bytes: seq<Byte>)
      reads `chunkLst, `chunkToOut
    {
      AreChunks(maxSize, samples, chunkLst) && chunkToOut <= |chunkLst| &&
      forall c | 0 <= c < chunkToOut :: ChunkAt(bytes, chunkLst[c])
    }

    ghost predicate ChunkAt(bytes: seq<Byte>, ch: Chunk)
      requires IsChunk(maxSize, samples, ch)
    {
      && ch.offset + ch.size <= |bytes|
      && bytes[ch.offset..ch.offset + ch.size] == Bytes(samples[First(ch)..End(ch)])
    }

    /** setup_muxer rewinds the temporary file and the size iterator. */
    constructor (track: TrackInput.Track)
      requires track.Valid()
      ensures Valid() && chunkToOut == 0 && samples == track.samples && chunkLst == track.chunkLst
      ensures maxSize == track.g.maxSize && mdatSize == track.mdatSize
    {
      sizeLst, file, mdatSize, maxSize := track.sizeLst, track.file, track.mdatSize, track.g.maxSize;
      samples := track.samples;
      chunkLst := track.chunkLst;
      chunkToOut, filePos, sizeIt, sizeCnt, size := 0, 0, 0, 0, 0;
      new;
      assert samples[..0] == [] && sizeLst[..0] == [];
    }

    lemma SampleBytes(n: nat)
      requires SourceOk() && n < |samples|
      ensures |Bytes(samples[..n])| + samples[n].Size() <= |file|
      ensures file[|Bytes(samples[..n])|..|Bytes(samples[..n])| + samples[n].Size()] == samples[n].data
      ensures Bytes(samples[..n + 1]) == Bytes(samples[..n]) + samples[n].data
    {
      assert samples[..n + 1][..n] == samples[..n];
      assert samples == samples[..n + 1] + samples[n + 1..];
      BytesConcat(samples[..n + 1], samples[n + 1..]);
    }

    /** The size iterator yields the size of sample n. */
    method TakeSize(ghost n: nat)
      requires SourceOk() && ReadAt(n) && n < |samples|
      modifies `sizeIt, `sizeCnt, `size
      ensures size == samples[n].Size()
      ensures sizeIt <= |sizeLst| && Total(sizeLst[..sizeIt]) == n + 1 + sizeCnt
      ensures sizeCnt > 0 ==> sizeIt > 0 && size == sizeLst[sizeIt - 1].value && sizeCnt <= sizeLst[sizeIt - 1].count
    {
      hide Expand, Sum, Bytes, Weight, Total;
      ExpandLength(sizeLst);
      assert sizeLst[..|sizeLst|] == sizeLst;
      if sizeCnt == 0 {
        if sizeIt == |sizeLst| {
          assert false;
        }
        PrefixStep(sizeLst, sizeIt);
        sizeCnt := sizeLst[sizeIt].count;
        size := sizeLst[sizeIt].value;
        sizeIt := sizeIt + 1;
      }
      ghost var e := sizeIt - 1;
      PrefixStep(sizeLst, e);
      RunItem(sizeLst, e, sizeLst[e].count - sizeCnt);
      sizeCnt := sizeCnt - 1;
    }

    /** One round of the loop of write_chunk: the next size from the run-length list, that many
        bytes from the temporary file. */
    method CopySample(snk: Sink, ghost n: nat)
      requires SourceOk() && ReadAt(n) && n < |samples|
      modifies `filePos, `sizeIt, `sizeCnt, `size, snk
      ensures ReadAt(n + 1)
      ensures snk.bytes == old(snk.bytes) + samples[n].data
    {
      hide Expand, Sum, Bytes, Weight, Total, Canonical;
      TakeSize(n);
      SampleBytes(n);
      var buf := file[filePos..filePos + size];
      filePos := filePos + size;
      snk.Write(buf);
    }

    /** The chunks stay in place when more bytes follow. */
    lemma PlacedGrows(bytes: seq<Byte>, more: seq<Byte>)
      requires Placed(bytes)
      ensures Placed(bytes + more)
    {
      hide IsChunk;
      forall c | 0 <= c < chunkToOut ensures ChunkAt(bytes + more, chunkLst[c]) {
        var ch := chunkLst[c];
        assert ChunkAt(bytes, ch);
        assert (bytes + more)[ch.offset..ch.offset + ch.size] == bytes[ch.offset..ch.offset + ch.size];
      }
    }

    lemma ChunkBytes(ch: Chunk)
      requires IsChunk(maxSize, samples, ch)
      ensures |Bytes(samples[First(ch)..End(ch)])| == ch.size
    {
      BytesLength(samples[First(ch)..End(ch)]);
    }

    /** The loop of write_chunk. */
    method CopySamples(snk: Sink, sampleNum: nat, ghost first: nat)
      requires SourceOk() && ReadAt(first) && first + sampleNum <= |samples|
      modifies `filePos, `sizeIt, `sizeCnt, `size, snk
      ensures ReadAt(first + sampleNum)
      ensures snk.bytes == old(snk.bytes) + Bytes(samples[first..first + sampleNum])
    {
      hide Sum, Bytes, NewDescs, Total, Expand, Canonical;
      EmptyBytes();
      assert samples[first..first] == [];
      var left := sampleNum;
      while left > 0
        invariant 0 <= left <= sampleNum
        invariant ReadAt(first + (sampleNum - left))
        invariant snk.bytes == old(snk.bytes) + Bytes(samples[first..first + (sampleNum - left)])
      {
        ghost var n := first + (sampleNum - left);
        left := left - 1;
        CopySample(snk, n);
        AppendStep(samples[first..n], samples[n]);
        assert samples[first..n + 1] == samples[first..n] + [samples[n]];
      }
    }

    /** The next chunk starts where the copying stands. */
    lemma NextStart()
      requires Valid() && chunkToOut < |chunkLst|
      ensures First(chunkLst[chunkToOut]) == Done() && ReadAt(Done()) && SourceOk()
        && AreChunks(maxSize, samples, chunkLst)
      ensures IsChunk(maxSize, samples, chunkLst[chunkToOut]) && 0 <= Done() < End(chunkLst[chunkToOut]) <= |samples|
    {
      hide Sum, Bytes, Expand;
    }

    lemma PositionOf(n: int)
      requires ReadAt(n)
      ensures 0 <= n <= |samples| && filePos == |Bytes(samples[..n])|
    {
      hide Bytes, Total;
    }

    /** The chunk list with chunk k at the given offset. */
    function At(k: nat, offset: nat): seq<Chunk>
      requires k < |chunkLst|
      reads `chunkLst
    {
      chunkLst[k := chunkLst[k].(offset := offset)]
    }

    /** Offsets do not matter to the grouping, nor later ones to the chunks in place. */
    lemma OffsetKept(k: nat, offset: nat)
      requires AreChunks(maxSize, samples, chunkLst) && k < |chunkLst|
      ensures AreChunks(maxSize, samples, At(k, offset)) && IsChunk(maxSize, samples, At(k, offset)[k])
    {
      hide Sum, NewDescs;
      assert forall c | 0 <= c < |chunkLst| :: IsChunk(maxSize, samples, chunkLst[c]) ==>
        IsChunk(maxSize, samples, At(k, offset)[c]);
    }

    /** The earlier chunks stay in place, and the next one now is. */
    lemma OneMorePlaced(cs: seq<Chunk>, k: nat, before: seq<Byte>)
      requires AreChunks(maxSize, samples, cs) && k < |cs| && forall c | 0 <= c < k :: ChunkAt(before, cs[c])
      requires cs[k].offset == |before|
      ensures var after := before + Bytes(samples[First(cs[k])..End(cs[k])]);
        forall c | 0 <= c <= k :: ChunkAt(after, cs[c])
    {
      hide Bytes, Sum;
      ChunkBytes(cs[k]);
      var body := Bytes(samples[First(cs[k])..End(cs[k])]);
      forall c | 0 <= c <= k ensures ChunkAt(before + body, cs[c]) {
        if c < k { assert ChunkAt(before, cs[c]); }
      }
    }

    /** write_chunk for the next chunk of the track: records the sink position as the chunk's offset
        and copies the chunk's samples. */
    method WriteChunk(snk: Sink)
      requires Valid() && chunkToOut < |chunkLst| && Placed(snk.bytes)
      modifies this, snk
      ensures Valid() && Placed(snk.bytes) && chunkToOut == old(chunkToOut) + 1
      ensures chunkLst == old(chunkLst[chunkToOut := chunkLst[chunkToOut].(offset := |snk.bytes|)])
      ensures filePos == old(filePos) + chunkLst[old(chunkToOut)].size
      ensures old(snk.bytes) <= snk.bytes && |snk.bytes| == |old(snk.bytes)| + chunkLst[old(chunkToOut)].size
    {
      hide Sum, Bytes, NewDescs, Sizes, ReadAt, SourceOk, AreChunks, IsChunk, ChunkAt;
      ghost var before := snk.bytes;
      var chunk := chunkLst[chunkToOut];
      NextStart();
      PositionOf(Done());
      OffsetKept(chunkToOut, |snk.bytes|);
      chunkLst := chunkLst[chunkToOut := chunk.(offset := |snk.bytes|)];
      CopySamples(snk, chunk.sampleNum, First(chunk));
      PositionOf(End(chunk));
      ChunkBytes(chunkLst[chunkToOut]);
      BytesSplit(First(chunk), End(chunk));
      OneMorePlaced(chunkLst, chunkToOut, before);
      chunkToOut := chunkToOut + 1;
    }

    lemma BytesSplit(a: nat, b: nat)
      requires a <= b <= |samples|
      ensures |Bytes(samples[..b])| == |Bytes(samples[..a])| + |Bytes(samples[a..b])|
    {
      assert samples[..b] == samples[..a] + samples[a..b];
      BytesConcat(samples[..a], samples[a..b]);
    }

    lemma EmptyBytes()
      ensures Bytes([]) == []
    {
    }
  }

  // ---------------------------------------------------------------- the scheduler

  /** A byte range of the file. */
  datatype Range = Range(offset: nat, size: nat)

  /** The ranges follow each other without gap or overlap from start to end. */
  ghost predicate Tile(ranges: seq<Range>, start: nat, end: nat) {
    if ranges == [] then start == end
    else
      var r := ranges[|ranges| - 1];
      r.offset + r.size == end && Tile(ranges[..|ranges| - 1], start, r.offset)
  }

  lemma TileNext(ranges: seq<Range>, start: nat, end: nat, size: nat)
    requires Tile(ranges, start, end)
    ensures Tile(ranges + [Range(end, size)], start, end + size)
  {
    assert (ranges + [Range(end, size)])[..|ranges|] == ranges;
  }

  ghost predicate CoveredBy(ranges: seq<Range>, p: int) {
    exists i | 0 <= i < |ranges| :: ranges[i].offset <= p < ranges[i].offset + ranges[i].size
  }

  /** Tiles are disjoint, and every position between start and end lies in one of them. */
  lemma {:induction false} TilePartitions(ranges: seq<Range>, start: nat, end: nat)
    requires Tile(ranges, start, end)
    ensures start <= end
    ensures forall i | 0 <= i < |ranges| :: start <= ranges[i].offset && ranges[i].offset + ranges[i].size <= end
    ensures forall i, j | 0 <= i < j < |ranges| :: ranges[i].offset + ranges[i].size <= ranges[j].offset
    ensures forall p | start <= p < end :: CoveredBy(ranges, p)
  {
    if ranges != [] {
      var r, rest := ranges[|ranges| - 1], ranges[..|ranges| - 1];
      TilePartitions(rest, start, r.offset);
      forall p | start <= p < end ensures CoveredBy(ranges, p) {
        if p < r.offset {
          assert CoveredBy(rest, p);
          var i :| 0 <= i < |rest| && rest[i].offset <= p < rest[i].offset + rest[i].size;
          assert ranges[i] == rest[i];
        } else {
          assert ranges[|ranges| - 1] == r;
        }
      }
    }
  }

  function TimesOf(cs: seq<Chunk>): (r: seq<nat>)
    ensures |r| == |cs| && forall c | 0 <= c < |cs| :: r[c] == cs[c].dts
  {
    seq(|cs|, c requires 0 <= c < |cs| => cs[c].dts)
  }

  ghost predicate Distinct(tracks: seq<TrackOutput>) {
    forall t, u | 0 <= t < u < |tracks| :: tracks[t] != tracks[u]
  }

  ghost predicate AllPlaced(tracks: seq<TrackOutput>, bytes: seq<Byte>)
    reads tracks
  {
    forall t | 0 <= t < |tracks| :: tracks[t].Valid() && tracks[t].Placed(bytes)
  }

  /** times and progress describe the tracks' chunk lists and how much of them is out. */
  ghost predicate Reflects(tracks: seq<TrackOutput>, times: seq<seq<nat>>, progress: seq<nat>)
    reads tracks
  {
    && |tracks| == |times| && Fits(times, progress)
    && forall t | 0 <= t < |tracks| :: tracks[t].chunkToOut == progress[t] && TimesOf(tracks[t].chunkLst) == times[t]
  }

  ghost predicate RecordedAt(tracks: seq<TrackOutput>, s: Slot, r: Range)
    reads tracks
  {
    s.track < |tracks| && s.chunk < |tracks[s.track].chunkLst| &&
    var ch := tracks[s.track].chunkLst[s.chunk];
    ch.offset == r.offset && ch.size == r.size
  }

  /** ranges[i] is where the i-th emitted chunk went. */
  ghost predicate Recorded(tracks: seq<TrackOutput>, order: seq<Slot>, ranges: seq<Range>)
    reads tracks
  {
    |ranges| == |order| && forall i | 0 <= i < |order| :: RecordedAt(tracks, order[i], ranges[i])
  }

  /** The two search loops of write_mdat_box: the first track with a chunk no later than the time
      being worked on, else the first track with the least chunk time, which becomes that time. */
  method FindNext(tracks: seq<TrackOutput>, dtsOut: nat, ghost times: seq<seq<nat>>, ghost progress: seq<nat>)
      returns (found: bool, t: nat, next: nat)
    requires Reflects(tracks, times, progress)
    requires TimesFit(times)
    ensures (exists u | 0 <= u < |times| :: Pending(times, progress, u)) ==> found
    ensures found ==> Pending(times, progress, t)
    ensures found && NoneEarlier(times, progress, dtsOut) ==>
      IsNext(times, progress, t) && next == Head(times, progress, t)
  {
    found, t, next := false, 0, dtsOut;
    while t < |tracks|
      invariant 0 <= t <= |tracks|
      invariant forall u | 0 <= u < t && Pending(times, progress, u) :: Head(times, progress, u) > dtsOut
    {
      var track := tracks[t];
      if track.chunkToOut != |track.chunkLst| {
        assert Head(times, progress, t) == track.chunkLst[track.chunkToOut].dts;
        if track.chunkLst[track.chunkToOut].dts <= dtsOut {
          found := true;
          return;
        }
      }
      t := t + 1;
    }
    next := TWO64 - 1;
    var u := 0;
    while u < |tracks|
      invariant 0 <= u <= |tracks|
      invariant forall v | 0 <= v < u && Pending(times, progress, v) :: found && next <= Head(times, progress, v)
      invariant found ==> Pending(times, progress, t) && next == Head(times, progress, t) && t < u
      invariant found ==> forall v | 0 <= v < t && Pending(times, progress, v) :: next < Head(times, progress, v)
      invariant !found ==> next == TWO64 - 1
    {
      var track := tracks[u];
      if track.chunkToOut != |track.chunkLst| {
        assert Head(times, progress, u) == track.chunkLst[track.chunkToOut].dts;
        if track.chunkLst[track.chunkToOut].dts < next {
          found, t, next := true, u, track.chunkLst[track.chunkToOut].dts;
        }
      }
      u := u + 1;
    }
  }

  /** Emits the next chunk of track t. */
  method EmitChunk(tracks: seq<TrackOutput>, t: nat, snk: Sink, ghost times: seq<seq<nat>>, ghost progress: seq<nat>)
    requires Distinct(tracks) && AllPlaced(tracks, snk.bytes) && Reflects(tracks, times, progress)
    requires Pending(times, progress, t)
    modifies tracks[t], snk
    ensures AllPlaced(tracks, snk.bytes) && Reflects(tracks, times, Advance(progress, t))
    ensures RecordedAt(tracks, Slot(t, progress[t]), Range(|old(snk.bytes)|, tracks[t].chunkLst[progress[t]].size))
    ensures tracks[t].chunkLst
      == old(tracks[t].chunkLst[progress[t] := tracks[t].chunkLst[progress[t]].(offset := |snk.bytes|)])
    ensures |snk.bytes| == |old(snk.bytes)| + tracks[t].chunkLst[progress[t]].size && old(snk.bytes) <= snk.bytes
    ensures tracks[t].filePos == old(tracks[t].filePos) + tracks[t].chunkLst[progress[t]].size
  {
    hide TrackOutput.Valid, TrackOutput.Placed;
    ghost var before := snk.bytes;
    tracks[t].WriteChunk(snk);
    ghost var more := snk.bytes[|before|..];
    assert before + more == snk.bytes;
    forall u | 0 <= u < |tracks| ensures tracks[u].Valid() && tracks[u].Placed(snk.bytes) {
      if u != t {
        assert old(tracks[u].Valid() && tracks[u].Placed(snk.bytes));
        tracks[u].PlacedGrows(before, more);
      }
    }
  }

  // ---------------------------------------------------------------- the box

  /** The size and type fields of the mdat box. */
  function MdatHeader(mdatSize: nat): seq<Byte> {
    var mdat: seq<Byte> := [0x6d, 0x64, 0x61, 0x74];
    if mdatSize + 8 <= TWO32 - 1 then ToBytes(mdatSize + 8, 4) + mdat
    else ToBytes(1, 4) + mdat + ToBytes(Wrap64(mdatSize + 16), 8)
  }

  /** Section 4.2 of ISO/IEC 14496-12: a 32-bit size, or 1 and a 64-bit size after the type. */
  function BoxSize(bytes: seq<Byte>): nat
    requires |bytes| >= 16 || (|bytes| >= 4 && FromBytes(bytes[..4]) != 1)
  {
    if FromBytes(bytes[..4]) == 1 then FromBytes(bytes[8..16]) else FromBytes(bytes[..4])
  }

  /** The bytes are one box by the size they start with. */
  predicate IsBox(bytes: seq<Byte>) {
    (|bytes| >= 16 || (|bytes| >= 4 && FromBytes(bytes[..4]) != 1)) && BoxSize(bytes) == |bytes|
  }

  /** A media data box with so much payload, byte by byte: size, type, and the 64-bit size when 32 bits
      do not do. */
  ghost predicate IsMdatBox(box: seq<Byte>, payload: nat) {
    && |box| >= 8 && box[4..8] == [0x6d, 0x64, 0x61, 0x74]
    && if payload + 8 < 0x1_0000_0000 then
         |box| == payload + 8 && Word(box[..4]) == payload + 8
       else
         |box| == payload + 16 && Word(box[..4]) == 1
         && Word(box[8..12]) * 0x1_0000_0000 + Word(box[12..16]) == (payload + 16) % 0x1_0000_0000_0000_0000
  }

  lemma HeaderStartsMdat(mdatSize: nat, payload: seq<Byte>)
    requires |payload| == mdatSize
    ensures IsMdatBox(MdatHeader(mdatSize) + payload, mdatSize)
  {
    hide Pow256, FromBytes, ToBytes;
    PowersOf256();
    var box := MdatHeader(mdatSize) + payload;
    if mdatSize + 8 <= TWO32 - 1 {
      ToFromBytes(mdatSize + 8, 4);
      WordIs(ToBytes(mdatSize + 8, 4));
      assert box[..4] == ToBytes(mdatSize + 8, 4);
    } else {
      var size := ToBytes(Wrap64(mdatSize + 16), 8);
      ToFromBytes(1, 4);
      ToFromBytes(Wrap64(mdatSize + 16), 8);
      WordIs(ToBytes(1, 4));
      LongWordIs(size);
      assert box[..4] == ToBytes(1, 4) && box[8..16] == size;
      assert box[8..12] == size[..4] && box[12..16] == size[4..];
    }
  }

  lemma HeaderLength(mdatSize: nat)
    ensures |MdatHeader(mdatSize)| == if mdatSize + 8 < 0x1_0000_0000 then 8 else 16
  {
    hide ToBytes;
  }

  lemma HeaderStands(before: seq<Byte>, bytes: seq<Byte>, mdatSize: nat)
    requires before + MdatHeader(mdatSize) <= bytes && |bytes| == |before| + |MdatHeader(mdatSize)| + mdatSize
    ensures IsMdatBox(bytes[|before|..], mdatSize)
  {
    hide MdatHeader, IsMdatBox;
    var start := |before + MdatHeader(mdatSize)|;
    HeaderStartsMdat(mdatSize, bytes[start..]);
    assert bytes[|before|..] == MdatHeader(mdatSize) + bytes[start..];
  }

  /** The size announced up front is the size of header and payload. */
  lemma MdatHeaderAnnounces(mdatSize: nat, payload: seq<Byte>)
    requires |payload| == mdatSize && mdatSize + 16 < TWO64
    ensures IsBox(MdatHeader(mdatSize) + payload)
  {
    hide Pow256, FromBytes, ToBytes;
    PowersOf256();
    var box := MdatHeader(mdatSize) + payload;
    if mdatSize + 8 <= TWO32 - 1 {
      ToFromBytes(mdatSize + 8, 4);
      assert box[..4] == ToBytes(mdatSize + 8, 4);
    } else {
      ToFromBytes(1, 4);
      ToFromBytes(mdatSize + 16, 8);
      assert box[..4] == ToBytes(1, 4) && box[8..16] == ToBytes(mdatSize + 16, 8);
    }
  }

  function MdatSizes(tracks: seq<TrackOutput>): (r: seq<nat>)
    ensures |r| == |tracks| && forall t | 0 <= t < |tracks| :: r[t] == tracks[t].mdatSize
  {
    seq(|tracks|, t requires 0 <= t < |tracks| => tracks[t].mdatSize)
  }

  /** Chunk times of all tracks. */
  ghost function AllTimes(tracks: seq<TrackOutput>): (r: seq<seq<nat>>)
    reads tracks
    ensures |r| == |tracks| && forall t | 0 <= t < |tracks| :: r[t] == TimesOf(tracks[t].chunkLst)
  {
    seq(|tracks|, t requires 0 <= t < |tracks| reads tracks => TimesOf(tracks[t].chunkLst))
  }

  /** Totals collected by setup_muxer. */
  method Totals(tracks: seq<TrackOutput>) returns (chunkNum: nat, mdatSize: nat)
    ensures chunkNum == Sum(Lengths(AllTimes(tracks))) && mdatSize == Sum(MdatSizes(tracks))
  {
    chunkNum, mdatSize := 0, 0;
    ghost var lengths, sizes := Lengths(AllTimes(tracks)), MdatSizes(tracks);
    var t := 0;
    while t < |tracks|
      invariant 0 <= t <= |tracks|
      invariant chunkNum == Sum(lengths[..t]) && mdatSize == Sum(sizes[..t])
    {
      SumTakeNext(lengths, t);
      SumTakeNext(sizes, t);
      chunkNum := chunkNum + |tracks[t].chunkLst|;
      mdatSize := mdatSize + tracks[t].mdatSize;
      t := t + 1;
    }
    assert lengths[..t] == lengths && sizes[..t] == sizes;
  }

  ghost predicate ReadPositions(tracks: seq<TrackOutput>, outs: seq<nat>)
    reads tracks
  {
    |outs| == |tracks| && forall t | 0 <= t < |tracks| :: tracks[t].filePos == outs[t]
  }

  /** State of the scheduler between two chunks. */
  datatype Plan = Plan(times: seq<seq<nat>>, progress: seq<nat>, order: seq<Slot>, ranges: seq<Range>, outs: seq<nat>)

  ghost predicate Scheduled(p: Plan) {
    && Fits(p.times, p.progress) && Emitted(p.times, p.progress, p.order)
    && |p.order| == Sum(p.progress) && |p.outs| == |p.times|
  }

  ghost predicate ScheduledInOrder(p: Plan, dtsOut: nat)
    requires Scheduled(p)
  {
    Sorted(p.times, p.order) && Frontier(p.times, p.progress, p.order) && NoneEarlier(p.times, p.progress, dtsOut)
  }

  ghost function NextPlan(p: Plan, t: nat, r: Range): Plan
    requires t < |p.progress| && t < |p.outs|
  {
    Plan(p.times, Advance(p.progress, t), p.order + [Slot(t, p.progress[t])], p.ranges + [r],
         p.outs[t := p.outs[t] + r.size])
  }

  lemma NextScheduled(p: Plan, t: nat, r: Range, dtsOut: nat, next: nat)
    requires Scheduled(p) && Pending(p.times, p.progress, t)
    ensures Scheduled(NextPlan(p, t, r))
    ensures (&& TracksInOrder(p.times) && ScheduledInOrder(p, dtsOut)
             && IsNext(p.times, p.progress, t) && next == Head(p.times, p.progress, t))
            ==> ScheduledInOrder(NextPlan(p, t, r), next)
  {
    AdvanceEmitted(p.times, p.progress, p.order, t);
    SumUpdate(p.progress, t, p.progress[t] + 1);
    if TracksInOrder(p.times) && ScheduledInOrder(p, dtsOut) && IsNext(p.times, p.progress, t) {
      AdvanceSorted(p.times, p.progress, p.order, t);
    }
  }

  /** The tracks stand where the plan says, and the bytes after `start` are the emitted chunks. */
  ghost predicate Written(tracks: seq<TrackOutput>, p: Plan, bytes: seq<Byte>, start: nat)
    reads tracks
  {
    && AllPlaced(tracks, bytes) && Reflects(tracks, p.times, p.progress)
    && Recorded(tracks, p.order, p.ranges) && ReadPositions(tracks, p.outs)
    && Tile(p.ranges, start, |bytes|) && start + Sum(p.outs) == |bytes|
  }

  method EmitPlanned(tracks: seq<TrackOutput>, t: nat, snk: Sink, ghost p: Plan, ghost start: nat)
    returns (ghost q: Plan)
    requires Distinct(tracks) && Written(tracks, p, snk.bytes, start) && Scheduled(p)
    requires Pending(p.times, p.progress, t)
    modifies tracks[t], snk
    ensures t < |p.progress| && t < |p.outs| && exists r :: q == NextPlan(p, t, r)
    ensures Written(tracks, q, snk.bytes, start) && old(snk.bytes) <= snk.bytes
  {
    hide Tile, Sum, TrackOutput.Valid, TrackOutput.Placed;
    ghost var before := |snk.bytes|;
    EmitChunk(tracks, t, snk, p.times, p.progress);
    ghost var r := Range(before, tracks[t].chunkLst[p.progress[t]].size);
    q := NextPlan(p, t, r);
    TileNext(p.ranges, start, before, r.size);
    SumUpdate(p.outs, t, p.outs[t] + r.size);
    forall i | 0 <= i < |q.order| ensures RecordedAt(tracks, q.order[i], q.ranges[i]) {
      if i < |p.order| {
        assert old(RecordedAt(tracks, p.order[i], p.ranges[i]));
        assert p.order[i].chunk < p.progress[p.order[i].track];
      }
    }
  }

  ghost predicate Fresh(tracks: seq<TrackOutput>)
    reads tracks
  {
    forall t | 0 <= t < |tracks| :: tracks[t].Valid() && tracks[t].chunkToOut == 0
  }

  ghost predicate TimesFit(times: seq<seq<nat>>) {
    forall u, c | 0 <= u < |times| && 0 <= c < |times[u]| :: times[u][c] < TWO64 - 1
  }

  /** One round of the chunk loop of write_mdat_box: never the "chunk number not match" branch. */
  method EmitRound(tracks: seq<TrackOutput>, dtsOut: nat, snk: Sink, ghost p: Plan, ghost start: nat)
      returns (next: nat, ghost q: Plan)
    requires Distinct(tracks) && Written(tracks, p, snk.bytes, start) && Scheduled(p)
    requires Sum(p.progress) < Sum(Lengths(p.times)) && TimesFit(p.times)
    modifies tracks, snk
    ensures Written(tracks, q, snk.bytes, start) && Scheduled(q) && old(snk.bytes) <= snk.bytes
    ensures q.times == p.times && |q.order| == |p.order| + 1
    ensures TracksInOrder(p.times) && ScheduledInOrder(p, dtsOut) ==> ScheduledInOrder(q, next)
  {
    hide Tile, Sum, TrackOutput.Valid, TrackOutput.Placed, Recorded, ReadPositions, AllPlaced, Emitted, Frontier;
    var found, t;
    found, t, next := FindNext(tracks, dtsOut, p.times, p.progress);
    SomeTrackPending(p.times, p.progress);
    if !found {
      assert false;
    }
    q := EmitPlanned(tracks, t, snk, p, start);
    ghost var r: Range :| q == NextPlan(p, t, r);
    NextScheduled(p, t, r, dtsOut, next);
  }

  /** write_mdat_box: header, then all chunks interleaved.  It always finds a chunk to emit, every
      chunk lands at its recorded offset, the chunks tile the payload, the payload has the size
      announced in the header, and, for tracks whose chunk times are in order, the emission order is
      the stable merge by (chunk time, track, chunk). */
  method WriteMdatBox(tracks: seq<TrackOutput>, snk: Sink) returns (ok: bool, ghost done: Plan)
    requires Distinct(tracks) && Fresh(tracks)
    requires forall t, c | 0 <= t < |tracks| && 0 <= c < |tracks[t].chunkLst| :: tracks[t].chunkLst[c].dts < TWO64 - 1
    modifies tracks, snk
    ensures ok && done.times == old(AllTimes(tracks)) && done.progress == Lengths(done.times)
    ensures Scheduled(done)
    ensures TracksInOrder(done.times) ==> Sorted(done.times, done.order)
    ensures Written(tracks, done, snk.bytes, |old(snk.bytes)| + |MdatHeader(Sum(MdatSizes(tracks)))|)
    ensures old(snk.bytes) + MdatHeader(Sum(MdatSizes(tracks))) <= snk.bytes
    ensures |snk.bytes| == |old(snk.bytes)| + |MdatHeader(Sum(MdatSizes(tracks)))| + Sum(MdatSizes(tracks))
    ensures IsMdatBox(snk.bytes[|old(snk.bytes)|..], Sum(MdatSizes(tracks)))
  {
    hide Tile, Sum, TrackOutput.Valid, TrackOutput.Placed, MdatHeader, Recorded, ReadPositions, Reflects, AllPlaced,
      IsMdatBox,
      Emitted, Frontier, NoneEarlier, IsNext;
    var chunkNum, mdatSize := Totals(tracks);
    snk.Write(MdatHeader(mdatSize));
    ghost var start, prefix := |snk.bytes|, snk.bytes;
    StartWritten(tracks, snk.bytes);
    done := StartPlan(tracks);
    var dtsOut, chunkIdx := 0, 0;
    while chunkIdx < chunkNum
      invariant 0 <= chunkIdx <= chunkNum && prefix <= snk.bytes
      invariant Distinct(tracks) && Written(tracks, done, snk.bytes, start)
      invariant Scheduled(done) && |done.order| == chunkIdx && done.times == old(AllTimes(tracks))
      invariant TracksInOrder(done.times) ==> ScheduledInOrder(done, dtsOut)
      invariant TimesFit(done.times)
    {
      dtsOut, done := EmitRound(tracks, dtsOut, snk, done, start);
      chunkIdx := chunkIdx + 1;
    }
    SomethingPending(done.progress, Lengths(done.times));
    AllRead(tracks, done, snk.bytes, start);
    HeaderStands(old(snk.bytes), snk.bytes, mdatSize);
    return true, done;
  }

  ghost function StartPlan(tracks: seq<TrackOutput>): Plan
    reads tracks
  {
    var zeros := seq(|tracks|, _ => 0);
    Plan(AllTimes(tracks), zeros, [], [], zeros)
  }

  lemma FreshTrack(track: TrackOutput, bytes: seq<Byte>)
    requires track.Valid() && track.chunkToOut == 0
    ensures track.Placed(bytes) && track.filePos == 0
  {
    assert track.samples[..0] == [];
  }

  lemma StartWritten(tracks: seq<TrackOutput>, bytes: seq<Byte>)
    requires Fresh(tracks)
    ensures var p := StartPlan(tracks);
      Scheduled(p) && Written(tracks, p, bytes, |bytes|) && ScheduledInOrder(p, 0)
  {
    hide TrackOutput.Valid, TrackOutput.Placed;
    var p := StartPlan(tracks);
    SumZeros(p.outs);
    forall t | 0 <= t < |tracks| ensures tracks[t].Placed(bytes) && tracks[t].filePos == 0 {
      FreshTrack(tracks[t], bytes);
    }
    assert Reflects(tracks, p.times, p.progress);
  }

  lemma {:induction false} SumZeros(s: seq<nat>)
    requires forall i | 0 <= i < |s| :: s[i] == 0
    ensures Sum(s) == 0
  {
    if s != [] { SumZeros(s[..|s| - 1]); }
  }

  /** Once every chunk is out, every temporary file has been read to its end. */
  lemma AllRead(tracks: seq<TrackOutput>, p: Plan, bytes: seq<Byte>, start: nat)
    requires Written(tracks, p, bytes, start) && p.progress == Lengths(p.times)
    ensures p.outs == MdatSizes(tracks)
  {
    hide TrackOutput.Valid, TrackOutput.Placed, Tile, Sum, Recorded;
    forall t | 0 <= t < |tracks| ensures p.outs[t] == tracks[t].mdatSize {
      ReadToEnd(tracks[t]);
    }
  }

  lemma ReadToEnd(track: TrackOutput)
    requires track.Valid() && track.chunkToOut == |track.chunkLst|
    ensures track.filePos == track.mdatSize
  {
    hide Sum, Expand, Canonical, Total, IsChunk;
    assert track.Done() == |track.samples|;
    assert track.samples[..|track.samples|] == track.samples;
    BytesLength(track.samples);
  }
}
