/** Histories of lookups on one stream of src/mp4_stream.c: whatever was asked before, every answer is the one
    a search from the start of the tables gives, but for one case of the previous sync sample. */
module QueryHistory {
  import opened RunLength
  import opened SampleReader
  import opened SampleTables

  datatype Query =
    | TimingOf(sample: nat)
    | CtsOffsetOf(sample: nat)
    | DurationOf(sample: nat)
    | SizeOf(sample: nat)
    | OffsetOf(sample: nat)
    | PrevSyncOf(sample: nat)
    | IdxAt(time: nat)

  datatype Reply = Timing(dts: nat, ctsOffset: nat) | Place(offset: nat, descIndex: nat) | Number(n: nat)

  /** The reply of a search from the start. */
  ghost predicate Stateless(t: TrackTables, q: Query, r: Reply) {
    match q
    case TimingOf(i) =>
      r == Timing(t.Dts(t.Clamp(i)), if t.Clamp(i) < |Expand(t.stts)| then t.CtsOffset(t.Clamp(i)) else 0)
    case CtsOffsetOf(i) => r == Number(t.CtsOffset(t.Clamp(i)))
    case DurationOf(i) => r == Number(t.Duration(t.Clamp(i)))
    case SizeOf(i) => r == Number(t.Size(t.Clamp(i)))
    case OffsetOf(i) =>
      && r.Place? && t.Clamp(i) < t.sampleNum && r.offset == t.Offset(t.Clamp(i))
      && exists e | 0 <= e < |t.stsc| :: t.Covers(e, t.ChunkOf(t.Clamp(i))) && r.descIndex == t.stsc[e].descIndex
    case PrevSyncOf(i) => r == Number(if t.stss == [] then t.Clamp(i) else t.PrevSync(t.Clamp(i), |t.stss|))
    case IdxAt(time) => r == Number(t.SampleAt(time))
  }

  /** The query moves the search position of the sync samples off its start. */
  predicate LeavesStart(t: Tables, q: Query) {
    q.PrevSyncOf? && |t.stss| > 1 && t.stss[1] - 1 <= t.Clamp(q.sample)
  }

  /** No query of the history has moved it, and the start is not a sync sample. */
  predicate AtStart(t: Tables, history: seq<Query>) {
    t.stss != [] && t.stss[0] > 1 && forall k | 0 <= k < |history| :: !LeavesStart(t, history[k])
  }

  /** The query is answered wrongly after this history. */
  predicate Misled(t: Tables, history: seq<Query>, q: Query) {
    q.PrevSyncOf? && AtStart(t, history) && !LeavesStart(t, q)
  }

  /** One query. */
  method Ask(stream: Stream, q: Query, ghost history: seq<Query>) returns (r: Reply)
    requires stream.Valid()
    requires stream.t.stss != [] && stream.t.stss[0] > 1 ==>
      (stream.Unsearched(stream.stssAt) <==> AtStart(stream.t, history))
    modifies stream
    ensures stream.Valid()
    ensures stream.t.stss != [] && stream.t.stss[0] > 1 ==>
      (stream.Unsearched(stream.stssAt) <==> AtStart(stream.t, history + [q]))
    ensures Stateless(stream.t, q, r) <==> !Misled(stream.t, history, q)
    ensures Misled(stream.t, history, q) ==> r == Number(0)
  {
    hide Stream.Valid, Expand, Tables.Offset, Tables.PrevSync, Tables.SampleAt, Tables.Dts, Tables.Consistent;
    HistoryGrows(stream.t, history, q);
    match q
    case TimingOf(i) =>
      var dts, ctsOffset := stream.SampleTiming(i);
      r := Timing(dts, ctsOffset);
    case CtsOffsetOf(i) =>
      var n := stream.SampleCtsOffset(i);
      r := Number(n);
    case DurationOf(i) =>
      var n := stream.SampleDuration(i);
      r := Number(n);
    case SizeOf(i) =>
      var n := stream.SampleSize(i);
      r := Number(n);
    case OffsetOf(i) =>
      var offset, descIndex := stream.SampleOffset(i);
      r := Place(offset, descIndex);
    case PrevSyncOf(i) =>
      var n := stream.PrevSyncSampleIdx(i);
      r := Number(n);
    case IdxAt(time) =>
      var n := stream.SampleIdx(time);
      r := Number(n);
  }

  lemma HistoryGrows(t: Tables, history: seq<Query>, q: Query)
    ensures AtStart(t, history + [q]) <==> AtStart(t, history) && !LeavesStart(t, q)
  {
    assert forall k | 0 <= k < |history| :: (history + [q])[k] == history[k];
    assert (history + [q])[|history|] == q;
  }

  /** Main result for histories: any queries in any order on a new stream.  Every reply is the stateless one,
      except that a query for the previous sync sample is answered 0, wrongly, exactly as long as no query has
      moved that search position from a start that is not a sync sample. */
  method AskAll(t: TrackTables, queries: seq<Query>) returns (replies: seq<Reply>)
    ensures |replies| == |queries|
    ensures forall k | 0 <= k < |queries| :: Stateless(t, queries[k], replies[k]) <==>
      !Misled(t, queries[..k], queries[k])
    ensures forall k | 0 <= k < |queries| :: Misled(t, queries[..k], queries[k]) ==> replies[k] == Number(0)
  {
    hide Stream.Valid, Stateless, Misled, LeavesStart;
    var stream := new Stream(t);
    replies := [];
    while |replies| < |queries|
      invariant |replies| <= |queries| && stream.Valid() && stream.t == t
      invariant t.stss != [] && t.stss[0] > 1 ==>
        (stream.Unsearched(stream.stssAt) <==> AtStart(t, queries[..|replies|]))
      invariant forall k | 0 <= k < |replies| :: Stateless(t, queries[k], replies[k]) <==>
        !Misled(t, queries[..k], queries[k])
      invariant forall k | 0 <= k < |replies| :: Misled(t, queries[..k], queries[k]) ==> replies[k] == Number(0)
    {
      ghost var k := |replies|;
      var r := Ask(stream, queries[|replies|], queries[..k]);
      assert queries[..k + 1] == queries[..k] + [queries[k]];
      replies := replies + [r];
    }
  }

  // -------------------------------------------------------------- a wrong answer

  /** Five samples, of which only the third is a sync sample. */
  const ONE_SYNC := Tables(5, 0, [Run(5, 1)], [], [StscEntry(1, 5, 1)], 1, [], [0], [3])

  lemma OneSyncIsWellFormed()
    ensures WellFormed(ONE_SYNC)
  {
    assert ONE_SYNC.ChunkRuns() == [Run(1, 5)];
  }

  /** On a new stream the previous sync sample of sample 0, which there is none, is answered 0. */
  method FirstSyncInvented() returns (replies: seq<Reply>)
    ensures replies == [Number(0)] && !Stateless(ONE_SYNC, PrevSyncOf(0), replies[0])
  {
    OneSyncIsWellFormed();
    var queries := [PrevSyncOf(0)];
    replies := AskAll(ONE_SYNC, queries);
    assert Misled(ONE_SYNC, queries[..0], queries[0]);
  }
}
