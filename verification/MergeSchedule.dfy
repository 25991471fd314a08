/** The order in which write_mdat_box of src/mp4_muxer.c emits chunks, as a property of the chunk
    times alone: the stable merge of the tracks by (chunk time, track, chunk). */
module MergeSchedule {
  import opened RunLength

  /** Chunk `chunk` of track `track`. */
  datatype Slot = Slot(track: nat, chunk: nat)

  /** times[t][c] is the decode time of chunk c of track t; progress[t] chunks of it are out. */
  predicate Fits(times: seq<seq<nat>>, progress: seq<nat>) {
    |progress| == |times| && forall t | 0 <= t < |times| :: progress[t] <= |times[t]|
  }

  predicate Pending(times: seq<seq<nat>>, progress: seq<nat>, t: nat)
    requires Fits(times, progress)
  {
    t < |times| && progress[t] < |times[t]|
  }

  function Head(times: seq<seq<nat>>, progress: seq<nat>, t: nat): nat
    requires Fits(times, progress) && Pending(times, progress, t)
  {
    times[t][progress[t]]
  }

  predicate ValidSlot(times: seq<seq<nat>>, s: Slot) {
    s.track < |times| && s.chunk < |times[s.track]|
  }

  predicate Before(times: seq<seq<nat>>, a: Slot, b: Slot)
    requires ValidSlot(times, a) && ValidSlot(times, b)
  {
    var x, y := times[a.track][a.chunk], times[b.track][b.chunk];
    x < y || (x == y && (a.track < b.track || (a.track == b.track && a.chunk < b.chunk)))
  }

  ghost predicate TracksInOrder(times: seq<seq<nat>>) {
    forall t, c, d | 0 <= t < |times| && 0 <= c < d < |times[t]| :: times[t][c] <= times[t][d]
  }

  /** The slots out so far are the first progress[t] chunks of every track, each once. */
  ghost predicate Emitted(times: seq<seq<nat>>, progress: seq<nat>, order: seq<Slot>)
    requires Fits(times, progress)
  {
    && (forall i | 0 <= i < |order| :: ValidSlot(times, order[i]) && order[i].chunk < progress[order[i].track])
    && (forall t, c | 0 <= t < |times| && 0 <= c < progress[t] :: Slot(t, c) in order)
    && (forall i, j | 0 <= i < j < |order| :: order[i] != order[j])
  }

  ghost predicate Sorted(times: seq<seq<nat>>, order: seq<Slot>)
    requires forall i | 0 <= i < |order| :: ValidSlot(times, order[i])
  {
    forall i, j | 0 <= i < j < |order| :: Before(times, order[i], order[j])
  }

  /** Everything pending comes after everything emitted. */
  ghost predicate Frontier(times: seq<seq<nat>>, progress: seq<nat>, order: seq<Slot>)
    requires Fits(times, progress) && Emitted(times, progress, order)
  {
    forall i, t: nat | 0 <= i < |order| && Pending(times, progress, t) ::
      Before(times, order[i], Slot(t, progress[t]))
  }

  ghost predicate IsNext(times: seq<seq<nat>>, progress: seq<nat>, t: nat)
    requires Fits(times, progress)
  {
    && Pending(times, progress, t)
    && forall u | 0 <= u < |times| && Pending(times, progress, u) ::
         Head(times, progress, t) < Head(times, progress, u)
           || (Head(times, progress, t) == Head(times, progress, u) && t <= u)
  }

  /** No pending chunk is earlier than the time the scheduler works on. */
  ghost predicate NoneEarlier(times: seq<seq<nat>>, progress: seq<nat>, dtsOut: nat)
    requires Fits(times, progress)
  {
    forall u | 0 <= u < |times| && Pending(times, progress, u) :: dtsOut <= Head(times, progress, u)
  }

  function Advance(progress: seq<nat>, t: nat): seq<nat>
    requires t < |progress|
  {
    progress[t := progress[t] + 1]
  }

  lemma AdvanceEmitted(times: seq<seq<nat>>, progress: seq<nat>, order: seq<Slot>, t: nat)
    requires Fits(times, progress) && Emitted(times, progress, order) && Pending(times, progress, t)
    ensures Fits(times, Advance(progress, t))
    ensures Emitted(times, Advance(progress, t), order + [Slot(t, progress[t])])
  {
    var order' := order + [Slot(t, progress[t])];
    assert order'[|order|] == Slot(t, progress[t]);
    forall u, c | 0 <= u < |times| && 0 <= c < Advance(progress, t)[u] ensures Slot(u, c) in order' {
      if c < progress[u] { assert Slot(u, c) in order; }
    }
  }

  /** Taking the least head keeps the output sorted and below everything pending. */
  lemma AdvanceSorted(times: seq<seq<nat>>, progress: seq<nat>, order: seq<Slot>, t: nat)
    requires Fits(times, progress) && Emitted(times, progress, order) && TracksInOrder(times)
    requires Sorted(times, order) && Frontier(times, progress, order) && IsNext(times, progress, t)
    ensures Fits(times, Advance(progress, t))
    ensures Emitted(times, Advance(progress, t), order + [Slot(t, progress[t])])
    ensures Sorted(times, order + [Slot(t, progress[t])])
    ensures Frontier(times, Advance(progress, t), order + [Slot(t, progress[t])])
    ensures NoneEarlier(times, Advance(progress, t), Head(times, progress, t))
  {
    AdvanceEmitted(times, progress, order, t);
    var order', progress' := order + [Slot(t, progress[t])], Advance(progress, t);
    forall i, u: nat | 0 <= i < |order'| && Pending(times, progress', u)
      ensures Before(times, order'[i], Slot(u, progress'[u]))
    {
      assert Pending(times, progress, u);
      if i < |order| { assert Before(times, order[i], Slot(u, progress[u])); }
      if u == t { assert times[t][progress[t]] <= times[t][progress'[t]]; }
    }
  }

  function Lengths(times: seq<seq<nat>>): (r: seq<nat>)
    ensures |r| == |times| && forall t | 0 <= t < |times| :: r[t] == |times[t]|
  {
    seq(|times|, t requires 0 <= t < |times| => |times[t]|)
  }

  /** While fewer slots are out than there are, some track has one pending. */
  lemma {:induction false} SomethingPending(progress: seq<nat>, lengths: seq<nat>)
    requires |progress| == |lengths| && forall t | 0 <= t < |lengths| :: progress[t] <= lengths[t]
    ensures Sum(progress) <= Sum(lengths)
    ensures Sum(progress) < Sum(lengths) ==> exists t | 0 <= t < |lengths| :: progress[t] < lengths[t]
    ensures Sum(progress) == Sum(lengths) ==> progress == lengths
  {
    if progress != [] {
      var n := |progress| - 1;
      SomethingPending(progress[..n], lengths[..n]);
      if t :| 0 <= t < n && progress[..n][t] < lengths[..n][t] {
        assert progress[t] < lengths[t];
      }
    }
  }

  lemma SomeTrackPending(times: seq<seq<nat>>, progress: seq<nat>)
    requires Fits(times, progress) && Sum(progress) < Sum(Lengths(times))
    ensures exists u | 0 <= u < |times| :: Pending(times, progress, u)
  {
    SomethingPending(progress, Lengths(times));
    var t :| 0 <= t < |times| && progress[t] < Lengths(times)[t];
    assert Pending(times, progress, t);
  }

  /** An emitted slot sits at one place, and places are compared by Before. */
  lemma PlaceOf(times: seq<seq<nat>>, order: seq<Slot>, i: nat, k: nat)
    requires Emitted(times, Lengths(times), order) && Sorted(times, order) && i < |order| && k < |order|
    ensures ValidSlot(times, order[i]) && ValidSlot(times, order[k])
    ensures k < i <==> Before(times, order[k], order[i])
    ensures k == i <==> order[k] == order[i]
  {
    assert k < i ==> Before(times, order[k], order[i]);
    assert i < k ==> Before(times, order[i], order[k]);
  }

  lemma {:induction false} OrderPrefix(times: seq<seq<nat>>, a: seq<Slot>, b: seq<Slot>, n: nat)
    requires Emitted(times, Lengths(times), a) && Emitted(times, Lengths(times), b)
    requires Sorted(times, a) && Sorted(times, b)
    requires n <= |a| && n <= |b|
    ensures forall k | 0 <= k < n :: a[k] == b[k]
  {
    if n > 0 {
      hide Emitted, Sorted, Before;
      OrderPrefix(times, a, b, n - 1);
      PlaceOf(times, a, n - 1, n - 1);
      PlaceOf(times, b, n - 1, n - 1);
      var x, y := a[n - 1], b[n - 1];
      var i, j := Find(times, b, x), Find(times, a, y);
      PlaceOf(times, b, i, n - 1);
      PlaceOf(times, a, j, n - 1);
      PlaceOf(times, a, if i < n then i else 0, n - 1);
      PlaceOf(times, b, if j < n then j else 0, n - 1);
      NotBothBefore(times, x, y);
    }
  }

  lemma NotBothBefore(times: seq<seq<nat>>, x: Slot, y: Slot)
    requires ValidSlot(times, x) && ValidSlot(times, y)
    ensures !(Before(times, x, y) && Before(times, y, x))
  {
  }

  ghost function Find(times: seq<seq<nat>>, order: seq<Slot>, s: Slot): (i: nat)
    requires Emitted(times, Lengths(times), order) && ValidSlot(times, s)
    ensures i < |order| && order[i] == s
  {
    assert Slot(s.track, s.chunk) in order;
    var i: nat :| i < |order| && order[i] == s;
    i
  }

  /** The emission order is determined: two complete sorted orders of the same chunks are equal. */
  lemma OrderIsUnique(times: seq<seq<nat>>, a: seq<Slot>, b: seq<Slot>)
    requires Emitted(times, Lengths(times), a) && Emitted(times, Lengths(times), b)
    requires Sorted(times, a) && Sorted(times, b)
    ensures a == b
  {
    OrderPrefix(times, a, b, if |a| < |b| then |a| else |b|);
    if |a| < |b| {
      var i := Find(times, a, b[|a|]);
    } else if |b| < |a| {
      var i := Find(times, b, a[|b|]);
    }
  }
}
