/** What a split of a track into fragments has to satisfy, and why taking the longest fragment each
    time gives the fewest fragments. */
module FragmentSplit {

  /** Samples start..stop-1. */
  datatype Frag = Frag(start: nat, stop: nat)

  /** A track to be split.  `times` holds the decode time of every sample followed by the end of the
      last one; `syncs` and `descs` are the numbers of the sync samples and of the samples that open
      a sample description; no fragment may last longer than `max`. */
  datatype Source = Source(times: seq<nat>, syncs: seq<nat>, descs: seq<nat>, max: nat)
  {
    function N(): int { |times| - 1 }
  }

  ghost predicate Increasing(s: seq<nat>) {
    forall i, j | 0 <= i < j < |s| :: s[i] < s[j]
  }

  /** Decode times increase, no sample lasts longer than a fragment may, and sync samples and description
      starts are sample numbers in order. */
  ghost predicate WellTimed(src: Source) {
    && src.N() > 0
    && (forall i, j | 0 <= i < j < src.N() :: src.times[i] < src.times[j])
    && src.times[src.N() - 1] <= src.times[src.N()]
    && (forall i, j | 0 <= i && j == i + 1 && j < |src.times| :: src.times[j] - src.times[i] <= src.max)
    && Increasing(src.syncs) && (forall i | 0 <= i < |src.syncs| :: src.syncs[i] < src.N())
    && Increasing(src.descs) && (forall i | 0 <= i < |src.descs| :: src.descs[i] < src.N())
  }

  /** s..e-1 may form a fragment: not empty, not too long, one sample description. */
  predicate Fits(src: Source, s: nat, e: nat) {
    && s < e < |src.times|
    && src.times[e] - src.times[s] <= src.max
    && forall d | d in src.descs :: !(s < d < e)
  }

  /** Consecutive non-empty ranges from 0 to n. */
  ghost predicate Partition(frags: seq<Frag>, n: int) {
    && (frags != [] ==> frags[0].start == 0)
    && (forall i, j | 0 <= i && j == i + 1 && j < |frags| :: frags[i].stop == frags[j].start)
    && (forall i | 0 <= i < |frags| :: frags[i].start < frags[i].stop)
    && Covered(frags) == n
  }

  /** Consecutive ranges from 0, of which some may be empty. */
  ghost predicate Consecutive(frags: seq<Frag>) {
    && (frags != [] ==> frags[0].start == 0)
    && (forall i, j | 0 <= i && j == i + 1 && j < |frags| :: frags[i].stop == frags[j].start)
    && forall i | 0 <= i < |frags| :: frags[i].start <= frags[i].stop
  }

  function Covered(frags: seq<Frag>): nat {
    if frags == [] then 0 else frags[|frags| - 1].stop
  }

  /** Where a fragment may end: anywhere, or, when aligned, at a sync sample or at the end. */
  predicate Allowed(src: Source, aligned: bool, b: nat) {
    aligned ==> b == src.N() || b in src.syncs
  }

  /** f reaches every allowed end that its start could reach. */
  ghost predicate Longest(src: Source, aligned: bool, f: Frag) {
    forall b: nat | Allowed(src, aligned, b) && Fits(src, f.start, b) :: b <= f.stop
  }

  ghost predicate AllFit(src: Source, frags: seq<Frag>) {
    forall i | 0 <= i < |frags| :: Fits(src, frags[i].start, frags[i].stop)
  }

  /** Starting later never shortens the reach. */
  lemma FitsLater(src: Source, s: nat, s': nat, e: nat)
    requires WellTimed(src) && Fits(src, s, e) && s <= s' < e
    ensures Fits(src, s', e)
  {
  }

  lemma {:induction false} LongestStaysAhead(src: Source, aligned: bool, frags: seq<Frag>, other: seq<Frag>, k: nat)
    requires WellTimed(src) && Partition(frags, src.N()) && Partition(other, src.N())
    requires forall i | 0 <= i < |frags| :: Longest(src, aligned, frags[i])
    requires forall i | 0 <= i < |other| ::
      Fits(src, other[i].start, other[i].stop) && Allowed(src, aligned, other[i].stop)
    requires k < |frags| && k < |other|
    ensures frags[k].stop >= other[k].stop
  {
    if k > 0 { LongestStaysAhead(src, aligned, frags, other, k - 1); }
    assert other[k].start <= frags[k].start;
    if frags[k].start < other[k].stop {
      FitsLater(src, other[k].start, frags[k].start, other[k].stop);
    }
  }

  /** Any split into allowed, fitting fragments needs at least as many as a split into longest ones. */
  lemma FewestFragments(src: Source, aligned: bool, frags: seq<Frag>, other: seq<Frag>)
    requires WellTimed(src) && Partition(frags, src.N()) && Partition(other, src.N())
    requires forall i | 0 <= i < |frags| :: Longest(src, aligned, frags[i])
    requires forall i | 0 <= i < |other| ::
      Fits(src, other[i].start, other[i].stop) && Allowed(src, aligned, other[i].stop)
    ensures |frags| <= |other|
  {
    if |frags| > |other| {
      var k := |other| - 1;
      LongestStaysAhead(src, aligned, frags, other, k);
      StopsIncrease(frags, k, |frags| - 1);
    }
  }

  lemma {:induction false} StopsIncrease(frags: seq<Frag>, i: nat, j: nat)
    requires i <= j < |frags|
    requires forall a, b | 0 <= a && b == a + 1 && b < |frags| :: frags[a].stop == frags[b].start
    requires forall a | 0 <= a < |frags| :: frags[a].start < frags[a].stop
    ensures i < j ==> frags[i].stop < frags[j].stop
    decreases j
  {
    if i < j - 1 { StopsIncrease(frags, i, j - 1); }
  }

  /** No split into allowed, fitting fragments has fewer of them. */
  ghost predicate IsFewest(src: Source, aligned: bool, frags: seq<Frag>) {
    forall other: seq<Frag> |
      && Partition(other, src.N())
      && forall i | 0 <= i < |other| ::
        Fits(src, other[i].start, other[i].stop) && Allowed(src, aligned, other[i].stop) ::
      |frags| <= |other|
  }

  lemma LongestIsFewest(src: Source, aligned: bool, frags: seq<Frag>)
    requires WellTimed(src) && Partition(frags, src.N())
    requires forall i | 0 <= i < |frags| :: Longest(src, aligned, frags[i])
    ensures IsFewest(src, aligned, frags)
  {
    forall other: seq<Frag> |
      && Partition(other, src.N())
      && forall i | 0 <= i < |other| :: Fits(src, other[i].start, other[i].stop) && Allowed(src, aligned, other[i].stop)
      ensures |frags| <= |other|
    {
      FewestFragments(src, aligned, frags, other);
    }
  }

  /** Fragment k starts where the earlier ones end, and ends inside what is covered. */
  lemma {:induction false} ConsecutiveStops(frags: seq<Frag>, k: nat)
    requires Consecutive(frags) && k < |frags|
    ensures Consecutive(frags[..k]) && Covered(frags[..k]) == frags[k].start <= frags[k].stop <= Covered(frags)
    decreases |frags| - k
  {
    if k + 1 < |frags| { ConsecutiveStops(frags, k + 1); }
  }
}
