/** Tracks that create_fragment_lst of src/mp4_muxer.c splits wrongly, one for each way in which a start goes
    wrong and two where more fragments come out than needed, and a track that is written wrongly.  Times and ranges
    are in milliseconds. */
module FragmentCases {
  import opened FragmentSplit
  import opened FragmentRule
  import opened Fragmenter
  import opened FragmentReader
  import opened FragmentWriter
  import opened RunLength
  import opened TimeScale

  lemma Milliseconds(x: nat)
    requires x < 100
    ensures Rescale(x, 1000, 1000) == x
  {
  }

  /** Splits a track in milliseconds, without asking for sync samples at the starts. */
  method Split(dts: seq<nat>, syncs: seq<nat>, descs: seq<nat>, duration: nat, max: nat, min: nat, ghost r: Rule)
      returns (ok: bool, frags: seq<Frag>)
    requires r.Ok() && dts != [] && r == Rule(Source(dts + [dts[0] + duration], syncs, descs, max), min, false)
    requires max < 100 && dts[0] + duration < 100
    ensures ok && frags == r.All()
  {
    hide WellTimed, Rescale, Rule.All;
    Milliseconds(max);
    Milliseconds(min);
    var track := new Track(dts, syncs, descs, duration, 1000, false, max);
    ok := track.CreateFragmentList(max, min, false);
    frags := track.segmentLst;
  }

  // -------------------------------------------------------------- the last sample has no duration

  /** A mixed track whose last sample is a sync sample without duration. */
  const LOSING := Rule(Source([0, 1, 2, 2], [2], [0], 2), 1, false)

  lemma LastSampleLostByRule()
    ensures LOSING.Ok() && LOSING.All() == [Frag(0, 2)]
  {
    assert LOSING.Stop(0, 0) == 2;
    assert LOSING.Split(2, 2) == [];
  }

  /** The last sample is in no fragment. */
  method LastSampleLost() returns (ok: bool, frags: seq<Frag>)
    ensures ok && frags == [Frag(0, 2)]
  {
    hide Rule.Ok, Rule.All, IsFewest;
    LastSampleLostByRule();
    assert [0, 1, 2] + [2] == [0, 1, 2, 2];
    ok, frags := Split([0, 1, 2], [2], [0], 2, 2, 1, LOSING);
  }

  /** One sample without duration. */
  const SINGLE := Rule(Source([0, 0], [0], [0], 2), 1, false)

  lemma OnlySampleLostByRule()
    ensures SINGLE.Ok() && SINGLE.All() == []
  {
  }

  /** There is no fragment at all. */
  method OnlySampleLost() returns (ok: bool, frags: seq<Frag>)
    ensures ok && frags == []
  {
    hide Rule.Ok, Rule.All, IsFewest;
    OnlySampleLostByRule();
    assert [0] + [0] == [0, 0];
    ok, frags := Split([0], [0], [0], 0, 2, 1, SINGLE);
  }

  /** The last sample has no duration and opens a description. */
  const STRADDLED := Rule(Source([0, 1, 1], [0, 1], [0, 1], 2), 1, false)

  lemma DescriptionStraddledByRule()
    ensures STRADDLED.Ok() && STRADDLED.All() == [Frag(0, 2)]
  {
    assert STRADDLED.Stop(0, 0) == 2;
    assert STRADDLED.Split(2, 1) == [];
  }

  /** The fragment takes it in all the same. */
  method DescriptionStraddled() returns (ok: bool, frags: seq<Frag>)
    ensures ok && frags == [Frag(0, 2)] && !Fits(STRADDLED.src, 0, 2)
  {
    hide Rule.Ok, Rule.All, IsFewest;
    DescriptionStraddledByRule();
    assert [0, 1] + [1] == [0, 1, 1];
    ok, frags := Split([0, 1], [0, 1], [0, 1], 1, 2, 1, STRADDLED);
    assert 1 in STRADDLED.src.descs;
  }

  // -------------------------------------------------------------- decode times do not start at 0

  /** Two sync samples, at 50 and 60. */
  const LATE := Rule(Source([50, 60, 70], [0, 1], [0], 20), 10, false)

  lemma LateSampleLostByRule()
    ensures LATE.Ok() && LATE.All() == [Frag(0, 1)]
  {
    assert LATE.Stop(0, 0) == 1;
    assert LATE.Split(1, 60) == [];
  }

  /** The second sample does not come before the media duration of 20, and is in no fragment. */
  method LateSampleLost() returns (ok: bool, frags: seq<Frag>)
    ensures ok && frags == [Frag(0, 1)]
  {
    hide Rule.Ok, Rule.All, IsFewest;
    LateSampleLostByRule();
    assert [50, 60] + [70] == [50, 60, 70];
    ok, frags := Split([50, 60], [0, 1], [0], 20, 20, 10, LATE);
  }

  /** The limit of 10 lies between the first two samples. */
  const BETWEEN := Rule(Source([5, 12, 22], [0, 1], [0], 10), 1, false)

  lemma FirstFragmentEmptyByRule()
    ensures BETWEEN.Ok() && BETWEEN.All() == [Frag(0, 0), Frag(0, 1), Frag(1, 2)]
  {
    assert BETWEEN.Stop(1, 12) == 2;
    assert BETWEEN.Split(1, 12) == [Frag(1, 2)];
    assert BETWEEN.Stop(0, 5) == 1;
    assert BETWEEN.Split(0, 5) == [Frag(0, 1), Frag(1, 2)];
    assert BETWEEN.Stop(0, 0) == 0;
  }

  /** The first fragment is empty. */
  method FirstFragmentEmpty() returns (ok: bool, frags: seq<Frag>)
    ensures ok && frags == [Frag(0, 0), Frag(0, 1), Frag(1, 2)]
  {
    hide Rule.Ok, Rule.All, IsFewest;
    FirstFragmentEmptyByRule();
    assert [5, 12] + [22] == [5, 12, 22];
    ok, frags := Split([5, 12], [0, 1], [0], 17, 10, 1, BETWEEN);
  }

  /** The track ends at 11, the media duration is 8. */
  const TOO_FAR := Rule(Source([3, 5, 7, 9, 11], [0, 1, 2, 3], [0], 5), 1, false)

  lemma LateEndTooFarByRule()
    ensures TOO_FAR.Ok() && TOO_FAR.All() == [Frag(0, 1), Frag(1, 4)]
  {
    assert TOO_FAR.Stop(1, 5) == 4;
    assert TOO_FAR.Split(1, 5) == [Frag(1, 4)];
    assert TOO_FAR.Stop(0, 0) == 1;
  }

  /** The last fragment lasts longer than 5, because the limit is compared with the media duration. */
  method LateEndTooFar() returns (ok: bool, frags: seq<Frag>)
    ensures ok && frags == [Frag(0, 1), Frag(1, 4)] && !Fits(TOO_FAR.src, 1, 4)
  {
    hide Rule.Ok, Rule.All, IsFewest;
    LateEndTooFarByRule();
    assert [3, 5, 7, 9] + [11] == [3, 5, 7, 9, 11];
    ok, frags := Split([3, 5, 7, 9], [0, 1, 2, 3], [0], 8, 5, 1, TOO_FAR);
  }

  /** The first limit of 10 does not reach the last sample, a fragment from the first sample would. */
  const SHORT_START := Rule(Source([2, 8, 11, 12], [0, 1, 2], [0], 10), 1, false)

  lemma LateStartNotFewestByRule()
    ensures SHORT_START.Ok() && SHORT_START.All() == [Frag(0, 1), Frag(1, 3)]
  {
    assert SHORT_START.Stop(1, 8) == 3;
    assert SHORT_START.Split(1, 8) == [Frag(1, 3)];
    assert SHORT_START.Stop(0, 0) == 1;
  }

  /** Both fragments fit, yet one would do. */
  method LateStartNotFewest() returns (ok: bool, frags: seq<Frag>)
    ensures ok && frags == [Frag(0, 1), Frag(1, 3)] && !IsFewest(SHORT_START.src, false, frags)
  {
    hide Rule.Ok, Rule.All, IsFewest;
    LateStartNotFewestByRule();
    assert [2, 8, 11] + [12] == [2, 8, 11, 12];
    ok, frags := Split([2, 8, 11], [0, 1, 2], [0], 10, 10, 1, SHORT_START);
    OneFragment();
  }

  lemma OneFragment()
    ensures !IsFewest(SHORT_START.src, false, [Frag(0, 1), Frag(1, 3)])
  {
    var one := [Frag(0, 3)];
    assert Partition(one, 3) && |one| == 1;
    assert Fits(SHORT_START.src, 0, 3) && Allowed(SHORT_START.src, false, 3);
  }

  /** A track of one sample at time 5: its fragment is written without the sample. */
  method LateAloneLost() returns (trafs: seq<Traf>)
    ensures trafs == []
  {
    hide FragTrack.CursorsAt, FragTrack.ListsOk;
    OneSample();
    var cfg := Config(false, false, false, false, false);
    var writer := new FragTrack(cfg, [5], 10, [Run(1, 7)], [Run(1, 0)], [], true);
    trafs := writer.WriteFragments([Frag(0, 1)]);
  }

  lemma OneSample()
    ensures Expand([Run(1, 7)]) == [7] && Expand([Run(1, 0)]) == [0] && Canonical([Run(1, 7)]) && Canonical([Run(1, 0)])
  {
    assert [Run(1, 7)][..0] == [] == [Run(1, 0)][..0];
    assert Repeat(7, 1) == [7] && Repeat(0, 1) == [0];
  }

  // -------------------------------------------------------------- the end is missed

  /** A mixed track that ends exactly at the limit of its first fragment. */
  const MISSED := Rule(Source([0, 1, 2, 3, 4], [0, 2], [0], 4), 1, false)

  lemma EndMissedByRule()
    ensures MISSED.Ok() && MISSED.All() == [Frag(0, 2), Frag(2, 4)]
  {
    assert MISSED.Stop(2, 2) == 4;
    assert MISSED.Split(2, 2) == [Frag(2, 4)];
    assert MISSED.Stop(0, 0) == 2;
  }

  /** One fragment would do, yet the track is cut at the last sync sample. */
  method EndMissed() returns (ok: bool, frags: seq<Frag>)
    ensures ok && frags == [Frag(0, 2), Frag(2, 4)] && !IsFewest(MISSED.src, true, frags)
  {
    hide Rule.Ok, Rule.All, IsFewest;
    EndMissedByRule();
    assert [0, 1, 2, 3] + [4] == [0, 1, 2, 3, 4];
    ok, frags := Split([0, 1, 2, 3], [0, 2], [0], 4, 4, 1, MISSED);
    OneWouldDo();
  }

  lemma OneWouldDo()
    ensures !IsFewest(MISSED.src, true, [Frag(0, 2), Frag(2, 4)])
  {
    var one := [Frag(0, 4)];
    assert Partition(one, 4) && |one| == 1;
    assert Fits(MISSED.src, 0, 4) && Allowed(MISSED.src, true, 4);
  }
}
