/** create_fragment_lst of src/mp4_muxer.c for one track: list cursors over samples, sync samples and
    description starts, and a greedy choice of each fragment's end, which follows FragmentRule. */
module Fragmenter {
  import opened FragmentSplit
  import opened FragmentRule
  import opened TimeScale

  const NO_LIMIT := 0xFFFF_FFFF_FFFF_FFFF

  class Track {
    ghost const src: Source
    const dtsLst: seq<nat>
    const syncLst: seq<nat>
    const stsdLst: seq<nat>
    /** From the first decode time on. */
    const mediaDuration: nat
    const mediaScale: nat
    /** The track is coded as "stpp". */
    const oneSamplePerFrag: bool
    const allRapSamples: bool
    var dtsCur: nat
    var syncCur: nat
    var stsdCur: nat
    var segmentLst: seq<Frag>
    var fragNoSync: bool

    ghost predicate ListsOk() {
      && WellTimed(src) && dtsLst != [] && src.times == dtsLst + [dtsLst[0] + mediaDuration]
      && src.syncs == syncLst && src.descs == stsdLst
      && dtsLst[0] + mediaDuration + src.max < NO_LIMIT
      && (allRapSamples <==> |syncLst| == |dtsLst|)
    }

    /** The rule for this track and a least duration. */
    ghost function RuleFor(minDuration: nat): Rule {
      Rule(src, minDuration, oneSamplePerFrag)
    }

    /** The cursors stand at the first entries not before sample `start`; a description that opens with it may
        be passed already. */
    ghost predicate CursorsAt(start: nat)
      reads `dtsCur, `syncCur, `stsdCur
    {
      && SampleCursorsAt(start)
      && stsdCur <= |stsdLst|
      && (!oneSamplePerFrag && start < |dtsLst| ==> DescCursorAt(start))
    }

    ghost predicate DescCursorAt(start: nat)
      reads `stsdCur
    {
      && stsdCur <= |stsdLst|
      && (forall i | 0 <= i < stsdCur :: stsdLst[i] <= start)
      && (forall i | stsdCur <= i < |stsdLst| :: start <= stsdLst[i])
    }

    ghost predicate SampleCursorsAt(start: nat)
      reads `dtsCur, `syncCur
    {
      && dtsCur == start <= |dtsLst| && syncCur <= |syncLst|
      && (forall i | 0 <= i < syncCur :: syncLst[i] < start)
      && (forall i | syncCur <= i < |syncLst| :: start <= syncLst[i])
    }

    /** A round starts with sample `start`, for whose time the code takes `fragDts`. */
    ghost predicate AtRound(start: nat, fragDts: nat, minDuration: nat) {
      var r := RuleFor(minDuration);
      r.Ok() && r.N() == |dtsLst| && r.StartsAt(start, fragDts)
    }

    constructor (dts: seq<nat>, syncs: seq<nat>, stsds: seq<nat>, duration: nat, scale: nat, stpp: bool, ghost max: nat)
      requires dts != [] && WellTimed(Source(dts + [dts[0] + duration], syncs, stsds, max))
      requires dts[0] + duration + max < NO_LIMIT
      ensures ListsOk() && CursorsAt(0) && segmentLst == []
      ensures src == Source(dts + [dts[0] + duration], syncs, stsds, max)
      ensures oneSamplePerFrag == stpp && mediaScale == scale
    {
      src := Source(dts + [dts[0] + duration], syncs, stsds, max);
      dtsLst, syncLst, stsdLst, mediaDuration, mediaScale := dts, syncs, stsds, duration, scale;
      oneSamplePerFrag, allRapSamples := stpp, |syncs| == |dts|;
      dtsCur, syncCur, stsdCur, segmentLst, fragNoSync := 0, 0, 0, [], false;
    }

    /** The lists are those of the rule. */
    lemma ListsAre(minDuration: nat)
      requires ListsOk() && minDuration < src.max
      ensures var r := RuleFor(minDuration);
        && r.Ok() && r.N() == |dtsLst| > 0 && r.D() == mediaDuration
        && (forall i | 0 <= i < |dtsLst| :: r.T(i) == dtsLst[i]) && r.T(|dtsLst|) == dtsLst[0] + mediaDuration
        && dtsLst[|dtsLst| - 1] <= dtsLst[0] + mediaDuration
        && (r.AllSync() <==> allRapSamples)
      ensures src.syncs == syncLst && src.descs == stsdLst
      ensures forall a, b | 0 <= a < b < |dtsLst| :: dtsLst[a] < dtsLst[b]
      ensures forall i | 0 <= i < |syncLst| :: syncLst[i] < |dtsLst|
      ensures forall i | 0 <= i < |stsdLst| :: stsdLst[i] < |dtsLst|
    {
      var r := RuleFor(minDuration);
      assert forall i | 0 <= i < |dtsLst| :: src.times[i] == dtsLst[i];
    }

    lemma DescsIncrease()
      requires ListsOk()
      ensures forall i, j | 0 <= i < j < |stsdLst| :: stsdLst[i] < stsdLst[j]
    {
    }

    /** get_dts_max_sd */
    method GetDtsMaxSd(idxStart: nat, ghost minDuration: nat) returns (limit: nat)
      requires ListsOk() && CursorsAt(idxStart) && idxStart < |dtsLst| && !oneSamplePerFrag && minDuration < src.max
      modifies `stsdCur
      ensures var r := RuleFor(minDuration);
        && r.Ok() && r.N() == |dtsLst|
        && limit == if r.NextDesc(idxStart) < r.N() then r.T(r.NextDesc(idxStart)) else NO_LIMIT
      ensures DescCursorAt(idxStart) && forall i | stsdCur <= i < |stsdLst| :: idxStart < stsdLst[i]
    {
      hide ListsOk, Rule.Ok;
      ListsAre(minDuration);
      DescsIncrease();
      limit := NO_LIMIT;
      if stsdCur < |stsdLst| && stsdLst[stsdCur] == idxStart {
        stsdCur := stsdCur + 1;
      }
      if stsdCur < |stsdLst| {
        limit := dtsLst[stsdLst[stsdCur]];
        assert stsdLst[stsdCur] in stsdLst;
      }
    }

    /** The search for the last sync sample in reach. */
    method ScanSync(start: nat, dtsMax: nat, ghost minDuration: nat)
        returns (idxStop: nat, dts: nat, found: bool, exhausted: bool)
      requires ListsOk() && SampleCursorsAt(start) && start < |dtsLst| && minDuration < src.max
      requires start > 0 ==> dtsLst[start] <= dtsMax
      ensures var r := RuleFor(minDuration);
        && r.Ok() && idxStop <= r.N() == |dtsLst| && dts == r.T(idxStop)
        && (exhausted <==> r.SyncsUsedUp(dtsMax)) && (found <==> start + 1 < r.LastOf(syncLst, dtsMax))
        && idxStop == if found then r.LastOf(syncLst, dtsMax) else start + 1
    {
      hide ListsOk, Rule.Ok, Rule.SyncsUsedUp, Rule.LastOf;
      ListsAre(minDuration);
      BeforeCursor(start);
      ghost var r := RuleFor(minDuration);
      idxStop, found := start + 1, false;
      dts := if start + 1 < |dtsLst| then dtsLst[start + 1] else dtsLst[0] + mediaDuration;
      var i := syncCur;
      while i < |syncLst| && dtsLst[syncLst[i]] <= dtsMax
        invariant syncCur <= i <= |syncLst|
        invariant start < idxStop <= |dtsLst| && dts == r.T(idxStop)
        invariant forall j | 0 <= j < i :: dtsLst[syncLst[j]] <= dtsMax
        invariant found ==> i > 0 && idxStop == syncLst[i - 1] > start + 1
        invariant !found ==> idxStop == start + 1 && (i > 0 ==> syncLst[i - 1] <= start + 1)
      {
        assert i > 0 ==> syncLst[i - 1] < syncLst[i] by { SyncsInOrder(); }
        if syncLst[i] > idxStop {
          idxStop := syncLst[i];
          dts := dtsLst[syncLst[i]];
          found := true;
        }
        i := i + 1;
      }
      exhausted := i == |syncLst|;
      ScanEnds(i, dtsMax, minDuration);
    }

    /** Sync samples before the cursor come before the sample. */
    lemma BeforeCursor(start: nat)
      requires ListsOk() && SampleCursorsAt(start) && start < |dtsLst|
      ensures forall j | 0 <= j < syncCur :: syncLst[j] < start && dtsLst[syncLst[j]] < dtsLst[start]
    {
      hide WellTimed;
      ListsInOrder();
    }

    /** The sync samples up to the limit are the first ones. */
    lemma ScanEnds(i: nat, limit: nat, minDuration: nat)
      requires ListsOk() && minDuration < src.max && i <= |syncLst|
      requires forall j | 0 <= j < i :: syncLst[j] < |dtsLst| && dtsLst[syncLst[j]] <= limit
      requires i < |syncLst| ==> syncLst[i] < |dtsLst| && limit < dtsLst[syncLst[i]]
      ensures var r := RuleFor(minDuration);
        && r.Ok() && (r.SyncsUsedUp(limit) <==> i == |syncLst|)
        && r.LastOf(syncLst, limit) == if i == 0 then 0 else syncLst[i - 1]
    {
      hide ListsOk, Rule.Ok, Rule.LastOf;
      ListsAre(minDuration);
      SyncsInOrder();
      var r := RuleFor(minDuration);
      var x := r.LastOf(syncLst, limit);
      if i > 0 { assert syncLst[i - 1] in syncLst; }
      if x in syncLst && r.T(x) <= limit {
        var j :| 0 <= j < |syncLst| && syncLst[j] == x;
      }
    }

    lemma SyncsInOrder()
      requires ListsOk()
      ensures forall i, j | 0 <= i < j < |syncLst| ::
        syncLst[i] < syncLst[j] < |dtsLst| && dtsLst[syncLst[i]] < dtsLst[syncLst[j]]
    {
      hide WellTimed;
      ListsInOrder();
    }

    lemma ListsInOrder()
      requires ListsOk()
      ensures forall a, b | 0 <= a < b < |dtsLst| :: dtsLst[a] < dtsLst[b]
      ensures forall i | 0 <= i < |syncLst| :: syncLst[i] < |dtsLst|
      ensures forall i, j | 0 <= i < j < |syncLst| :: syncLst[i] < syncLst[j]
    {
      assert forall i | 0 <= i < |dtsLst| :: src.times[i] == dtsLst[i];
    }

    /** Fills up with samples of any kind, up to the last one in reach; dts0 is the time found for stop0, which is
        the media duration when all sync samples are used up. */
    method Fill(start: nat, stop0: nat, dts0: nat, dtsMax: nat, ghost minDuration: nat) returns (idxStop: nat, dts: nat)
      requires ListsOk() && start < stop0 <= |dtsLst| && minDuration < src.max
      requires if stop0 < |dtsLst| then dts0 == dtsLst[stop0]
        else dts0 == dtsLst[0] + mediaDuration || dts0 == mediaDuration <= dtsMax
      requires dts0 <= dtsMax || stop0 == start + 1
      ensures var r := RuleFor(minDuration);
        && r.Ok() && r.N() == |dtsLst| && Reached(idxStop, dts)
        && idxStop == if stop0 == |dtsLst| && dts0 == mediaDuration <= dtsMax then |dtsLst| else r.Filled(start, dtsMax)
    {
      hide ListsOk, Rule.Ok, Rule.Filled;
      ListsAre(minDuration);
      ghost var r := RuleFor(minDuration);
      idxStop, dts := stop0, dts0;
      var i := start;
      while i < |dtsLst| && dtsLst[i] <= dtsMax
        invariant start <= i <= |dtsLst|
        invariant dts0 <= dtsMax ==> idxStop == (if i > stop0 + 1 then i - 1 else stop0) && dts <= dtsMax
        invariant dts0 > dtsMax ==>
          if i == start then idxStop == stop0 && dts == dts0 else i == start + 1 && idxStop == start
        invariant idxStop < |dtsLst| ==> dts == dtsLst[idxStop]
        invariant idxStop == |dtsLst| ==> dts == dts0
        invariant start < i ==> dtsLst[i - 1] <= dtsMax
      {
        if i > idxStop || dts > dtsMax {
          idxStop := i;
          dts := dtsLst[i];
        }
        i := i + 1;
      }
      if i == |dtsLst| && mediaDuration <= dtsMax {
        idxStop := |dtsLst|;
        dts := mediaDuration + dtsLst[0];
      }
      FilledIs(start, i, dtsMax, minDuration);
    }

    /** What filling up comes to when the samples from start up to i, and no more, are within the limit. */
    lemma FilledIs(start: nat, i: nat, limit: nat, minDuration: nat)
      requires ListsOk() && minDuration < src.max && start < |dtsLst| && start <= i <= |dtsLst|
      requires (start < i ==> dtsLst[i - 1] <= limit) && (i < |dtsLst| ==> limit < dtsLst[i])
      ensures var r := RuleFor(minDuration);
        r.Ok() && r.N() == |dtsLst| && r.Filled(start, limit) ==
          if i == |dtsLst| && mediaDuration <= limit then |dtsLst|
          else if i == start then start + 1
          else i - 1
    {
      hide ListsOk, Rule.Ok;
      ListsAre(minDuration);
    }

    /** The next round starts at `stop`, at or after the media duration when that is the end. */
    predicate Reached(stop: nat, dts: nat) {
      stop <= |dtsLst| && if stop < |dtsLst| then dts == dtsLst[stop] else dts >= mediaDuration
    }

    /** The time limit of a fragment, by duration and by the next sample description. */
    method LimitOf(start: nat, fragDts: nat, maxDuration: nat, ghost minDuration: nat) returns (dtsMax: nat)
      requires ListsOk() && CursorsAt(start) && start < |dtsLst| && fragDts <= dtsLst[start] && maxDuration == src.max
      requires !oneSamplePerFrag && minDuration < src.max
      modifies `stsdCur
      ensures RuleFor(minDuration).Ok() && RuleFor(minDuration).N() == |dtsLst|
      ensures dtsMax == RuleFor(minDuration).Limit(start, fragDts)
      ensures DescCursorAt(start) && forall i | stsdCur <= i < |stsdLst| :: start < stsdLst[i]
    {
      hide WellTimed, Rule.Ok;
      dtsMax := fragDts + maxDuration;
      var dtsMaxSd := GetDtsMaxSd(start, minDuration);
      if dtsMax > dtsMaxSd { dtsMax := dtsMaxSd; }
      assert fragDts + src.max < NO_LIMIT by { ListsAre(minDuration); BelowLimit(start); }
    }

    lemma BelowLimit(s: nat)
      requires ListsOk() && s < |dtsLst|
      ensures dtsLst[s] + src.max < NO_LIMIT
    {
      assert src.times[s] == dtsLst[s];
    }

    /** The end of a fragment: the end of the track, the last sync sample in reach, or filled up. */
    method FindStop(start: nat, ghost fragDts: nat, dtsMax: nat, dtsMin: nat, ghost minDuration: nat)
      returns (idxStop: nat, dts: nat)
      requires ListsOk() && SampleCursorsAt(start) && start < |dtsLst| && !oneSamplePerFrag && minDuration < src.max
      requires AtRound(start, fragDts, minDuration)
      requires dtsMax == RuleFor(minDuration).Limit(start, fragDts) && dtsMin == fragDts + minDuration
      ensures idxStop == RuleFor(minDuration).Stop(start, fragDts) && Reached(idxStop, dts)
    {
      hide ListsOk, Rule.Ok, Rule.Limit, Rule.Filled, Rule.LastOf, Rule.SyncsUsedUp, Rule.T, Rule.D;
      ListsAre(minDuration);
      LimitNotBefore(start, fragDts, minDuration);
      idxStop := start + 1;
      dts := if start + 1 < |dtsLst| then dtsLst[start + 1] else dtsLst[0] + mediaDuration;
      var found, exhausted := false, false;
      if !allRapSamples { idxStop, dts, found, exhausted := ScanSync(start, dtsMax, minDuration); }
      if exhausted && mediaDuration < dtsMax {
        idxStop, dts := |dtsLst|, mediaDuration;
      }
      if dts <= dtsMin || !found {
        idxStop, dts := Fill(start, idxStop, dts, dtsMax, minDuration);
      }
    }

    lemma LimitNotBefore(start: nat, fragDts: nat, minDuration: nat)
      requires ListsOk() && start < |dtsLst| && minDuration < src.max
      requires AtRound(start, fragDts, minDuration)
      ensures start > 0 ==> dtsLst[start] <= RuleFor(minDuration).Limit(start, fragDts)
    {
      hide ListsOk, Rule.Ok;
      ListsAre(minDuration);
    }

    /** The end of a fragment with several samples; refused when it must start on a sync sample and does not. */
    method ChooseStop(start: nat, fragDts: nat, maxDuration: nat, minDuration: nat, firstSampleIsSync: bool)
        returns (ok: bool, idxStop: nat, dts: nat)
      requires ListsOk() && CursorsAt(start) && start < |dtsLst| && maxDuration == src.max && minDuration < src.max
      requires AtRound(start, fragDts, minDuration)
      requires !oneSamplePerFrag
      modifies `stsdCur, `fragNoSync
      ensures ok <==> allRapSamples || !firstSampleIsSync || start in syncLst
      ensures fragNoSync <==> old(fragNoSync) || (!allRapSamples && start !in syncLst)
      ensures ok ==> idxStop == RuleFor(minDuration).Stop(start, fragDts) && Reached(idxStop, dts)
      ensures DescCursorAt(start) && forall i | stsdCur <= i < |stsdLst| :: start < stsdLst[i]
    {
      hide WellTimed, Rule.Ok, Rule.Limit, Rule.Stop;
      ListsAre(minDuration);
      idxStop, dts := start + 1, 0;
      var dtsMin := fragDts + minDuration;
      var dtsMax := LimitOf(start, fragDts, maxDuration, minDuration);
      if !allRapSamples {
        StartsOnSync(start);
        if syncCur == |syncLst| || syncLst[syncCur] != start {
          fragNoSync := true;
          if firstSampleIsSync { return false, idxStop, dts; }
        }
      }
      idxStop, dts := FindStop(start, fragDts, dtsMax, dtsMin, minDuration);
      ok := true;
    }

    lemma StartsOnSync(start: nat)
      requires ListsOk() && SampleCursorsAt(start)
      ensures start in syncLst <==> syncCur < |syncLst| && syncLst[syncCur] == start
    {
      assert forall i | syncCur < i < |syncLst| :: syncLst[syncCur] < syncLst[i];
    }

    /** Moves the sample and sync cursors to the end of the fragment. */
    method AdvanceTo(start: nat, stop: nat)
      requires ListsOk() && SampleCursorsAt(start) && start <= stop <= |dtsLst|
      modifies `dtsCur, `syncCur
      ensures SampleCursorsAt(stop)
    {
      hide ListsOk;
      SyncsInOrder();
      while dtsCur < |dtsLst| && dtsCur < stop
        invariant start <= dtsCur <= stop
        invariant syncCur == old(syncCur)
      {
        dtsCur := dtsCur + 1;
      }
      while syncCur < |syncLst| && syncLst[syncCur] < stop
        invariant syncCur <= |syncLst| && dtsCur == stop
        invariant forall i | 0 <= i < syncCur :: syncLst[i] < stop
      {
        syncCur := syncCur + 1;
      }
      assert forall i | syncCur < i < |syncLst| :: syncLst[syncCur] < syncLst[i];
    }

    /** One round of the fragment loop: appends the fragment that starts at the cursor. */
    method NextFragment(fragDts: nat, maxDuration: nat, minDuration: nat, firstSampleIsSync: bool)
        returns (ok: bool, dts: nat)
      requires ListsOk() && CursorsAt(dtsCur) && dtsCur < |dtsLst| && maxDuration == src.max && minDuration < src.max
      requires AtRound(dtsCur, fragDts, minDuration)
      modifies `dtsCur, `syncCur, `stsdCur, `segmentLst, `fragNoSync
      ensures !ok <==> firstSampleIsSync && !oneSamplePerFrag && |syncLst| != |dtsLst| && old(dtsCur) !in syncLst
      ensures fragNoSync <==>
        old(fragNoSync) || (!oneSamplePerFrag && |syncLst| != |dtsLst| && old(dtsCur) !in syncLst)
      ensures !ok ==> segmentLst == old(segmentLst)
      ensures ok ==>
        dtsCur == RuleFor(minDuration).Stop(old(dtsCur), fragDts) && CursorsAt(dtsCur)
        && Reached(dtsCur, dts)
      ensures ok ==> segmentLst == old(segmentLst) + [Frag(old(dtsCur), dtsCur)]
    {
      hide WellTimed, Rule.Ok, Rule.Limit;
      ListsAre(minDuration);
      var start := dtsCur;
      var idxStop := start + 1;
      dts := if start + 1 < |dtsLst| then dtsLst[start + 1] else mediaDuration + dtsLst[0];
      ok := true;
      if !oneSamplePerFrag {
        hide Rule.Stop;
        ok, idxStop, dts := ChooseStop(start, fragDts, maxDuration, minDuration, firstSampleIsSync);
        if !ok { return; }
        NoDescPassed(start, fragDts, minDuration);
      }
      AdvanceTo(start, idxStop);
      segmentLst := segmentLst + [Frag(start, idxStop)];
    }

    /** A fragment that ends inside the track passes no description. */
    lemma NoDescPassed(start: nat, fragDts: nat, minDuration: nat)
      requires ListsOk() && start < |dtsLst| && minDuration < src.max
      requires AtRound(start, fragDts, minDuration)
      ensures var stop := RuleFor(minDuration).Stop(start, fragDts);
        stop < |dtsLst| ==> forall i | 0 <= i < |stsdLst| :: stsdLst[i] <= start || stop <= stsdLst[i]
    {
      hide ListsOk, Rule.Ok, Rule.Stop;
      ListsAre(minDuration);
      var stop := RuleFor(minDuration).Stop(start, fragDts);
      RuleFor(minDuration).RoundFits(start, fragDts);
      if start < stop < |dtsLst| {
        assert Fits(src, start, stop);
        assert forall i | 0 <= i < |stsdLst| :: stsdLst[i] in src.descs;
      }
    }

    /** create_fragment_lst for this track: the ranges are given in milliseconds.  It splits the track by the
        rule; it is refused for an empty range, or when a fragment may not start where the rule starts it. */
    method CreateFragmentList(rangeMax: nat, rangeMin: nat, firstSampleIsSync: bool) returns (ok: bool)
      requires ListsOk() && CursorsAt(0) && segmentLst == [] && Rescale(rangeMax, mediaScale, 1000) == src.max
      modifies `dtsCur, `syncCur, `stsdCur, `segmentLst, `fragNoSync
      ensures var min := Rescale(if firstSampleIsSync then 10 else rangeMin, mediaScale, 1000);
        if src.max <= min then !ok && segmentLst == []
        else
          var r := RuleFor(min);
          && r.Ok() && segmentLst <= r.All() && (ok ==> segmentLst == r.All())
          && (!ok <==> firstSampleIsSync && !oneSamplePerFrag && |syncLst| != |dtsLst|
                       && exists i :: 0 <= i < |r.All()| && r.All()[i].start !in syncLst)
      ensures !oneSamplePerFrag && |syncLst| != |dtsLst| ==>
        var refused := !ok && Rescale(if firstSampleIsSync then 10 else rangeMin, mediaScale, 1000) < src.max;
        (fragNoSync <==> old(fragNoSync) || refused || SomeOffSync(segmentLst))
      ensures oneSamplePerFrag || |syncLst| == |dtsLst| ==> fragNoSync == old(fragNoSync)
      ensures ok && firstSampleIsSync && !oneSamplePerFrag && |syncLst| != |dtsLst| ==>
        forall i | 0 <= i < |segmentLst| :: segmentLst[i].start in syncLst
    {
      hide ListsOk, Rescale, Rule.Ok, Rule.Stop, Rule.Split;
      var minMs := if firstSampleIsSync then 10 else rangeMin;
      var maxDuration := Rescale(rangeMax, mediaScale, 1000);
      var minDuration := Rescale(minMs, mediaScale, 1000);
      if maxDuration <= minDuration || maxDuration <= 0 { return false; }
      ListsAre(minDuration);
      ghost var r := RuleFor(minDuration);
      var fragDts: nat := 0;
      while fragDts < mediaDuration
        invariant CursorsAt(dtsCur) && r.StartsAt(dtsCur, fragDts)
        invariant dtsCur == |dtsLst| ==> fragDts >= mediaDuration
        invariant segmentLst + r.Split(dtsCur, fragDts) == r.All()
        invariant firstSampleIsSync && !oneSamplePerFrag && |syncLst| != |dtsLst| ==>
          forall i | 0 <= i < |segmentLst| :: segmentLst[i].start in syncLst
        invariant !oneSamplePerFrag && |syncLst| != |dtsLst| ==>
          (fragNoSync <==> old(fragNoSync) || SomeOffSync(segmentLst))
        invariant oneSamplePerFrag || |syncLst| == |dtsLst| ==> fragNoSync == old(fragNoSync)
        decreases |dtsLst| - dtsCur, if dtsCur < |dtsLst| && fragDts < dtsLst[dtsCur] then 1 else 0
      {
        ghost var start, was, before := dtsCur, fragDts, segmentLst;
        var done, dts := NextFragment(fragDts, maxDuration, minDuration, firstSampleIsSync);
        if !done {
          NextIs(start, was, minDuration);
          assert r.All()[|before|] == r.Split(start, was)[0];
          return false;
        }
        fragDts := dts;
        OneMoreFrag(before, Frag(start, dtsCur));
        SplitAgain(start, was, dtsCur, dts, minDuration);
        assert before + ([Frag(start, dtsCur)] + r.Split(dtsCur, dts)) == segmentLst + r.Split(dtsCur, dts);
      }
      NothingLeft(dtsCur, fragDts, minDuration);
      assert segmentLst + [] == segmentLst;
      dtsCur, syncCur := 0, 0;
      return true;
    }

    /** Some fragment starts without a sync sample. */
    ghost predicate SomeOffSync(frags: seq<Frag>) {
      exists i :: 0 <= i < |frags| && frags[i].start !in syncLst
    }

    lemma OneMoreFrag(frags: seq<Frag>, f: Frag)
      ensures SomeOffSync(frags + [f]) <==> SomeOffSync(frags) || f.start !in syncLst
    {
      var all := frags + [f];
      assert all[|frags|] == f;
      if SomeOffSync(frags) {
        var i :| 0 <= i < |frags| && frags[i].start !in syncLst;
        assert all[i] == frags[i];
      }
    }

    lemma NextIs(start: nat, fragDts: nat, minDuration: nat)
      requires ListsOk() && start < |dtsLst| && minDuration < src.max && fragDts < mediaDuration
      requires AtRound(start, fragDts, minDuration)
      ensures var rest := RuleFor(minDuration).Split(start, fragDts); |rest| > 0 && rest[0].start == start
    {
      hide ListsOk, Rule.Ok, Rule.Stop;
      ListsAre(minDuration);
    }

    lemma NothingLeft(start: nat, fragDts: nat, minDuration: nat)
      requires ListsOk() && start <= |dtsLst| && minDuration < src.max && fragDts >= mediaDuration
      requires AtRound(start, fragDts, minDuration)
      ensures RuleFor(minDuration).Split(start, fragDts) == []
    {
      hide ListsOk, Rule.Ok, Rule.Stop;
      ListsAre(minDuration);
    }

    lemma SplitAgain(start: nat, fragDts: nat, stop: nat, dts: nat, minDuration: nat)
      requires ListsOk() && start < |dtsLst| && minDuration < src.max && fragDts < mediaDuration
      requires AtRound(start, fragDts, minDuration)
      requires stop == RuleFor(minDuration).Stop(start, fragDts) && Reached(stop, dts)
      ensures RuleFor(minDuration).StartsAt(stop, dts)
      ensures RuleFor(minDuration).Split(start, fragDts) == [Frag(start, stop)] + RuleFor(minDuration).Split(stop, dts)
    {
      hide ListsOk, Rule.Ok, Rule.Stop;
      ListsAre(minDuration);
    }
  }
}
