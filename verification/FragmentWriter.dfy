/** Writing track fragments: get_moof_by_TrackIndex, get_tfhd, get_trun, write_trun_box and
    trex_get_sample_flag of src/mp4_muxer.c.  Per-sample fields are left out of a run when a default
    covers them; reading with the defaults gives every sample back. */
module FragmentWriter {
  import opened RunLength
  import opened TimeScale
  import opened FragmentReader
  import opened FragmentSplit
  import opened Options
  import TW = TableWriter

  /** (uint32_t)-1, which no sample flag value equals. */
  const NO_VALUE := 0xFFFF_FFFF

  /** Sample flags of a sync-only track and of a predicted sample. */
  const FLAGS_ALL_RAP := 0x02A0_0000
  const FLAGS_PREDICT := 0x0121_0000

  datatype SameMode = IsSameExceptFirst | IsDifferent | IsSame

  /** The fragment options of the muxer configuration that decide which fields are written. */
  datatype Config = Config(emptyTrex: bool, emptyTfhd: bool, writeSdtp: bool, forceRunFields: bool, ac4: bool)

  // -------------------------------------------------------------- default flags

  datatype ValueCount = ValueCount(value: nat, freq: nat)

  /** The list counts every value of vs once. */
  ghost predicate Counts(lst: seq<ValueCount>, vs: seq<nat>) {
    && (forall i, j | 0 <= i < j < |lst| :: lst[i].value != lst[j].value)
    && (forall i | 0 <= i < |lst| :: 0 < lst[i].freq == multiset(vs)[lst[i].value])
    && forall v | v in vs :: exists i :: 0 <= i < |lst| && lst[i].value == v
  }

  /** Earlier entries are of values that occur earlier. */
  ghost predicate FirstSeen(lst: seq<ValueCount>, vs: seq<nat>) {
    forall i, k, j | 0 <= i < k < |lst| && 0 <= j < |vs| && vs[j] == lst[k].value :: lst[i].value in vs[..j]
  }

  /** Counting one more value keeps that order. */
  lemma StillFirstSeen(lst: seq<ValueCount>, counted: seq<ValueCount>, vs: seq<nat>, value: nat)
    requires FirstSeen(lst, vs) && (forall i | 0 <= i < |lst| :: lst[i].value in vs)
    requires |lst| <= |counted| && forall i | 0 <= i < |lst| :: counted[i].value == lst[i].value
    requires |counted| == |lst| || (|counted| == |lst| + 1 && counted[|lst|].value == value && value !in vs)
    ensures FirstSeen(counted, vs + [value])
  {
    var all := vs + [value];
    forall i, k, j | 0 <= i < k < |counted| && 0 <= j < |all| && all[j] == counted[k].value
      ensures counted[i].value in all[..j]
    {
      if j < |vs| {
        assert all[..j] == vs[..j];
        assert vs[j] in vs;
      } else {
        assert all[..j] == vs;
      }
    }
  }

  lemma AllSeen(lst: seq<ValueCount>, vs: seq<nat>)
    requires Counts(lst, vs)
    ensures forall i | 0 <= i < |lst| :: lst[i].value in vs
  {
    forall i | 0 <= i < |lst| ensures lst[i].value in vs {
      assert multiset(vs)[lst[i].value] > 0;
      assert lst[i].value in multiset(vs);
    }
  }

  /** The counting round of trex_get_sample_flag for one sample flag value. */
  method CountValue(lst: seq<ValueCount>, value: nat, ghost seen: seq<nat>) returns (counted: seq<ValueCount>)
    requires Counts(lst, seen) && FirstSeen(lst, seen)
    ensures Counts(counted, seen + [value]) && FirstSeen(counted, seen + [value])
  {
    hide FirstSeen;
    AllSeen(lst, seen);
    assert multiset(seen + [value]) == multiset(seen) + multiset{value};
    for i := 0 to |lst|
      invariant forall k | 0 <= k < i :: lst[k].value != value
    {
      if lst[i].value == value {
        counted := lst[i := lst[i].(freq := lst[i].freq + 1)];
        StillFirstSeen(lst, counted, seen, value);
        forall v | v in seen + [value] ensures exists k :: 0 <= k < |counted| && counted[k].value == v {
          var k :| 0 <= k < |lst| && lst[k].value == v;
          assert counted[k].value == v;
        }
        return;
      }
    }
    counted := lst + [ValueCount(value, 1)];
    assert value !in seen;
    StillFirstSeen(lst, counted, seen, value);
    forall v | v in seen + [value] ensures exists k :: 0 <= k < |counted| && counted[k].value == v {
      if v == value {
        assert counted[|lst|].value == v;
      } else {
        var k :| 0 <= k < |lst| && lst[k].value == v;
        assert counted[k].value == v;
      }
    }
  }

  /** v is a most frequent value, and of several the one that occurs first. */
  ghost predicate IsDefault(vs: seq<nat>, v: nat) {
    && (forall w :: multiset(vs)[w] <= multiset(vs)[v])
    && exists i :: 0 <= i < |vs| && vs[i] == v && forall j | 0 <= j < i :: multiset(vs)[vs[j]] < multiset(vs)[v]
  }

  /** trex_get_sample_flag: the first of the most frequent flag values becomes the default for the track box;
      without sdtp entries the default stays as it is. */
  method DefaultFlags(sdtpValues: seq<nat>, given: nat) returns (flags: nat)
    ensures sdtpValues == [] ==> flags == given
    ensures sdtpValues != [] ==> IsDefault(sdtpValues, flags)
  {
    hide Counts, FirstSeen, IsDefault;
    var lst: seq<ValueCount> := [];
    NoneCounted();
    for n := 0 to |sdtpValues|
      invariant Counts(lst, sdtpValues[..n]) && FirstSeen(lst, sdtpValues[..n])
    {
      lst := CountValue(lst, sdtpValues[n], sdtpValues[..n]);
      assert sdtpValues[..n + 1] == sdtpValues[..n] + [sdtpValues[n]];
    }
    assert sdtpValues[..|sdtpValues|] == sdtpValues;
    Counted(lst, sdtpValues);
    flags := given;
    var maxFreq := 0;
    ghost var m := 0;
    for i := 0 to |lst|
      invariant i == 0 ==> maxFreq == 0 && flags == given && m == 0
      invariant i > 0 ==> 0 <= m < i && maxFreq == lst[m].freq && flags == lst[m].value
      invariant forall k | 0 <= k < i :: lst[k].freq <= maxFreq
      invariant forall k | 0 <= k < m :: lst[k].freq < maxFreq
    {
      if lst[i].freq > maxFreq {
        maxFreq := lst[i].freq;
        flags := lst[i].value;
        m := i;
      }
    }
    if sdtpValues != [] { FirstOfMost(lst, sdtpValues, m); }
  }

  lemma NoneCounted()
    ensures Counts([], []) && FirstSeen([], [])
  {
  }

  lemma Counted(lst: seq<ValueCount>, vs: seq<nat>)
    requires Counts(lst, vs)
    ensures (forall i | 0 <= i < |lst| :: lst[i].freq > 0) && (lst == [] <==> vs == [])
  {
    AllSeen(lst, vs);
    if vs != [] { assert vs[0] in vs; }
    if lst != [] { assert lst[0].value in vs; }
  }

  lemma FirstOfMost(lst: seq<ValueCount>, vs: seq<nat>, m: nat)
    requires Counts(lst, vs) && FirstSeen(lst, vs) && m < |lst|
    requires forall k | 0 <= k < |lst| :: lst[k].freq <= lst[m].freq
    requires forall k | 0 <= k < m :: lst[k].freq < lst[m].freq
    ensures IsDefault(vs, lst[m].value)
  {
    AllSeen(lst, vs);
    var v := lst[m].value;
    forall w ensures multiset(vs)[w] <= multiset(vs)[v] {
      if w in vs { var k :| 0 <= k < |lst| && lst[k].value == w; }
    }
    var i := FirstAt(vs, v);
    forall j | 0 <= j < i ensures multiset(vs)[vs[j]] < multiset(vs)[v] {
      assert vs[j] in vs;
      var k :| 0 <= k < |lst| && lst[k].value == vs[j];
      assert k <= m;
    }
  }

  lemma FirstAt(vs: seq<nat>, v: nat) returns (i: nat)
    requires v in vs
    ensures i < |vs| && vs[i] == v && v !in vs[..i]
  {
    i := 0;
    while vs[i] != v
      invariant i < |vs| && v !in vs[..i] && v in vs[i..]
      decreases |vs| - i
    {
      i := i + 1;
    }
  }

  class FragTrack {
    const cfg: Config
    const dtsLst: seq<nat>
    const mediaDuration: nat
    const sizeLst: seq<Run>
    const ctsOffsetLst: seq<Run>
    /** Flag values built from the sdtp entries; empty, or one per sample. */
    const sdtpLst: seq<nat>
    const noCtsOffset: bool
    const allRapSamples: bool
    /** Defaults of setup_muxer, and the default flags chosen by write_trex_box. */
    const trex: Trex

    var dtsCur: nat
    var sizeCur: nat
    var sizeCnt: nat
    var ctsCur: nat
    var ctsCnt: nat
    var sdtpCur: nat
    var fragDts: nat
    var trafIsPrepared: bool
    var samplesSameMode: SameMode
    var tfhd: Tfhd
    var trun: Trun

    function N(): nat { |dtsLst| }

    /** Decode times increase by less than 2^32, sizes fit 32 bits, and the lists describe the
        same samples. */
    ghost predicate ListsOk() {
      && N() > 0 && Increasing(dtsLst) && TW.StepsFit(dtsLst)
      && dtsLst[N() - 1] < 0x8000_0000_0000_0000
      && |Expand(sizeLst)| == N() && Canonical(sizeLst)
      && (forall i | 0 <= i < N() :: 0 < Expand(sizeLst)[i] < TWO32)
      && |Expand(ctsOffsetLst)| == N() && Canonical(ctsOffsetLst)
      && noCtsOffset == TW.NoCtsOffset(ctsOffsetLst)
      && (sdtpLst != [] ==> |sdtpLst| == N())
      && (forall i | 0 <= i < |sdtpLst| :: sdtpLst[i] < NO_VALUE)
      && trex.duration == (if N() > 1 then TW.Delta32(dtsLst[1], dtsLst[0]) else Wrap32(mediaDuration))
      && trex.size == Wrap32(Expand(sizeLst)[0])
      && DefaultFlagsOk()
    }

    /** Without sdtp entries the default flags depend on the kind of track; else they are most frequent ones. */
    ghost predicate DefaultFlagsOk() {
      && (sdtpLst == [] ==> trex.flags == if allRapSamples then 0x02A0_0000 else 0x0121_0000)
      && (sdtpLst != [] ==> IsDefault(sdtpLst, trex.flags))
    }

    /** setup_muxer: cursors at the first sample, defaults from the first sample, and the default flags
        for a track of sync samples only or for a mixed one, or the most frequent flags by sdtp. */
    constructor (cfg: Config, dts: seq<nat>, duration: nat, sizes: seq<Run>, offsets: seq<Run>, sdtp: seq<nat>,
      allRapSamples: bool)
      requires dts != [] && Increasing(dts) && TW.StepsFit(dts)
      requires dts[|dts| - 1] < 0x8000_0000_0000_0000
      requires |Expand(sizes)| == |dts| && Canonical(sizes)
      requires forall i | 0 <= i < |dts| :: 0 < Expand(sizes)[i] < TWO32
      requires |Expand(offsets)| == |dts| && Canonical(offsets)
      requires (sdtp != [] ==> |sdtp| == |dts|) && forall i | 0 <= i < |sdtp| :: sdtp[i] < NO_VALUE
      ensures ListsOk() && CursorsAt(0)
      ensures this.cfg == cfg && dtsLst == dts && sizeLst == sizes && ctsOffsetLst == offsets && sdtpLst == sdtp
      ensures this.allRapSamples == allRapSamples && mediaDuration == duration
    {
      FirstRun(sizes);
      FirstRun(offsets);
      var flags := DefaultFlags(sdtp, if allRapSamples then FLAGS_ALL_RAP else FLAGS_PREDICT);
      var step := if |dts| > 1 then TW.Delta32(dts[1], dts[0]) else Wrap32(duration);
      this.cfg, dtsLst, mediaDuration := cfg, dts, duration;
      sizeLst, ctsOffsetLst, sdtpLst := sizes, offsets, sdtp;
      noCtsOffset, this.allRapSamples := TW.NoCtsOffset(offsets), allRapSamples;
      trex := Trex(step, Wrap32(sizes[0].value), flags);
      dtsCur, sizeCur, ctsCur, sdtpCur := 0, 0, 0, 0;
      sizeCnt, ctsCnt := sizes[0].count, offsets[0].count;
      fragDts, trafIsPrepared, samplesSameMode := 0, false, IsSameExceptFirst;
      tfhd, trun := Tfhd(None, None, None), Trun(RunFields(false, false, false, false), None, []);
    }

    static lemma FirstRun(rs: seq<Run>)
      requires Canonical(rs) && Expand(rs) != []
      ensures rs != [] && Total(rs) == |Expand(rs)| && rs[0].count > 0 && rs[..0] == [] && Expand(rs)[0] == rs[0].value
    {
      hide Expand, Total;
      ExpandLength(rs);
      CanonicalEmpty(rs);
      RunItem(rs, 0, 0);
      NothingBefore(rs);
    }

    static lemma NothingBefore(rs: seq<Run>)
      ensures Total(rs[..0]) == 0
    {
    }

    /** The trex box in the file: nothing but zeros under the empty-trex option. */
    function TrexBox(): (t: Trex)
      ensures cfg.emptyTrex ==> t.duration == t.size == t.flags == 0
      ensures !cfg.emptyTrex ==> t == trex
    {
      if cfg.emptyTrex then Trex(0, 0, 0) else trex
    }

    /** A run-length cursor stands before sample n: `cur` is its run, `cnt` what is left of the run. */
    ghost predicate RunCursorAt(rs: seq<Run>, cur: nat, cnt: nat, n: nat) {
      if n < Total(rs)
      then cur < |rs| && 0 < cnt <= rs[cur].count && Total(rs[..cur]) + (rs[cur].count - cnt) == n
      else n == Total(rs) && cur == |rs|
    }

    ghost predicate CursorsAt(n: nat)
      reads `dtsCur, `sizeCur, `sizeCnt, `ctsCur, `ctsCnt, `sdtpCur, `samplesSameMode
    {
      && n <= N() && dtsCur == n
      && RunCursorAt(sizeLst, sizeCur, sizeCnt, n)
      && (!noCtsOffset ==> RunCursorAt(ctsOffsetLst, ctsCur, ctsCnt, n))
      && (sdtpLst != [] ==> sdtpCur == n)
      && (cfg.emptyTrex ==> samplesSameMode == IsSameExceptFirst)
    }

    /** The explicit duration of sample i; what is left of the media duration for the last one. */
    function StepAfter(i: nat): nat
      requires i < N()
    {
      if i + 1 < N() then TW.Delta32(dtsLst[i + 1], dtsLst[i]) else TW.Delta32(mediaDuration, dtsLst[i])
    }

    lemma CurrentValue(rs: seq<Run>, cur: nat, cnt: nat, n: nat)
      requires RunCursorAt(rs, cur, cnt, n) && n < Total(rs)
      ensures |Expand(rs)| == Total(rs)
      ensures forall j | n <= j < n + cnt :: j < Total(rs) && Expand(rs)[j] == rs[cur].value
      ensures cnt == 1 ==> Total(rs[..cur + 1]) == n + 1
    {
      hide Expand, Total;
      ExpandLength(rs);
      PrefixStep(rs, cur);
      PrefixMonotone(rs, cur + 1);
      forall j | n <= j < n + cnt ensures j < Total(rs) && Expand(rs)[j] == rs[cur].value {
        RunItem(rs, cur, j - Total(rs[..cur]));
      }
    }

    /** Moving one sample on: the next run when this one is used up. */
    lemma CursorStep(rs: seq<Run>, cur: nat, cnt: nat, n: nat)
      requires Canonical(rs) && RunCursorAt(rs, cur, cnt, n) && n < Total(rs)
      ensures cnt > 1 ==> RunCursorAt(rs, cur, cnt - 1, n + 1)
      ensures cnt == 1 && cur + 1 < |rs| ==> RunCursorAt(rs, cur + 1, rs[cur + 1].count, n + 1)
      ensures cnt == 1 && cur + 1 == |rs| ==> RunCursorAt(rs, cur + 1, 0, n + 1)
    {
      hide Total, Expand, Weight;
      PrefixStep(rs, cur);
      assert rs[..|rs|] == rs;
      if cur + 1 < |rs| {
        PrefixStep(rs, cur + 1);
        PrefixMonotone(rs, cur + 2);
      }
    }

    // -------------------------------------------------------------- tfhd

    /** frag_dts cuts the track before sample `stop`. */
    ghost predicate CutsAt(stop: nat)
      reads `fragDts
    {
      && stop <= N()
      && (stop < N() ==> fragDts <= dtsLst[stop])
      && (stop > 0 ==> dtsLst[stop - 1] < fragDts)
    }

    /** get_min_sample_idx_nlt_dts */
    method MinSampleNotBefore(limit: nat) returns (idx: nat)
      requires ListsOk() && dtsCur <= N()
      ensures dtsCur <= idx <= N()
      ensures forall i | dtsCur <= i < idx :: dtsLst[i] < limit
      ensures idx < N() ==> dtsLst[idx] >= limit
    {
      idx := dtsCur;
      while idx < N() && dtsLst[idx] < limit
        invariant dtsCur <= idx <= N()
        invariant forall i | dtsCur <= i < idx :: dtsLst[i] < limit
      {
        idx := idx + 1;
      }
    }

    /** How many samples are left before the cut: the count that header and run start from. */
    method SamplesBeforeCut(ghost start: nat, ghost stop: nat) returns (count: nat)
      requires ListsOk() && CutsAt(stop) && dtsCur == start <= stop
      ensures count == stop - start && stop <= N()
    {
      hide Expand, Canonical, Increasing, TW.StepsFit;
      Cut(start, stop);
      if dtsCur == N() || dtsLst[dtsCur] >= fragDts { return 0; }
      var idxMax := MinSampleNotBefore(fragDts);
      return idxMax - dtsCur;
    }

    /** Samples a..b-1 from the second one on share the flag value v. */
    ghost predicate RestIs(a: nat, b: nat, v: nat)
      requires b <= |sdtpLst|
    {
      forall i | a < i < b :: sdtpLst[i] == v
    }

    ghost predicate RestDiffers(a: nat, b: nat)
      requires b <= |sdtpLst|
    {
      exists i, j | a < i < b && a < j < b :: sdtpLst[i] != sdtpLst[j]
    }

    /** The flags of the second sample, if there is one, else -1. */
    ghost function RestFlags(start: nat, stop: nat): nat
      requires start < stop <= |sdtpLst|
    {
      if stop == start + 1 then 0xFFFF_FFFF else sdtpLst[start + 1]
    }

    /** The loop of get_tfhd over the fragment's sample flags. */
    method ScanFlags(count: nat) returns (mode: SameMode, cur: nat)
      requires ListsOk() && 0 < count && sdtpCur + count <= |sdtpLst|
      ensures mode == IsDifferent <==> RestDiffers(sdtpCur, sdtpCur + count)
      ensures mode != IsDifferent ==> cur == RestFlags(sdtpCur, sdtpCur + count)
      ensures mode == IsSameExceptFirst ==> RestIs(sdtpCur, sdtpCur + count, cur) && sdtpLst[sdtpCur] != cur
      ensures mode == IsSame ==> RestIs(sdtpCur, sdtpCur + count, cur) && sdtpLst[sdtpCur] == cur
    {
      hide DefaultFlagsOk;
      var first, last := sdtpLst[sdtpCur], NO_VALUE;
      cur := NO_VALUE;
      mode := IsDifferent;
      var i := sdtpCur + 1;
      while i < sdtpCur + count
        invariant sdtpCur < i <= sdtpCur + count
        invariant i == sdtpCur + 1 ==> last == cur == NO_VALUE
        invariant i > sdtpCur + 1 ==> last == cur && cur != NO_VALUE && RestIs(sdtpCur, i, cur)
      {
        cur := sdtpLst[i];
        if cur != last && last != NO_VALUE {
          assert sdtpLst[i - 1] != sdtpLst[i];
          return;
        }
        last := cur;
        i := i + 1;
      }
      mode := IsSameExceptFirst;
      if first == cur { mode := IsSame; }
    }

    /** The defaults in the header of a fragment: all of them under the empty-trex option, unless the header must
        stay empty as well; else only flags that differ from the track's, and the duration of AC-4. */
    ghost function HeaderOf(start: nat, stop: nat): Tfhd
      requires start < stop <= N() && (sdtpLst != [] ==> |sdtpLst| == N())
    {
      if cfg.emptyTrex then
        if cfg.emptyTfhd then Tfhd(None, None, None) else Tfhd(Some(trex.duration), Some(trex.size), Some(0))
      else if sdtpLst == [] then Tfhd(None, None, None)
      else
        Tfhd(if cfg.ac4 then Some(trex.duration) else None, None,
             if cfg.emptyTfhd || RestDiffers(start, stop) || RestFlags(start, stop) == trex.flags then None
             else Some(RestFlags(start, stop)))
    }

    /** How the flags of a fragment are written; the mode is never set under the empty-trex option. */
    ghost function ModeOf(start: nat, stop: nat): SameMode
      requires start < stop <= N() && |sdtpLst| == N()
    {
      if cfg.emptyTrex then IsSameExceptFirst
      else if RestDiffers(start, stop) || (cfg.emptyTfhd && RestFlags(start, stop) != trex.flags) then IsDifferent
      else if sdtpLst[start] == RestFlags(start, stop) then IsSame
      else IsSameExceptFirst
    }

    /** get_tfhd: the header defaults of the fragment. */
    method GetTfhd(ghost start: nat, ghost stop: nat) returns (found: bool)
      requires ListsOk() && CursorsAt(start) && CutsAt(stop) && start <= stop
      modifies `tfhd, `samplesSameMode, `trafIsPrepared
      ensures found <==> start < stop
      ensures found ==> trafIsPrepared && TfhdOk(start, stop)
      ensures found ==> tfhd == HeaderOf(start, stop) && (sdtpLst != [] ==> samplesSameMode == ModeOf(start, stop))
      ensures cfg.emptyTrex ==> samplesSameMode == old(samplesSameMode)
      ensures !found ==> trafIsPrepared == old(trafIsPrepared) && tfhd == old(tfhd)
    {
      hide DefaultFlagsOk;
      hide Expand, Total, Canonical, Increasing, TW.StepsFit, RunCursorAt, RestIs, RestDiffers, CutsAt;
      var sampleCount := SamplesBeforeCut(start, stop);
      if sampleCount == 0 { return false; }
      tfhd := Tfhd(None, None, None);
      if cfg.emptyTrex {
        if !cfg.emptyTfhd {
          tfhd := Tfhd(Some(trex.duration), Some(trex.size), Some(0));
        }
      } else if sdtpLst != [] {
        if cfg.ac4 { tfhd := tfhd.(duration := Some(trex.duration)); }
        var mode, cur := ScanFlags(sampleCount);
        if mode != IsDifferent && cur != trex.flags {
          if !cfg.emptyTfhd {
            tfhd := tfhd.(flags := Some(cur));
          } else {
            mode := IsDifferent;
          }
        }
        samplesSameMode := mode;
      }
      trafIsPrepared := true;
      found := true;
    }

    lemma Cut(start: nat, stop: nat)
      requires ListsOk() && CutsAt(stop) && start <= stop
      ensures start < stop <==> start < N() && dtsLst[start] < fragDts
      ensures forall i | 0 <= i < stop :: dtsLst[i] < fragDts
      ensures forall i | stop <= i < N() :: dtsLst[i] >= fragDts
    {
    }

    /** What the header says about samples start..stop-1: header and track defaults give the default
        duration and size unless both boxes are empty, and the flags by the chosen mode; flags are given sample
        by sample only when they differ or the header must stay empty. */
    ghost predicate TfhdOk(start: nat, stop: nat)
      requires start < stop <= N()
      reads `tfhd, `samplesSameMode
    {
      && (!(cfg.emptyTrex && cfg.emptyTfhd) ==>
           OrElse(tfhd.duration, TrexBox().duration) == trex.duration && OrElse(tfhd.size, TrexBox().size) == trex.size)
      && (!cfg.emptyTrex && |sdtpLst| == N() && samplesSameMode != IsDifferent ==>
           RestIs(start, stop, OrElse(tfhd.flags, TrexBox().flags)))
      && (!cfg.emptyTrex && |sdtpLst| == N() && samplesSameMode == IsSame ==>
           sdtpLst[start] == OrElse(tfhd.flags, TrexBox().flags))
      && (!cfg.emptyTrex && |sdtpLst| == N() && samplesSameMode == IsSameExceptFirst ==>
           sdtpLst[start] != OrElse(tfhd.flags, TrexBox().flags))
      && (!cfg.emptyTrex && |sdtpLst| == N() && samplesSameMode == IsDifferent ==>
           cfg.emptyTfhd || RestDiffers(start, stop))
    }

    // -------------------------------------------------------------- trun

    /** The default duration is right for samples start..stop-1, up to the last one of the track. */
    ghost predicate SameSteps(start: nat, stop: nat)
      requires stop <= N()
    {
      forall i | start <= i < stop && i + 1 < N() :: StepAfter(i) == trex.duration
    }

    ghost predicate SameSizes(start: nat, stop: nat) {
      forall i | start <= i < stop && i < |Expand(sizeLst)| :: Expand(sizeLst)[i] == trex.size
    }

    /** A field is left out exactly when it may be and the default covers samples start..stop-1. */
    ghost predicate FieldsOk(f: RunFields, start: nat, stop: nat)
      requires stop <= N()
    {
      && |Expand(sizeLst)| == N()
      && (f.duration <==> cfg.emptyTfhd || cfg.forceRunFields || !SameSteps(start, stop))
      && (f.size <==> cfg.emptyTfhd || cfg.forceRunFields || !SameSizes(start, stop))
      && (f.ctsOffset <==> !noCtsOffset)
    }

    /** All of the next `count` items have one value exactly when the current run reaches that far. */
    lemma CoveredByRun(rs: seq<Run>, cur: nat, cnt: nat, n: nat, count: nat, v: nat)
      requires Canonical(rs) && RunCursorAt(rs, cur, cnt, n) && 0 < count && n + count <= Total(rs)
      ensures |Expand(rs)| == Total(rs)
      ensures (forall i | n <= i < n + count :: Expand(rs)[i] == v) <==> (rs[cur].value == v && cnt >= count)
    {
      hide Expand, Total;
      CurrentValue(rs, cur, cnt, n);
      if cnt < count {
        PrefixStep(rs, cur);
        assert rs[..|rs|] == rs;
        assert cur + 1 < |rs|;
        RunItem(rs, cur + 1, 0);
        assert Expand(rs)[n + cnt] == rs[cur + 1].value && Expand(rs)[n] == rs[cur].value;
      } else {
        assert Expand(rs)[n] == rs[cur].value;
      }
    }

    lemma SizesCovered(n: nat, count: nat)
      requires ListsOk() && RunCursorAt(sizeLst, sizeCur, sizeCnt, n) && 0 < count && n + count <= N()
      ensures sizeCur < |sizeLst|
      ensures SameSizes(n, n + count) <==> sizeLst[sizeCur].value == trex.size && sizeCnt >= count
    {
      hide Expand, Total, Canonical;
      ExpandLength(sizeLst);
      CoveredByRun(sizeLst, sizeCur, sizeCnt, n, count, trex.size);
      assert SameSizes(n, n + count) <==> (forall i | n <= i < n + count :: Expand(sizeLst)[i] == trex.size);
    }

    ghost predicate FlagFieldsOk(f: RunFields, firstFlags: bool)
      reads `samplesSameMode
    {
      !cfg.writeSdtp && sdtpLst != [] ==>
        && f.flags == (samplesSameMode == IsDifferent)
        && firstFlags == (samplesSameMode == IsSameExceptFirst)
    }

    /** The fields of the run of a fragment. */
    ghost function FieldsOf(start: nat, stop: nat): RunFields
      requires start < stop <= N() && (sdtpLst != [] ==> |sdtpLst| == N())
    {
      RunFields(cfg.emptyTfhd || cfg.forceRunFields || !SameSteps(start, stop),
                cfg.emptyTfhd || cfg.forceRunFields || !SameSizes(start, stop),
                !cfg.writeSdtp && sdtpLst != [] && ModeOf(start, stop) == IsDifferent, !noCtsOffset)
    }

    ghost function FirstFlagsOf(start: nat, stop: nat): (r: Option<nat>)
      requires start < stop <= N() && (sdtpLst != [] ==> |sdtpLst| == N())
      ensures r.Some? ==> sdtpLst != [] && r == Some(sdtpLst[start])
    {
      if !cfg.writeSdtp && sdtpLst != [] && ModeOf(start, stop) == IsSameExceptFirst then Some(sdtpLst[start]) else None
    }

    /** The whole fragment: base time, header and run. */
    ghost function TrafOf(start: nat, stop: nat): Traf
      requires start < stop <= N() && (sdtpLst != [] ==> |sdtpLst| == N())
      requires |Expand(sizeLst)| == N() && |Expand(ctsOffsetLst)| == N()
    {
      var f := FieldsOf(start, stop);
      Traf(dtsLst[start], HeaderOf(start, stop),
           Trun(f, FirstFlagsOf(start, stop),
             seq(stop - start, j requires 0 <= j < stop - start => RecordOf(f, start + j))))
    }

    /** get_trun: one run for all samples of the fragment, and the fields it must carry.  It is entered
        with a prepared fragment, so the branches that cut runs at sync samples are not reached. */
    method GetTrun(ghost start: nat, ghost stop: nat)
      returns (found: bool, count: nat, fields: RunFields, firstFlags: bool)
      requires ListsOk() && CutsAt(stop) && dtsCur == start <= stop
      requires start < stop ==> trafIsPrepared && RunCursorAt(sizeLst, sizeCur, sizeCnt, start)
      requires start < stop && sdtpLst != [] ==> samplesSameMode == ModeOf(start, stop)
      modifies `trafIsPrepared
      ensures found <==> start < stop
      ensures found ==> count == stop - start && FieldsOk(fields, start, stop) && FlagFieldsOk(fields, firstFlags)
      ensures found ==> (fields.flags || firstFlags ==> sdtpLst != [])
      ensures found ==> fields == FieldsOf(start, stop) && firstFlags == FirstFlagsOf(start, stop).Some?
    {
      hide Expand, Total, Canonical, Increasing, TW.StepsFit, RunCursorAt, SameSteps, SameSizes, CutsAt;
      fields, firstFlags := RunFields(false, false, false, false), false;
      count := SamplesBeforeCut(start, stop);
      if count == 0 { return false, count, fields, firstFlags; }
      if cfg.emptyTfhd { fields := fields.(duration := true, size := true); }
      if !cfg.writeSdtp && sdtpLst != [] {
        if samplesSameMode == IsSameExceptFirst {
          firstFlags := true;
          fields := fields.(flags := false);
        } else if samplesSameMode == IsDifferent {
          fields := fields.(flags := true);
          firstFlags := false;
        }
      }
      trafIsPrepared := false;
      var changed := DurationChanges(count);
      if changed { fields := fields.(duration := true); }
      SizesCovered(start, count);
      if sizeLst[sizeCur].value != trex.size || sizeCnt < count { fields := fields.(size := true); }
      if !noCtsOffset { fields := fields.(ctsOffset := true); }
      if cfg.forceRunFields { fields := fields.(duration := true, size := true); }
      found := true;
    }

    /** The duration loop of get_trun. */
    method DurationChanges(count: nat) returns (changed: bool)
      requires ListsOk() && dtsCur + count <= N()
      ensures changed <==> !SameSteps(dtsCur, dtsCur + count)
    {
      changed := false;
      var i := dtsCur;
      while i < dtsCur + count
        invariant dtsCur <= i <= dtsCur + count
        invariant forall k | dtsCur <= k < i && k + 1 < N() :: StepAfter(k) == trex.duration
      {
        if i + 1 < N() && TW.Delta32(dtsLst[i + 1], dtsLst[i]) != trex.duration {
          assert StepAfter(i) != trex.duration;
          return true;
        }
        i := i + 1;
      }
    }

    /** The fields of sample i in a run. */
    ghost function RecordOf(f: RunFields, i: nat): seq<nat>
      requires |Expand(sizeLst)| == N() && |Expand(ctsOffsetLst)| == N() && i < N()
    {
      (if f.duration then [StepAfter(i)] else [])
      + (if f.size then [Wrap32(Expand(sizeLst)[i])] else [])
      + (if f.flags && i < |sdtpLst| then [sdtpLst[i]] else if f.flags then [0] else [])
      + (if f.ctsOffset then [Wrap32(Expand(ctsOffsetLst)[i])] else [])
    }

    /** The size of sample n; the size cursor moves on. */
    method TakeSize(ghost n: nat) returns (size: nat)
      requires ListsOk() && n < N() && RunCursorAt(sizeLst, sizeCur, sizeCnt, n)
      modifies `sizeCur, `sizeCnt
      ensures |Expand(sizeLst)| == N() && size == Wrap32(Expand(sizeLst)[n])
      ensures RunCursorAt(sizeLst, sizeCur, sizeCnt, n + 1)
    {
      hide Expand, Total, Canonical, Increasing, TW.StepsFit, Wrap32;
      ExpandLength(sizeLst);
      CurrentValue(sizeLst, sizeCur, sizeCnt, n);
      size := Wrap32(sizeLst[sizeCur].value);
      CursorStep(sizeLst, sizeCur, sizeCnt, n);
      sizeCnt := sizeCnt - 1;
      if sizeCnt == 0 {
        sizeCur := sizeCur + 1;
        if sizeCur < |sizeLst| { sizeCnt := sizeLst[sizeCur].count; }
      }
    }

    /** The composition offset of sample n; its cursor moves on. */
    method TakeCtsOffset(ghost n: nat) returns (offset: nat)
      requires ListsOk() && n < N() && RunCursorAt(ctsOffsetLst, ctsCur, ctsCnt, n)
      modifies `ctsCur, `ctsCnt
      ensures |Expand(ctsOffsetLst)| == N() && offset == Wrap32(Expand(ctsOffsetLst)[n])
      ensures RunCursorAt(ctsOffsetLst, ctsCur, ctsCnt, n + 1)
    {
      hide Expand, Total, Canonical, Increasing, TW.StepsFit, Wrap32;
      ExpandLength(ctsOffsetLst);
      CurrentValue(ctsOffsetLst, ctsCur, ctsCnt, n);
      offset := Wrap32(ctsOffsetLst[ctsCur].value);
      CursorStep(ctsOffsetLst, ctsCur, ctsCnt, n);
      ctsCnt := ctsCnt - 1;
      if ctsCnt == 0 {
        ctsCur := ctsCur + 1;
        if ctsCur < |ctsOffsetLst| { ctsCnt := ctsOffsetLst[ctsCur].count; }
      }
    }

    /** The duration of sample n; the cursor moves on. */
    method WriteStep(f: RunFields, ghost n: nat) returns (record: seq<nat>)
      requires n < N() && dtsCur == n
      modifies `dtsCur
      ensures record == (if f.duration then [StepAfter(n)] else []) && dtsCur == n + 1
    {
      hide TW.Delta32;
      record := [];
      var i := dtsCur;
      dtsCur := dtsCur + 1;
      if f.duration {
        if dtsCur < N() {
          record := record + [TW.Delta32(dtsLst[dtsCur], dtsLst[i])];
        } else {
          record := record + [TW.Delta32(mediaDuration, dtsLst[i])];
        }
      }
    }

    lemma Lengths()
      requires ListsOk()
      ensures |Expand(sizeLst)| == N() && |Expand(ctsOffsetLst)| == N() && (sdtpLst != [] ==> |sdtpLst| == N())
    {
    }

    /** One round of the sample loop of write_trun_box, at sample n. */
    method WriteSample(f: RunFields, ghost n: nat) returns (record: seq<nat>)
      requires ListsOk() && n < N() && f.ctsOffset == !noCtsOffset
      requires dtsCur == n && RunCursorAt(sizeLst, sizeCur, sizeCnt, n)
      requires !noCtsOffset ==> RunCursorAt(ctsOffsetLst, ctsCur, ctsCnt, n)
      requires f.flags ==> sdtpLst != [] && sdtpCur == n
      modifies `dtsCur, `sizeCur, `sizeCnt, `ctsCur, `ctsCnt, `sdtpCur
      ensures record == RecordOf(f, n)
      ensures dtsCur == n + 1 && RunCursorAt(sizeLst, sizeCur, sizeCnt, n + 1)
      ensures !noCtsOffset ==> RunCursorAt(ctsOffsetLst, ctsCur, ctsCnt, n + 1)
      ensures sdtpCur == old(sdtpCur) + if f.flags then 1 else 0
    {
      hide Expand, Total, Canonical, TW.Delta32, Increasing, TW.StepsFit, Wrap32, RunCursorAt, TW.NoCtsOffset,
        DefaultFlagsOk;
      record := WriteStep(f, n);
      var size := TakeSize(n);
      if f.size { record := record + [size]; }
      if f.flags {
        record := record + [sdtpLst[sdtpCur]];
        sdtpCur := sdtpCur + 1;
      }
      if !noCtsOffset {
        var offset := TakeCtsOffset(n);
        record := record + [offset];
      }
    }

    /** write_trun_box: consumes the samples of the run; the sdtp cursor is put back afterwards. */
    method WriteTrun(count: nat, f: RunFields, firstFlags: bool, ghost start: nat)
      requires ListsOk() && CursorsAt(start) && start + count <= N() && count > 0
      requires f.ctsOffset == !noCtsOffset && (f.flags || firstFlags ==> sdtpLst != [])
      modifies `dtsCur, `sizeCur, `sizeCnt, `ctsCur, `ctsCnt, `sdtpCur, `trun
      ensures dtsCur == start + count && RunCursorAt(sizeLst, sizeCur, sizeCnt, start + count)
      ensures !noCtsOffset ==> RunCursorAt(ctsOffsetLst, ctsCur, ctsCnt, start + count)
      ensures sdtpCur == old(sdtpCur)
      ensures trun.fields == f && |trun.records| == count
      ensures trun.firstFlags == if firstFlags then Some(sdtpLst[start]) else None
      ensures forall j | 0 <= j < count :: trun.records[j] == RecordOf(f, start + j)
    {
      hide DefaultFlagsOk;
      hide Expand, Total, Canonical, TW.Delta32, Increasing, TW.StepsFit, Wrap32, RunCursorAt;
      var mark := sdtpCur;
      trun := Trun(f, if firstFlags then Some(sdtpLst[sdtpCur]) else None, []);
      var cnt := 0;
      while cnt < count
        invariant 0 <= cnt <= count && dtsCur == start + cnt
        invariant RunCursorAt(sizeLst, sizeCur, sizeCnt, start + cnt)
        invariant !noCtsOffset ==> RunCursorAt(ctsOffsetLst, ctsCur, ctsCnt, start + cnt)
        invariant f.flags ==> sdtpCur == start + cnt
        invariant trun.fields == f && |trun.records| == cnt
        invariant trun.firstFlags == if firstFlags then Some(sdtpLst[start]) else None
        invariant forall j | 0 <= j < cnt :: trun.records[j] == RecordOf(f, start + j)
      {
        var record := WriteSample(f, start + cnt);
        trun := trun.(records := trun.records + [record]);
        cnt := cnt + 1;
      }
      sdtpCur := mark;
    }

    // -------------------------------------------------------------- reading back

    /** What a reader gets for samples start..stop-1 from one fragment: every sample once and in
        order, its size and composition offset, its duration unless it is the last of the track, and
        its flags when they are written in the run or its defaults. */
    ghost predicate Recovers(t: Traf, start: nat, stop: nat)
      requires start <= stop <= N() && |Expand(sizeLst)| == N() && |Expand(ctsOffsetLst)| == N()
    {
      && WellFormedRun(t.trun) && |t.trun.records| == stop - start
      && (start < stop ==> t.baseDts == dtsLst[start])
      && forall j | 0 <= j < stop - start :: RecoversSample(t, start, j)
    }

    ghost predicate RecoversSample(t: Traf, start: nat, j: nat)
      requires WellFormedRun(t.trun) && j < |t.trun.records| && start + j < N()
      requires |Expand(sizeLst)| == N() && |Expand(ctsOffsetLst)| == N()
    {
      && SizeOf(TrexBox(), t, j) == Expand(sizeLst)[start + j]
      && CtsOffsetOf(t, j) == Wrap32(Expand(ctsOffsetLst)[start + j])
      && (start + j + 1 < N() ==> dtsLst[start + j] + DurationOf(TrexBox(), t, j) == dtsLst[start + j + 1])
      && (FlagsWritten() ==> FlagsOf(TrexBox(), t, j) == sdtpLst[start + j])
      && (sdtpLst == [] ==> FlagsOf(TrexBox(), t, j) == TrexBox().flags)
    }

    /** Flags travel in trex, tfhd and trun. */
    ghost predicate FlagsWritten() {
      !cfg.emptyTrex && !cfg.writeSdtp && |sdtpLst| == N()
    }

    lemma RecordFields(f: RunFields, i: nat)
      requires |Expand(sizeLst)| == N() && |Expand(ctsOffsetLst)| == N() && i < N()
      ensures var r := RecordOf(f, i);
        && |r| == Stride(f)
        && (f.duration ==> r[0] == StepAfter(i))
        && (f.size ==> r[One(f.duration)] == Wrap32(Expand(sizeLst)[i]))
        && (f.flags && i < |sdtpLst| ==> r[One(f.duration) + One(f.size)] == sdtpLst[i])
        && (f.ctsOffset ==> r[One(f.duration) + One(f.size) + One(f.flags)] == Wrap32(Expand(ctsOffsetLst)[i]))
    {
      hide Expand, Wrap32, TW.Delta32;
    }

    /** Without a ctts list every offset is 0. */
    lemma NoOffsets(i: nat)
      requires ListsOk() && noCtsOffset && i < N()
      ensures Wrap32(Expand(ctsOffsetLst)[i]) == 0
    {
      assert ctsOffsetLst[..0] == [];
      assert Expand(ctsOffsetLst) == [] + Repeat(0, ctsOffsetLst[0].count);
    }

    lemma SampleRecovered(t: Traf, start: nat, stop: nat, j: nat)
      requires ListsOk() && start < stop <= N() && j < stop - start && t.tfhd == tfhd
        && |t.trun.records| == stop - start
      requires TfhdOk(start, stop) && FieldsOk(t.trun.fields, start, stop)
        && FlagFieldsOk(t.trun.fields, t.trun.firstFlags.Some?)
      requires t.trun.firstFlags.Some? ==> sdtpLst != [] && t.trun.firstFlags == Some(sdtpLst[start])
      requires WellFormedRun(t.trun) && t.trun.records[j] == RecordOf(t.trun.fields, start + j)
      requires sdtpLst == [] ==> tfhd == HeaderOf(start, stop) && !t.trun.fields.flags && t.trun.firstFlags == None
      ensures RecoversSample(t, start, j)
    {
      hide DefaultFlagsOk;
      hide Expand, Canonical, TW.Delta32, Increasing;
      var f := t.trun.fields;
      var i := start + j;
      RecordFields(f, i);
      TW.Wrap32Fits(Expand(sizeLst)[i]);
      if noCtsOffset { NoOffsets(i); }
      if i + 1 < N() { assert dtsLst[i] + StepAfter(i) == dtsLst[i + 1]; }
    }

    /** Under the empty-trex option the mode of the flags is never set: only the first sample of a fragment keeps
        its flags, the others read as 0. */
    lemma EmptyTrexDropsFlags(start: nat, stop: nat, j: nat)
      requires ListsOk() && start < stop <= N() && j < stop - start
      requires cfg.emptyTrex && !cfg.writeSdtp && sdtpLst != []
      ensures WellFormedRun(TrafOf(start, stop).trun)
      ensures FlagsOf(TrexBox(), TrafOf(start, stop), j) == if j == 0 then sdtpLst[start] else 0
    {
      hide RecordOf, Expand, Canonical, Increasing, TW.StepsFit, DefaultFlagsOk, SameSteps, SameSizes;
      AllWellFormed(start, stop);
    }

    lemma AllWellFormed(start: nat, stop: nat)
      requires ListsOk() && start < stop <= N()
      ensures WellFormedRun(TrafOf(start, stop).trun)
    {
      hide RecordOf, Expand, Canonical, Increasing, TW.StepsFit, DefaultFlagsOk, FieldsOf;
      Lengths();
      var t := TrafOf(start, stop);
      forall j | 0 <= j < stop - start ensures |t.trun.records[j]| == Stride(t.trun.fields) {
        RecordFields(t.trun.fields, start + j);
      }
    }

    /** The run of the fragment is out; only the sdtp cursor still stands at its start. */
    ghost predicate RunWritten(start: nat, stop: nat, base: nat)
      reads this
    {
      && start < stop <= N() && dtsCur == stop
      && RunCursorAt(sizeLst, sizeCur, sizeCnt, stop)
      && (!noCtsOffset ==> RunCursorAt(ctsOffsetLst, ctsCur, ctsCnt, stop))
      && (sdtpLst != [] ==> sdtpCur == start)
      && |Expand(sizeLst)| == N() && |Expand(ctsOffsetLst)| == N()
      && Recovers(Traf(base, tfhd, trun), start, stop)
    }

    lemma RunRecovered(start: nat, stop: nat, base: nat)
      requires ListsOk() && start < stop <= N() && base == dtsLst[start] && |trun.records| == stop - start
      requires TfhdOk(start, stop) && FieldsOk(trun.fields, start, stop)
        && FlagFieldsOk(trun.fields, trun.firstFlags.Some?)
      requires trun.firstFlags.Some? ==> sdtpLst != [] && trun.firstFlags == Some(sdtpLst[start])
      requires forall j | 0 <= j < stop - start :: trun.records[j] == RecordOf(trun.fields, start + j)
      requires sdtpLst == [] ==> tfhd == HeaderOf(start, stop) && !trun.fields.flags && trun.firstFlags == None
      ensures Recovers(Traf(base, tfhd, trun), start, stop)
    {
      hide Expand, Canonical, RecordOf, RecoversSample, TfhdOk, FieldsOk, FlagFieldsOk;
      var t := Traf(base, tfhd, trun);
      forall j | 0 <= j < |trun.records| ensures |trun.records[j]| == Stride(trun.fields) {
        RecordFields(trun.fields, start + j);
      }
      forall j | 0 <= j < stop - start ensures RecoversSample(t, start, j) {
        SampleRecovered(t, start, stop, j);
      }
    }

    /** The run loop of write_traf_box: it writes one run and finds no samples for a second one. */
    method WriteRuns(ghost start: nat, ghost stop: nat, ghost base: nat)
      requires ListsOk() && CursorsAt(start) && CutsAt(stop) && start < stop && base == dtsLst[start]
      requires trafIsPrepared && TfhdOk(start, stop)
      requires tfhd == HeaderOf(start, stop) && (sdtpLst != [] ==> samplesSameMode == ModeOf(start, stop))
      modifies `dtsCur, `sizeCur, `sizeCnt, `ctsCur, `ctsCnt, `sdtpCur, `trafIsPrepared, `trun
      ensures RunWritten(start, stop, base) && Traf(base, tfhd, trun) == TrafOf(start, stop)
    {
      hide HeaderOf, ModeOf, FieldsOf, FirstFlagsOf, TrafOf, DefaultFlagsOk, TfhdOk, FieldsOk, FlagFieldsOk, RecordOf,
        Recovers, RunCursorAt, Expand, Canonical, Increasing, TW.StepsFit;
      var more, count, fields, firstFlags := GetTrun(start, stop);
      while more
        invariant more ==> CursorsAt(start) && count == stop - start && (fields.flags || firstFlags ==> sdtpLst != [])
        invariant more ==> TfhdOk(start, stop) && FieldsOk(fields, start, stop) && FlagFieldsOk(fields, firstFlags)
        invariant more ==> fields == FieldsOf(start, stop) && firstFlags == FirstFlagsOf(start, stop).Some?
        invariant !more ==> RunWritten(start, stop, base) && Traf(base, tfhd, trun) == TrafOf(start, stop)
        decreases more
      {
        CtsField(fields, start, stop);
        WriteTrun(count, fields, firstFlags, start);
        WholeTraf(start, stop, base);
        if sdtpLst == [] { NoFlags(start, stop); }
        RunRecovered(start, stop, base);
        more, count, fields, firstFlags := GetTrun(stop, stop);
      }
    }

    lemma NoFlags(start: nat, stop: nat)
      requires start < stop <= N() && sdtpLst == []
      ensures !FieldsOf(start, stop).flags && FirstFlagsOf(start, stop) == None
    {
    }

    lemma WholeTraf(start: nat, stop: nat, base: nat)
      requires ListsOk() && start < stop <= N() && base == dtsLst[start] && |trun.records| == stop - start
      requires tfhd == HeaderOf(start, stop) && trun.fields == FieldsOf(start, stop)
      requires trun.firstFlags == FirstFlagsOf(start, stop)
      requires forall j | 0 <= j < stop - start :: trun.records[j] == RecordOf(trun.fields, start + j)
      ensures Traf(base, tfhd, trun) == TrafOf(start, stop)
    {
      hide DefaultFlagsOk;
      hide HeaderOf, FieldsOf, FirstFlagsOf, RecordOf, Expand;
      assert trun.records == TrafOf(start, stop).trun.records;
    }

    lemma CtsField(f: RunFields, start: nat, stop: nat)
      requires stop <= N() && FieldsOk(f, start, stop)
      ensures f.ctsOffset == !noCtsOffset
    {
    }

    /** write_traf_box: exactly one header and one run for a fragment with samples, and nothing for one without. */
    method WriteTraf(ghost start: nat, ghost stop: nat) returns (trafs: seq<Traf>)
      requires ListsOk() && CursorsAt(start) && CutsAt(stop) && start <= stop
      modifies `dtsCur, `sizeCur, `sizeCnt, `ctsCur, `ctsCnt, `sdtpCur, `tfhd, `samplesSameMode, `trafIsPrepared, `trun
      ensures CursorsAt(stop) && |Expand(sizeLst)| == N() && |Expand(ctsOffsetLst)| == N()
      ensures start == stop ==> trafs == []
      ensures start < stop ==> trafs == [TrafOf(start, stop)] && Recovers(trafs[0], start, stop)
    {
      hide HeaderOf, ModeOf, TrafOf, DefaultFlagsOk, TfhdOk, FieldsOk, FlagFieldsOk, RecoversSample, RunCursorAt,
        Expand, Canonical, Increasing, TW.StepsFit;
      trafs := [];
      var found := GetTfhd(start, stop);
      while found
        invariant found ==> start < stop && CursorsAt(start) && trafs == [] && trafIsPrepared && TfhdOk(start, stop)
        invariant found ==> tfhd == HeaderOf(start, stop) && (sdtpLst != [] ==> samplesSameMode == ModeOf(start, stop))
        invariant !found ==>
          CursorsAt(stop)
          && if start == stop then trafs == [] else trafs == [TrafOf(start, stop)] && Recovers(trafs[0], start, stop)
        decreases found
      {
        var base := dtsLst[dtsCur];
        WriteRuns(start, stop, base);
        if sdtpLst != [] { sdtpCur := sdtpCur + |trun.records|; }
        trafs := trafs + [Traf(base, tfhd, trun)];
        found := GetTfhd(stop, stop);
      }
    }

    // -------------------------------------------------------------- all fragments

    /** get_dts_from_idx */
    function DtsFromIdx(i: nat): nat {
      if i < N() then dtsLst[i] else TWO64 - 1
    }

    /** One sample after the start of the time line: adding a second decode time, which is missing and stands
        as -1, puts the cut in front of it. */
    predicate LateAlone() {
      N() == 1 && dtsLst[0] > 0
    }

    /** Where the samples of the first `covered` ones end that are really written. */
    function Written(covered: nat): nat {
      if LateAlone() then 0 else covered
    }

    /** get_moof_by_TrackIndex: where the fragment is cut; after the last sample, one second decode time later. */
    method GetMoof(f: Frag)
      requires ListsOk() && f.start <= f.stop <= N()
      modifies `fragDts
      ensures CutsAt(Written(f.stop))
    {
      fragDts := DtsFromIdx(f.stop);
      if f.stop == N() {
        fragDts := Wrap64(DtsFromIdx(f.stop - 1) + DtsFromIdx(1));
      }
    }

    /** Decode times are recovered from the base time and the durations. */
    lemma {:induction false} DtsRecovered(t: Traf, start: nat, stop: nat, j: nat)
      requires start < stop <= N() && |Expand(sizeLst)| == N() && |Expand(ctsOffsetLst)| == N()
      requires Recovers(t, start, stop) && j < stop - start
      ensures DtsOf(TrexBox(), t, j) == dtsLst[start + j]
      decreases j
    {
      if j > 0 {
        DtsRecovered(t, start, stop, j - 1);
        assert RecoversSample(t, start, j - 1);
      }
    }

    /** A read sample is sample i of the track. */
    ghost predicate IsSample(r: ReadSample, i: nat)
      requires i < N() && |Expand(sizeLst)| == N() && |Expand(ctsOffsetLst)| == N()
    {
      && r.dts == dtsLst[i] && r.size == Expand(sizeLst)[i]
      && r.ctsOffset == Wrap32(Expand(ctsOffsetLst)[i])
      && (FlagsWritten() ==> r.flags == sdtpLst[i])
      && (sdtpLst == [] ==> r.flags == TrexBox().flags)
    }

    /** What is read for place j of the fragment is sample start + j of the track. */
    ghost predicate ReadsSample(t: Traf, start: nat, stop: nat, j: nat)
      requires j < stop - start && stop <= N() && |Expand(sizeLst)| == N() && |Expand(ctsOffsetLst)| == N()
      requires WellFormedRun(t.trun) && |t.trun.records| == stop - start
    {
      IsSample(Read(TrexBox(), t, stop - start)[j], start + j)
    }

    lemma FragmentRead(t: Traf, start: nat, stop: nat)
      requires start < stop <= N() && |Expand(sizeLst)| == N() && |Expand(ctsOffsetLst)| == N()
      requires Recovers(t, start, stop)
      ensures forall j | 0 <= j < stop - start :: ReadsSample(t, start, stop, j)
    {
      forall j | 0 <= j < stop - start ensures ReadsSample(t, start, stop, j) {
        DtsRecovered(t, start, stop, j);
        assert RecoversSample(t, start, j);
      }
    }

    /** All fragments with samples, in order. */
    ghost function TrafsOf(frags: seq<Frag>): seq<Traf>
      requires (forall i | 0 <= i < |frags| :: frags[i].stop <= N()) && (sdtpLst != [] ==> |sdtpLst| == N())
      requires |Expand(sizeLst)| == N() && |Expand(ctsOffsetLst)| == N()
    {
      if frags == [] then []
      else
        var f := frags[|frags| - 1];
        TrafsOf(frags[..|frags| - 1]) + if f.start < f.stop then [TrafOf(f.start, f.stop)] else []
    }

    ghost predicate ReadsFirst(trafs: seq<Traf>, n: nat)
      requires n <= N() && |Expand(sizeLst)| == N() && |Expand(ctsOffsetLst)| == N()
    {
      && (forall i | 0 <= i < |trafs| :: WellFormedRun(trafs[i].trun))
      && |ReadAll(TrexBox(), trafs)| == n
      && forall i | 0 <= i < n :: IsSample(ReadAll(TrexBox(), trafs)[i], i)
    }

    lemma ReadsMore(trafs: seq<Traf>, t: Traf, start: nat, stop: nat)
      requires start < stop <= N() && |Expand(sizeLst)| == N() && |Expand(ctsOffsetLst)| == N()
      requires ReadsFirst(trafs, start) && Recovers(t, start, stop)
      ensures ReadsFirst(trafs + [t], stop)
    {
      hide IsSample, Expand, RecoversSample, Read;
      FragmentRead(t, start, stop);
      var all := trafs + [t];
      assert all[..|all| - 1] == trafs;
      var r := ReadAll(TrexBox(), all);
      assert r == ReadAll(TrexBox(), trafs) + Read(TrexBox(), t, stop - start);
      forall i | 0 <= i < stop ensures IsSample(r[i], i) {
        if i >= start { assert ReadsSample(t, start, stop, i - start); }
      }
    }

    /** Main result: for every choice of empty trex and tfhd boxes, consecutive fragments are written with exactly
        the headers and runs they should have, and reading them back yields every sample they cover exactly
        once, in order, with its decode time, size, composition offset and, where they are written, its flags.
        Only a lone sample after time 0 is lost. */
    method WriteFragments(frags: seq<Frag>) returns (trafs: seq<Traf>)
      requires ListsOk() && CursorsAt(0) && Consecutive(frags) && Covered(frags) <= N()
      modifies this
      ensures |Expand(sizeLst)| == N() && |Expand(ctsOffsetLst)| == N()
      ensures ReadsFirst(trafs, Written(Covered(frags)))
      ensures forall i | 0 <= i < |frags| :: frags[i].stop <= N()
      ensures trafs == if LateAlone() then [] else TrafsOf(frags)
    {
      hide ReadsFirst, CursorsAt, Expand, Canonical, Increasing, TW.StepsFit, TrafOf, DefaultFlagsOk;
      NothingRead();
      AllInside(frags);
      trafs := [];
      var k := 0;
      while k < |frags|
        invariant 0 <= k <= |frags|
        invariant CursorsAt(Written(Covered(frags[..k]))) && ReadsFirst(trafs, Written(Covered(frags[..k])))
        invariant trafs == if LateAlone() then [] else TrafsOf(frags[..k])
      {
        ConsecutiveStops(frags, k);
        assert frags[..k + 1][k] == frags[k] && frags[..k + 1][..k] == frags[..k];
        trafs := WriteOne(trafs, frags[k]);
        k := k + 1;
      }
      assert frags[..k] == frags;
    }

    /** One fragment behind those already written. */
    method WriteOne(before: seq<Traf>, f: Frag) returns (trafs: seq<Traf>)
      requires ListsOk() && f.start <= f.stop <= N() && CursorsAt(Written(f.start))
      requires |Expand(sizeLst)| == N() && |Expand(ctsOffsetLst)| == N() && ReadsFirst(before, Written(f.start))
      modifies this
      ensures CursorsAt(Written(f.stop)) && ReadsFirst(trafs, Written(f.stop))
      ensures trafs == before + if !LateAlone() && f.start < f.stop then [TrafOf(f.start, f.stop)] else []
    {
      hide ReadsFirst, Recovers, CursorsAt, Expand, Canonical, Increasing, TW.StepsFit, TrafOf, DefaultFlagsOk;
      GetMoof(f);
      var written := WriteTraf(Written(f.start), Written(f.stop));
      trafs := before + written;
      if Written(f.start) < Written(f.stop) {
        ReadsMore(before, written[0], f.start, f.stop);
      } else {
        assert trafs == before;
      }
    }

    lemma AllInside(frags: seq<Frag>)
      requires Consecutive(frags) && Covered(frags) <= N()
      ensures forall i | 0 <= i < |frags| :: frags[i].stop <= N()
    {
      forall i | 0 <= i < |frags| ensures frags[i].stop <= N() { ConsecutiveStops(frags, i); }
    }

    /** What a header may carry: nothing when it must stay empty, but for the duration of AC-4; every default in
        place of an empty trex; else only that duration, and flags other than the track's. */
    ghost predicate HeaderAllowed(h: Tfhd) {
      if cfg.emptyTrex && !cfg.emptyTfhd then h == Tfhd(Some(trex.duration), Some(trex.size), Some(0))
      else
        && h.duration == (if cfg.ac4 && !cfg.emptyTrex && sdtpLst != [] then Some(trex.duration) else None)
        && h.size == None && (cfg.emptyTfhd || sdtpLst == [] ==> h.flags == None) && h.flags != Some(trex.flags)
    }

    lemma {:induction false} HeadersAllowed(frags: seq<Frag>)
      requires ListsOk() && forall i | 0 <= i < |frags| :: frags[i].stop <= N()
      ensures forall k | 0 <= k < |TrafsOf(frags)| :: HeaderAllowed(TrafsOf(frags)[k].tfhd)
    {
      hide Canonical, Increasing, TW.StepsFit, Expand, RecordOf, FieldsOf, FirstFlagsOf, RestDiffers;
      if frags != [] { HeadersAllowed(frags[..|frags| - 1]); }
    }

    /** One header and run per fragment when none is empty. */
    lemma {:induction false} OneTrafEach(frags: seq<Frag>)
      requires ListsOk() && forall i | 0 <= i < |frags| :: frags[i].start < frags[i].stop <= N()
      ensures |TrafsOf(frags)| == |frags|
      ensures forall i | 0 <= i < |frags| :: TrafsOf(frags)[i] == TrafOf(frags[i].start, frags[i].stop)
    {
      hide TrafOf, DefaultFlagsOk, Canonical, Increasing, TW.StepsFit, Expand;
      if frags != [] { OneTrafEach(frags[..|frags| - 1]); }
    }

    lemma NothingRead()
      requires |Expand(sizeLst)| == N() && |Expand(ctsOffsetLst)| == N()
      ensures ReadsFirst([], 0)
    {
    }
  }
}
