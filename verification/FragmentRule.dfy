/** The rule by which create_fragment_lst of src/mp4_muxer.c splits a track, as functions of the track and the
    configured durations alone, and exactly when the split is a good one. */
module FragmentRule {
  import opened FragmentSplit

  /** `min` is the duration that a fragment must exceed to end at a sync sample; `single` asks for one sample
      per fragment. */
  datatype Rule = Rule(src: Source, min: nat, single: bool) {

    ghost predicate Ok() {
      WellTimed(src) && min < src.max
    }

    function N(): int { src.N() }

    /** The decode time of sample i, or the end of the last sample. */
    function T(i: int): nat
      requires 0 <= i < |src.times|
    {
      src.times[i]
    }

    /** The media duration, from the first decode time on. */
    function D(): nat
      requires Ok()
    {
      assert N() > 1 ==> T(0) < T(N() - 1);
      T(N()) - T(0)
    }

    predicate AllSync() { |src.syncs| == N() }

    /** The first entry after s, or n. */
    static function FirstAfter(xs: seq<nat>, s: nat, n: nat): (d: nat)
      requires Increasing(xs)
      ensures (d == n && forall x | x in xs :: x <= s) || (s < d && d in xs && forall x | x in xs :: x <= s || d <= x)
    {
      assert xs != [] ==> xs == [xs[0]] + xs[1..];
      if xs == [] then n else if xs[0] > s then xs[0] else FirstAfter(xs[1..], s, n)
    }

    /** The sample that opens the next description, or N. */
    function NextDesc(s: nat): (d: nat)
      requires Ok() && s < N()
      ensures s < d <= N() && (d < N() ==> d in src.descs) && forall x | x in src.descs :: x <= s || d <= x
    {
      FirstAfter(src.descs, s, N())
    }

    /** What a fragment from sample s may reach when the code takes its start time for f. */
    function Limit(s: nat, f: nat): nat
      requires Ok() && s < N()
    {
      var d := NextDesc(s);
      if d < N() && T(d) < f + src.max then T(d) else f + src.max
    }

    /** The last of the samples xs up to the limit; 0 when there is none. */
    function LastOf(xs: seq<nat>, limit: nat): (x: nat)
      requires Increasing(xs) && forall x | x in xs :: x < |src.times|
      ensures x == 0 || (x in xs && T(x) <= limit)
      ensures forall y | y in xs && T(y) <= limit :: y <= x
    {
      if xs == [] then 0 else
        var x := xs[|xs| - 1];
        assert x in xs;
        if T(x) <= limit then x else LastOf(xs[..|xs| - 1], limit)
    }

    /** The last of the first n samples up to the limit; 0 when there is none. */
    function LastSample(n: nat, limit: nat): (x: nat)
      requires n <= N()
      ensures x == 0 || (x < n && T(x) <= limit)
      ensures forall y | 0 <= y < n && T(y) <= limit :: y <= x
    {
      if n == 0 || T(n - 1) <= limit then (if n == 0 then 0 else n - 1) else LastSample(n - 1, limit)
    }

    /** Filling up with samples of any kind.  The end of the track is reached by comparing the media duration
        with the limit; and when not even one sample is within the limit, the stop falls back to its start. */
    function Filled(s: nat, limit: nat): nat
      requires Ok() && s < N()
    {
      if T(N() - 1) <= limit && D() <= limit then N()
      else if T(s + 1) <= limit then LastSample(N(), limit)
      else if T(s) <= limit then s
      else s + 1
    }

    /** No sync sample lies past the limit. */
    predicate SyncsUsedUp(limit: nat)
      requires Ok()
    {
      src.syncs == [] || T(src.syncs[|src.syncs| - 1]) <= limit
    }

    /** The code counts time from 0, and from the second fragment on from the first sample. */
    ghost predicate StartsAt(s: nat, f: nat) {
      s < N() ==> f == T(s) || (s == 0 && f == 0)
    }

    /** Where a fragment from sample s ends. */
    function Stop(s: nat, f: nat): (e: nat)
      requires Ok() && s < N() && StartsAt(s, f)
      ensures s <= e <= N() && (e == s ==> f < T(s))
    {
      if single then s + 1 else
        var limit := Limit(s, f);
        FilledInside(s, f);
        if AllSync() then Filled(s, limit)
        else if SyncsUsedUp(limit) && D() < limit then N()
        else
          var x := LastOf(src.syncs, limit);
          if s + 1 < x && f + min < T(x) then x else Filled(s, limit)
    }

    lemma FilledInside(s: nat, f: nat)
      requires Ok() && s < N() && StartsAt(s, f)
      ensures var e := Filled(s, Limit(s, f)); s <= e <= N() && (e == s ==> f < T(s))
      ensures var e := Filled(s, Limit(s, f)); s < e < N() ==> e == s + 1 || T(e) <= Limit(s, f)
    {
    }

    /** Samples up to the limit can be reached, and so can always the next one. */
    lemma WithinFits(s: nat, f: nat, e: nat)
      requires Ok() && StartsAt(s, f) && s < e < N() && (T(e) <= Limit(s, f) || e == s + 1)
      ensures Fits(src, s, e)
    {
    }

    /** A time is in reach of a fragment from s: neither too late after f nor after the next description. */
    predicate InTime(s: nat, f: nat, time: nat)
      requires Ok() && s < N()
    {
      time <= f + src.max && forall d | d in src.descs && s < d :: time <= T(d)
    }

    /** The sync samples that are worth ending at: past the minimum and the next sample. */
    ghost predicate EndSync(s: nat, f: nat, x: nat)
      requires Ok() && s < N()
    {
      x in src.syncs && s + 1 < x < N() && InTime(s, f, T(x)) && f + min < T(x)
    }

    /** No sync sample lies behind the limit. */
    ghost predicate SyncsInTime(s: nat, f: nat)
      requires Ok() && s < N()
    {
      forall x | x in src.syncs :: x < N() && InTime(s, f, T(x))
    }

    lemma LimitIs(s: nat, f: nat, time: nat)
      requires Ok() && s < N() && StartsAt(s, f)
      ensures time <= Limit(s, f) <==> InTime(s, f, time)
    {
      var d := NextDesc(s);
      assert forall x | x in src.descs && s < x :: T(d) <= T(x);
    }

    lemma SyncsInReach(s: nat, f: nat)
      requires Ok() && s < N() && StartsAt(s, f)
      ensures SyncsUsedUp(Limit(s, f)) <==> SyncsInTime(s, f)
      ensures var x := LastOf(src.syncs, Limit(s, f));
        if s + 1 < x && f + min < T(x) then EndSync(s, f, x) && forall y: nat | EndSync(s, f, y) :: y <= x
        else forall y: nat :: !EndSync(s, f, y)
    {
      hide Limit, InTime;
      var limit := Limit(s, f);
      forall x | 0 <= x < |src.times| ensures T(x) <= limit <==> InTime(s, f, T(x)) { LimitIs(s, f, T(x)); }
      assert src.syncs != [] ==> src.syncs[|src.syncs| - 1] in src.syncs;
    }

    lemma FilledIs(s: nat, f: nat)
      requires Ok() && s < N() && StartsAt(s, f)
      ensures var e := Filled(s, Limit(s, f));
        if InTime(s, f, T(N() - 1)) && InTime(s, f, D()) then e == N()
        else if InTime(s, f, T(s + 1)) then
          s < e < N() && InTime(s, f, T(e)) && (e + 1 < N() ==> !InTime(s, f, T(e + 1)))
        else e == if InTime(s, f, T(s)) then s else s + 1
    {
      hide Limit, InTime;
      var limit := Limit(s, f);
      forall x | 0 <= x < |src.times| ensures T(x) <= limit <==> InTime(s, f, T(x)) { LimitIs(s, f, T(x)); }
      LimitIs(s, f, D());
    }

    /** Main result for every start time: a mixed track is taken to its end when that comes before the limit and
        no sync sample lies behind the limit, or else to the last sync sample in reach, if that is worth
        ending at; otherwise samples are filled in up to the last one in reach, or to the end when that is in
        reach too.  The end is the media duration here.  With not even the next sample in reach, the fragment
        stops at its own start, if that is in reach. */
    lemma StopExactly(s: nat, f: nat)
      requires Ok() && s < N() && StartsAt(s, f)
      ensures var e := Stop(s, f);
        if single then e == s + 1
        else if !AllSync() && InTime(s, f, D() + 1) && SyncsInTime(s, f) then e == N()
        else if !AllSync() && exists x: nat :: EndSync(s, f, x) then
          EndSync(s, f, e) && forall x: nat | EndSync(s, f, x) :: x <= e
        else if InTime(s, f, T(N() - 1)) && InTime(s, f, D()) then e == N()
        else if InTime(s, f, T(s + 1)) then
          s < e < N() && InTime(s, f, T(e)) && (e + 1 < N() ==> !InTime(s, f, T(e + 1)))
        else e == if InTime(s, f, T(s)) then s else s + 1
    {
      hide Limit, InTime, EndSync, Filled, LastOf, SyncsUsedUp, SyncsInTime, WellTimed;
      SyncsInReach(s, f);
      FilledIs(s, f);
      LimitIs(s, f, D() + 1);
    }

    lemma RoundFits(s: nat, f: nat)
      requires Ok() && s < N() && StartsAt(s, f)
      ensures s < Stop(s, f) < N() ==> Fits(src, s, Stop(s, f))
    {
      var e := Stop(s, f);
      FilledInside(s, f);
      if s < e < N() {
        assert e == s + 1 || T(e) <= Limit(s, f);
        WithinFits(s, f, e);
      }
    }

    /** The end of the track fits when it is near enough and no description opens in between. */
    lemma EndFits(s: nat)
      requires Ok() && s < N()
      ensures Fits(src, s, N()) <==> T(N()) <= T(s) + src.max && NextDesc(s) == N()
    {
    }

    // ------------------------------------------------------------ the whole split

    /** The fragments from sample s on: the loop ends where the next start is not before the media duration. */
    function Split(s: nat, f: nat): seq<Frag>
      requires Ok() && s <= N() && StartsAt(s, f)
      decreases N() - s, if s < N() && f < T(s) then 1 else 0
    {
      if s == N() || f >= D() then [] else
        var e := Stop(s, f);
        [Frag(s, e)] + Split(e, if e < N() then T(e) else D())
    }

    function All(): seq<Frag>
      requires Ok()
    {
      Split(0, 0)
    }

    /** What the code takes for the start time of a fragment from s. */
    function Base(s: nat): nat
      requires s < N()
    {
      if s == 0 then 0 else T(s)
    }

    function StopOf(s: nat): (e: nat)
      requires Ok() && s < N()
      ensures s <= e <= N()
    {
      Stop(s, Base(s))
    }

    /** The samples that start a fragment, from s on, up to the first start that goes wrong. */
    function Starts(s: nat): (r: seq<nat>)
      requires Ok() && s <= N()
      ensures forall i | 0 <= i < |r| :: s <= r[i] < N()
      decreases N() - s
    {
      hide Ok, StopOf;
      if s == N() then []
      else [s] + if Base(s) < D() && s < StopOf(s) then Starts(StopOf(s)) else []
    }

    /** A start goes wrong when it is not before the media duration, so that its fragment is left out; when
        its fragment is empty; and when the end of the track is taken in although it is too far or
        behind another description. */
    predicate GoesWrong(s: nat)
      requires Ok() && s < N()
    {
      || D() <= Base(s)
      || StopOf(s) == s
      || (StopOf(s) == N() && (T(s) + src.max < T(N()) || NextDesc(s) < N()))
    }

    predicate Sound()
      requires Ok()
    {
      forall s | s in Starts(0) :: !GoesWrong(s)
    }

    /** frags are fitting fragments, one after the other, from s to the end. */
    ghost predicate Chain(frags: seq<Frag>, s: nat) {
      if frags == [] then s == N()
      else frags[0].start == s && Fits(src, s, frags[0].stop) && Chain(frags[1..], frags[0].stop)
    }

    lemma {:induction false} ChainIs(frags: seq<Frag>, s: nat)
      ensures Chain(frags, s) <==>
        && AllFit(src, frags)
        && (forall i, j | 0 <= i && j == i + 1 && j < |frags| :: frags[i].stop == frags[j].start)
        && if frags == [] then s == N() else frags[0].start == s && frags[|frags| - 1].stop == N()
    {
      hide Fits;
      if frags != [] {
        var rest := frags[1..];
        ChainIs(rest, frags[0].stop);
        assert frags == [frags[0]] + rest;
        if Chain(frags, s) {
          forall i, j | 0 <= i && j == i + 1 && j < |frags| ensures frags[i].stop == frags[j].start {
            if i > 0 { assert rest[i - 1].stop == rest[j - 1].start; }
          }
          forall i | 0 <= i < |frags| ensures Fits(src, frags[i].start, frags[i].stop) {
            if i > 0 { assert Fits(src, rest[i - 1].start, rest[i - 1].stop); }
          }
        } else if AllFit(src, frags) {
          assert Fits(src, frags[0].start, frags[0].stop);
          assert AllFit(src, rest);
        }
      }
    }

    lemma NotEmpty(s: nat)
      ensures !Fits(src, s, s)
    {
    }

    lemma {:induction false} ChainExactly(s: nat, f: nat)
      requires Ok() && s <= N() && (s < N() ==> f == Base(s))
      ensures Chain(Split(s, f), s) <==> forall x | x in Starts(s) :: !GoesWrong(x)
      decreases N() - s
    {
      hide Stop, Fits, Ok;
      if s < N() && f < D() {
        var e := StopOf(s);
        RoundFits(s, f);
        EndFits(s);
        assert Split(s, f)[0] == Frag(s, e);
        assert s in Starts(s);
        if s == e {
          assert !Fits(src, s, e) by { NotEmpty(s); }
        } else {
          var next := if e < N() then T(e) else D();
          ChainExactly(e, next);
          assert Split(s, f)[1..] == Split(e, next);
          assert Starts(s) == [s] + Starts(e);
          assert forall x | x in Starts(e) :: x in Starts(s);
        }
      }
      assert s < N() ==> s in Starts(s);
    }

    /** Fragments that follow each other from s on and stay inside the track. */
    ghost predicate FollowFrom(frags: seq<Frag>, s: nat) {
      && (frags != [] ==> frags[0].start == s && frags[|frags| - 1].stop <= N())
      && (forall i, j | 0 <= i && j == i + 1 && j < |frags| :: frags[i].stop == frags[j].start)
      && forall i | 0 <= i < |frags| :: frags[i].start <= frags[i].stop
    }

    lemma OneMoreFollows(s: nat, e: nat, rest: seq<Frag>)
      requires s <= e <= N() && FollowFrom(rest, e)
      ensures FollowFrom([Frag(s, e)] + rest, s)
    {
      var frags := [Frag(s, e)] + rest;
      forall i, j | 0 <= i && j == i + 1 && j < |frags| ensures frags[i].stop == frags[j].start {
        if i > 0 { assert rest[i - 1].stop == rest[j - 1].start; }
      }
    }

    /** Whatever goes wrong, the fragments follow each other. */
    lemma {:induction false} SplitFollows(s: nat, f: nat)
      requires Ok() && s <= N() && StartsAt(s, f)
      ensures FollowFrom(Split(s, f), s)
      decreases N() - s, if s < N() && f < T(s) then 1 else 0
    {
      hide Stop, Ok;
      if s < N() && f < D() {
        var e := Stop(s, f);
        var next := if e < N() then T(e) else D();
        assert Split(s, f) == [Frag(s, e)] + Split(e, next);
        hide Split, FollowFrom;
        SplitFollows(e, next);
        OneMoreFollows(s, e, Split(e, next));
      }
    }

    lemma AllInOrder()
      requires Ok()
      ensures Consecutive(All()) && Covered(All()) <= N()
    {
      SplitFollows(0, 0);
    }

    /** Main result on validity: the split is a partition into fitting fragments exactly when no start goes
        wrong. */
    lemma SoundExactly()
      requires Ok()
      ensures Partition(All(), N()) && AllFit(src, All()) <==> Sound()
    {
      ChainExactly(0, 0);
      ChainIs(All(), 0);
    }

    // ------------------------------------------------------------ decode times from 0

    function Last(): int { N() - 1 }

    /** The last sample has no duration. */
    predicate ZeroLast()
      requires Ok()
    {
      T(Last()) == T(N())
    }

    /** The last sample has no duration and opens a description after sample s. */
    predicate OpensLast(s: nat)
      requires Ok()
    {
      ZeroLast() && s < Last() && Last() in src.descs
    }

    /** The track could end exactly when the fragment must, yet a fragment of a track with other than
        sync samples is cut at the last sync sample: the end of the track is compared with "<" there. */
    predicate MissesEnd(s: nat)
      requires Ok() && s < N()
    {
      && !AllSync()
      && T(N()) == T(s) + src.max && Fits(src, s, N())
      && exists x | x in src.syncs :: s + 1 < x < N() && T(s) + min < T(x)
    }

    /** A sync sample further on than the next one is in reach and past the minimum duration. */
    ghost predicate SyncInReach(s: nat)
      requires Ok() && s < N()
    {
      exists x | x in src.syncs :: s + 1 < x < N() && Fits(src, s, x) && T(s) + min < T(x)
    }

    /** In a track with other than sync samples, a fragment ends at the last such sync sample or at the end of
        the track; with none, it is filled up as far as it may reach. */
    ghost predicate EndsByRule(f: Frag)
      requires Ok() && f.start < N()
    {
      !single && !AllSync() ==>
        if SyncInReach(f.start)
        then Allowed(src, true, f.stop) && forall x | x in src.syncs && Fits(src, f.start, x) :: x <= f.stop
        else Longest(src, false, f)
    }

    /** A fragment from s ends in front of a last sample without duration: it is the last sync sample in reach,
        and the limit of the fragment lies exactly at its time. */
    ghost predicate DropsLast(s: nat)
      requires Ok() && s < N()
    {
      && ZeroLast() && !single && !AllSync() && s + 1 < Last() && Last() in src.syncs
      && Fits(src, s, Last()) && T(s) + min < T(N())
      && (T(N()) == T(s) + src.max || Last() in src.descs)
    }

    /** What a fragment is by the rule: it fits, unless it takes in a last sample without duration that opens a
        description; even then it is not too long, no other description opens inside, and no sync sample
        in reach is passed by. */
    ghost predicate MeetsRule(f: Frag)
      requires Ok()
    {
      && f.start < f.stop <= N()
      && (Fits(src, f.start, f.stop) <==> !(f.stop == N() && OpensLast(f.start)))
      && T(f.stop) <= T(f.start) + src.max
      && (forall d | d in src.descs && f.start < d < f.stop :: d == Last() && ZeroLast())
      && EndsByRule(f)
      && (single ==> f.stop == f.start + 1)
      && (!single ==>
           && (AllSync() ==> Longest(src, false, f))
           && (Longest(src, true, f) <==> !MissesEnd(f.start))
           && (!Fits(src, f.start, f.stop) ==> AllSync() || !SyncInReach(f.start))
           && (ZeroLast() ==> (f.stop == Last() <==> DropsLast(f.start))))
    }

    /** Everything up to the limit, and nothing else, can be reached. */
    lemma Reach(s: nat)
      requires Ok() && s < N() && T(0) == 0 && T(s) < T(N())
      ensures var limit := Limit(s, T(s));
        && (forall e | s < e < N() :: Fits(src, s, e) <==> T(e) <= limit)
        && (Fits(src, s, N()) <==> T(N()) <= limit && !OpensLast(s))
        && T(s) < T(s + 1) <= limit <= T(s) + src.max
        && (T(N()) <= limit ==> limit == T(s) + src.max || OpensLast(s))
        && (OpensLast(s) ==> limit <= T(N()))
    {
    }

    lemma InOrder()
      requires Ok() && T(0) == 0
      ensures N() > 0 && D() == T(N()) && T(Last()) <= T(N()) && forall a, b | 0 <= a < b < N() :: T(a) < T(b)
      ensures forall a | 0 <= a < N() :: T(a) <= T(N()) && (T(a) == T(N()) <==> ZeroLast() && a == Last())
      ensures (forall x | x in src.syncs :: x < N()) && (forall d | d in src.descs :: d < N())
    {
    }

    /** Filling up takes in everything that can be reached. */
    lemma FilledIsLongest(s: nat)
      requires Ok() && s < N() && T(0) == 0 && T(s) < T(N())
      ensures var limit := Limit(s, T(s));
        var e := Filled(s, limit);
        s < e <= N() && T(e) <= limit && Longest(src, false, Frag(s, e)) && (e == N() <==> T(N()) <= limit)
    {
      hide Limit;
      Reach(s);
      InOrder();
      hide WellTimed, Fits;
    }

    /** The last sync sample up to the limit, when it lies past the minimum, is what a mixed track ends at; else
        there is none in reach. */
    lemma LastSyncIs(s: nat)
      requires Ok() && s < N() && T(0) == 0 && T(s) < T(N())
      ensures var x := LastOf(src.syncs, Limit(s, T(s)));
        if s + 1 < x && T(s) + min < T(x)
        then x in src.syncs && x < N() && T(x) <= Limit(s, T(s)) && SyncInReach(s)
          && forall y | y in src.syncs && Fits(src, s, y) :: y <= x
        else !SyncInReach(s)
    {
      hide Limit;
      Reach(s);
      InOrder();
      hide WellTimed, Fits;
    }

    /** In a mixed track with an end before the limit, and with one behind it. */
    lemma StopIs(s: nat)
      requires Ok() && s < N() && T(0) == 0 && T(s) < T(N()) && !single
      ensures var limit, e := Limit(s, T(s)), StopOf(s);
        if !AllSync() && T(N()) >= limit && SyncInReach(s)
        then s + 1 < e < N() && e in src.syncs && T(s) + min < T(e) <= limit
          && forall y | y in src.syncs && Fits(src, s, y) :: y <= e
        else s < e <= N() && T(e) <= limit && Longest(src, false, Frag(s, e)) && (e == N() <==> T(N()) <= limit)
    {
      hide Ok, Limit, Fits, Longest, SyncInReach, Filled, LastOf;
      FilledIsLongest(s);
      LastSyncIs(s);
      InOrder();
      assert src.syncs != [] ==> src.syncs[|src.syncs| - 1] in src.syncs;
    }

    lemma StopMeetsRule(s: nat)
      requires Ok() && s < N() && T(0) == 0 && T(s) < T(N())
      ensures MeetsRule(Frag(s, StopOf(s)))
    {
      hide MeetsRule, WellTimed, Limit, StopOf, SyncInReach, Fits, Longest;
      if single {
        SingleMeetsRule(s);
      } else {
        StopIs(s);
        if !AllSync() && T(N()) >= Limit(s, T(s)) && SyncInReach(s) {
          SyncStopMeetsRule(s, StopOf(s));
        } else {
          LongestMeetsRule(s, StopOf(s));
        }
      }
    }

    lemma SyncStopMeetsRule(s: nat, e: nat)
      requires Ok() && s < N() && T(0) == 0 && T(s) < T(N()) && !single && !AllSync() && SyncInReach(s)
      requires s + 1 < e < N() && e in src.syncs && T(s) + min < T(e) <= Limit(s, T(s)) <= T(N())
      requires forall y | y in src.syncs && Fits(src, s, y) :: y <= e
      ensures MeetsRule(Frag(s, e))
    {
      Reach(s);
      InOrder();
      hide WellTimed, Limit, SyncInReach;
    }

    lemma LongestMeetsRule(s: nat, e: nat)
      requires Ok() && s < N() && T(0) == 0 && T(s) < T(N()) && !single
      requires AllSync() || T(N()) < Limit(s, T(s)) || !SyncInReach(s)
      requires s < e <= N() && T(e) <= Limit(s, T(s)) && Longest(src, false, Frag(s, e))
        && (e == N() <==> T(N()) <= Limit(s, T(s)))
      ensures MeetsRule(Frag(s, e))
    {
      Reach(s);
      InOrder();
      hide WellTimed, Limit;
    }

    lemma SingleMeetsRule(s: nat)
      requires Ok() && s < N() && T(0) == 0 && T(s) < T(N()) && single
      ensures MeetsRule(Frag(s, StopOf(s)))
    {
    }

    /** The rule leaves no choice: it determines where the fragment ends. */
    lemma RuleIsUnique(s: nat, a: nat, b: nat)
      requires Ok() && s < N() && T(0) == 0 && T(s) < T(N())
      requires MeetsRule(Frag(s, a)) && MeetsRule(Frag(s, b))
      ensures a == b
    {
      if a < b { NotLater(s, a, b); }
      if b < a { NotLater(s, b, a); }
    }

    lemma NotLater(s: nat, a: nat, b: nat)
      requires Ok() && s < N() && T(0) == 0 && T(s) < T(N())
      requires MeetsRule(Frag(s, a)) && MeetsRule(Frag(s, b))
      ensures b <= a
    {
      if Fits(src, s, b) {
        hide WellTimed, DropsLast, Fits;
      } else {
        assert s < Last() && Fits(src, s, Last());
        hide WellTimed, Fits;
      }
    }

    // ------------------------------------------------------------ the end of the track

    /** In a track with other than sync samples, a fragment from s would last exactly until the last sample,
        and that is a sync sample. */
    predicate LimitAtEnd(s: nat)
      requires Ok()
    {
      && !AllSync() && Last() in src.syncs && s + 1 < Last()
      && T(N()) == T(s) + src.max && Fits(src, s, Last())
    }

    /** Nothing goes wrong where the track ends: its last sample has a duration, or there is more than one
        sample, fragments may hold several, the last one opens no description, and no fragment would last
        exactly until it. */
    predicate EndIsSafe()
      requires Ok()
    {
      ZeroLast() ==> !single && N() > 1 && Last() !in src.descs && forall s | s in Starts(0) :: !LimitAtEnd(s)
    }

    lemma {:induction false} NextStart(s: nat, x: nat)
      requires Ok() && s <= N() && x in Starts(s) && Base(x) < D() && x < StopOf(x) < N()
      ensures StopOf(x) in Starts(s)
      decreases N() - s
    {
      if x != s { NextStart(StopOf(s), x); }
    }

    /** Every start but the first is where a fragment stops. */
    lemma {:induction false} PreviousStart(s: nat, y: nat) returns (x: nat)
      requires Ok() && s <= N() && y in Starts(s) && y != s
      ensures x in Starts(s) && x < N() && Base(x) < D() && StopOf(x) == y
      decreases N() - s
    {
      var e := StopOf(s);
      if e == y { x := s; } else { x := PreviousStart(e, y); }
    }

    /** When no start goes wrong, some fragment stops at the end. */
    lemma {:induction false} LastStart(s: nat) returns (x: nat)
      requires Ok() && s < N() && forall y | y in Starts(s) :: !GoesWrong(y)
      ensures x in Starts(s) && x < N() && StopOf(x) == N()
      decreases N() - s
    {
      assert s in Starts(s);
      if StopOf(s) == N() { x := s; } else { x := LastStart(StopOf(s)); }
    }

    /** With decode times from 0, a start goes wrong only in a track whose last sample has no duration: when
        it is that sample, or when the fragment takes that sample in behind its description. */
    lemma WrongFromZero(s: nat)
      requires Ok() && T(0) == 0 && s < N()
      ensures GoesWrong(s) <==> ZeroLast() && (s == Last() || (StopOf(s) == N() && OpensLast(s)))
    {
      InOrder();
      if T(s) < T(N()) {
        StopMeetsRule(s);
        EndFits(s);
      }
      hide Ok, Stop, EndsByRule, Longest;
    }

    /** Main result for decode times from 0: no start goes wrong exactly when the end of the track is safe. */
    lemma SafeExactly()
      requires Ok() && T(0) == 0
      ensures Sound() <==> EndIsSafe()
    {
      hide WellTimed, Stop, Starts, Fits, EndsByRule, Longest, GoesWrong;
      InOrder();
      FirstOfStarts(0);
      if Sound() && ZeroLast() {
        var x := LastStart(0);
        WrongFromZero(x);
        WrongFromZero(Last());
        StopMeetsRule(x);
        forall s | s in Starts(0) ensures !LimitAtEnd(s) {
          WrongFromZero(s);
          StopMeetsRule(s);
          if LimitAtEnd(s) { NextStart(0, s); }
        }
      }
      if EndIsSafe() {
        forall s | s in Starts(0) ensures !GoesWrong(s) {
          WrongFromZero(s);
          if ZeroLast() && s == Last() {
            var x := PreviousStart(0, s);
            StopMeetsRule(x);
          }
        }
      }
    }


    // ------------------------------------------------------------ the number of fragments

    predicate NoneMissesEnd()
      requires Ok()
    {
      forall s | s in Starts(0) :: !MissesEnd(s)
    }

    /** The fragments from these starts. */
    function FragsAt(starts: seq<nat>): (frags: seq<Frag>)
      requires Ok() && forall i | 0 <= i < |starts| :: starts[i] < N()
      ensures |frags| == |starts|
      ensures forall i | 0 <= i < |starts| :: frags[i] == Frag(starts[i], StopOf(starts[i]))
    {
      seq(|starts|, i requires 0 <= i < |starts| => Frag(starts[i], StopOf(starts[i])))
    }

    /** One round from a start that does not go wrong. */
    lemma OneRound(s: nat)
      requires Ok() && s < N() && !GoesWrong(s)
      ensures s < StopOf(s) <= N() && Starts(s) == [s] + Starts(StopOf(s))
      ensures Split(s, Base(s)) == [Frag(s, StopOf(s))] + Split(StopOf(s), Next(s))
      ensures StopOf(s) < N() ==> Next(s) == Base(StopOf(s))
    {
      hide Ok, Stop;
    }

    /** What the code takes for the start time of the next fragment. */
    function Next(s: nat): nat
      requires Ok() && s < N()
    {
      if StopOf(s) < N() then T(StopOf(s)) else D()
    }

    lemma OneMoreStart(s: nat, starts: seq<nat>)
      requires Ok() && s < N() && forall i | 0 <= i < |starts| :: starts[i] < N()
      ensures FragsAt([s] + starts) == [Frag(s, StopOf(s))] + FragsAt(starts)
    {
      hide Ok, StopOf;
    }

    /** When no start goes wrong, the fragments are those of the starts. */
    lemma {:induction false} SplitIsStarts(s: nat, f: nat)
      requires Ok() && s <= N() && (s < N() ==> f == Base(s)) && forall x | x in Starts(s) :: !GoesWrong(x)
      ensures Split(s, f) == FragsAt(Starts(s))
      decreases N() - s
    {
      hide Ok, StopOf, GoesWrong, FragsAt, Next;
      if s < N() {
        FirstOfStarts(s);
        OneRound(s);
        hide Split, Starts;
        RestIsRight(s, Starts(StopOf(s)));
        SplitIsStarts(StopOf(s), Next(s));
        OneMoreStart(s, Starts(StopOf(s)));
      }
    }

    lemma RestIsRight(s: nat, starts: seq<nat>)
      requires Ok() && forall x | x in [s] + starts :: x < N() && !GoesWrong(x)
      ensures forall x | x in starts :: x < N() && !GoesWrong(x)
    {
      hide GoesWrong, Ok;
      assert forall x | x in starts :: x in [s] + starts;
    }

    lemma FirstOfStarts(s: nat)
      requires Ok() && s < N()
      ensures s in Starts(s)
    {
    }

    /** Main result on the number of fragments, for decode times from 0: it is the least possible for tracks of
        sync samples only; in a mixed track it is the least for fragments that end at sync samples when no
        fragment misses the end, and, if fragments start at sync samples, only then. */
    lemma FewestExactly()
      requires Ok() && T(0) == 0 && !single && Sound()
      ensures AllSync() ==> IsFewest(src, false, All())
      ensures NoneMissesEnd() ==> IsFewest(src, true, All())
      ensures !AllSync() && (forall s | s in Starts(0) :: s in src.syncs) ==>
        (IsFewest(src, true, All()) <==> NoneMissesEnd())
    {
      hide WellTimed, Split, Starts, Stop, Fits, Longest, EndsByRule, GoesWrong, IsFewest, MissesEnd, Partition;
      InOrder();
      SoundExactly();
      SplitIsStarts(0, 0);
      forall i | 0 <= i < |All()| ensures MeetsRule(All()[i]) {
        WrongFromZero(Starts(0)[i]);
        StopMeetsRule(Starts(0)[i]);
      }
      if AllSync() { LongestIsFewest(src, false, All()); }
      if NoneMissesEnd() {
        LongestIsFewest(src, true, All());
      } else if !AllSync() && forall s | s in Starts(0) :: s in src.syncs {
        var s :| s in Starts(0) && MissesEnd(s);
        var k :| 0 <= k < |Starts(0)| && Starts(0)[k] == s;
        EndTaken(All(), k);
      }
    }

    /** A fragment that misses the end could have been the last one. */
    lemma EndTaken(frags: seq<Frag>, k: nat)
      requires Ok() && Partition(frags, N()) && AllFit(src, frags) && !single && k < |frags|
      requires forall i | 0 <= i < |frags| :: frags[i].start in src.syncs
      requires MeetsRule(frags[k]) && MissesEnd(frags[k].start)
      ensures !IsFewest(src, true, frags)
    {
      hide WellTimed, EndsByRule, DropsLast;
      var other := frags[..k] + [Frag(frags[k].start, N())];
      assert !Longest(src, true, frags[k]) && frags[k].stop < N();
      assert k + 1 < |frags|;
      assert Partition(other, N());
      forall i | 0 <= i < |other|
        ensures Fits(src, other[i].start, other[i].stop) && Allowed(src, true, other[i].stop)
      {
        if i < k { assert other[i] == frags[i] && frags[i].stop == frags[i + 1].start; }
      }
    }
  }
}
