/** When does the reorder buffer put pictures back into display order?  Exactly when no picture is
    preceded, in decoding order and within its period, by more than N pictures of larger POC. */
module DisplayOrder {
  import opened ReorderModel

  /** p may be displayed no later than q: periods first, then POC. */
  predicate NoLater(p: Pic, q: Pic) {
    p.period < q.period || (p.period == q.period && p.poc <= q.poc)
  }

  ghost predicate InDisplayOrder(out: seq<Pic>) {
    forall a, b | 0 <= a < b < |out| :: NoLater(out[a], out[b])
  }

  predicate Overtaken(p: Pic, y: Pic) {
    p.period == y.period && p.poc > y.poc
  }

  /** How many pictures of `ds` share y's period and have a larger POC. */
  function Larger(ds: seq<Pic>, y: Pic): nat {
    if ds == [] then 0
    else Larger(ds[..|ds| - 1], y) + if Overtaken(ds[|ds| - 1], y) then 1 else 0
  }

  /** Each picture has at most n earlier-decoded pictures of its period with larger POC. */
  ghost predicate WithinReorder(ds: seq<Pic>, n: nat) {
    forall i | 0 <= i < |ds| :: Larger(ds[..i], ds[i]) <= n
  }

  // ---------------------------------------------------------------- counting

  lemma {:induction false} LargerConcat(a: seq<Pic>, b: seq<Pic>, y: Pic)
    ensures Larger(a + b, y) == Larger(a, y) + Larger(b, y)
    decreases |b|
  {
    if b == [] {
      assert a + b == a;
    } else {
      var b' := b[..|b| - 1];
      assert (a + b)[..|a + b| - 1] == a + b';
      LargerConcat(a, b', y);
    }
  }

  lemma {:induction false} LargerPermutes(a: seq<Pic>, b: seq<Pic>, y: Pic)
    requires multiset(a) == multiset(b)
    ensures Larger(a, y) == Larger(b, y)
    decreases |a|
  {
    if a == [] {
      assert multiset(b) == multiset{};
      assert b == [];
    } else {
      var a', p := a[..|a| - 1], a[|a| - 1];
      assert a == a' + [p];
      assert p in multiset(b);
      var i :| 0 <= i < |b| && b[i] == p;
      assert b == b[..i] + [p] + b[i + 1..];
      var b' := Remove(b, i);
      assert b' == b[..i] + b[i + 1..];
      assert multiset(a) == multiset(a') + multiset([p]);
      assert multiset(a') == multiset(b) - multiset{p};
      LargerPermutes(a', b', y);
      LargerConcat(b[..i], b[i + 1..], y);
      LargerConcat(b[..i] + [p], b[i + 1..], y);
      LargerConcat(b[..i], [p], y);
      assert Larger([p], y) == Larger(a, y) - Larger(a', y);
    }
  }

  lemma {:induction false} LargerBounds(ds: seq<Pic>, y: Pic)
    ensures Larger(ds, y) <= |ds|
    ensures (forall i | 0 <= i < |ds| :: Overtaken(ds[i], y)) ==> Larger(ds, y) == |ds|
    ensures Larger(ds, y) > 0 <==> exists i | 0 <= i < |ds| :: Overtaken(ds[i], y)
  {
    if ds != [] {
      var ds' := ds[..|ds| - 1];
      LargerBounds(ds', y);
      assert forall i | 0 <= i < |ds'| :: ds'[i] == ds[i];
      if Larger(ds', y) > 0 {
        var i :| 0 <= i < |ds'| && Overtaken(ds'[i], y);
        assert Overtaken(ds[i], y);
      }
    }
  }

  /** The pictures that overtake y are found in the buffer and in the output. */
  lemma LargerSplits(s: State, y: Pic)
    requires Conserving(s)
    ensures Larger(s.decoded, y) == Larger(s.held, y) + Larger(s.output, y)
  {
    LargerPermutes(s.decoded, s.held + s.output, y);
    LargerConcat(s.held, s.output, y);
  }

  // ---------------------------------------------------------------- the two outcomes

  ghost predicate Ordered(s: State) {
    && InDisplayOrder(s.output)
    && (forall a, h | 0 <= a < |s.output| && 0 <= h < |s.held| :: NoLater(s.output[a], s.held[h]))
  }

  ghost predicate Bad(s: State) { !Ordered(s) }

  /** Every held picture belongs to the current period, no output picture to a later one. */
  ghost predicate OnePeriod(s: State) {
    && (forall h | 0 <= h < |s.held| :: s.held[h].period == s.period)
    && (forall a | 0 <= a < |s.output| :: s.output[a].period <= s.period)
  }

  /** Once a period has produced output, n of its pictures stay in the buffer until it ends. */
  ghost predicate Saturated(s: State, n: nat) {
    (exists a | 0 <= a < |s.output| :: s.output[a].period == s.period) ==> |s.held| == n
  }

  ghost predicate Dichotomy(s: State, n: nat) {
    && Inv(s) && s.cap == n + 1 && |s.held| <= n && OnePeriod(s) && Saturated(s, n)
    && (Ordered(s) <==> WithinReorder(s.decoded, n))
  }

  lemma EmitStaysOrdered(s: State)
    requires |s.held| > 0 && OnePeriod(s) && Ordered(s)
    ensures Ordered(Emit(s))
  {
  }

  lemma EmitStaysBad(s: State)
    requires |s.held| > 0 && Bad(s)
    ensures Bad(Emit(s))
  {
    var k := MinIdx(s.held, |s.held|);
    var t := Emit(s);
    var m := |s.output|;
    assert t.output[m] == s.held[k];
    if InDisplayOrder(s.output) {
      var a, h :| 0 <= a < m && 0 <= h < |s.held| && !NoLater(s.output[a], s.held[h]);
      assert t.output[a] == s.output[a];
      if h != k { assert t.held[if h < k then h else h - 1] == s.held[h]; }
    } else {
      var a, b :| 0 <= a < b < m && !NoLater(s.output[a], s.output[b]);
      assert t.output[a] == s.output[a] && t.output[b] == s.output[b];
    }
  }

  lemma EmitKeepsOrder(s: State)
    requires |s.held| > 0 && OnePeriod(s)
    ensures OnePeriod(Emit(s))
    ensures Ordered(s) <==> Ordered(Emit(s))
  {
    if Ordered(s) { EmitStaysOrdered(s); } else { EmitStaysBad(s); }
  }

  lemma {:induction false} DrainKeepsOrder(s: State)
    requires OnePeriod(s)
    ensures OnePeriod(Drain(s)) && Drain(s).period == s.period && Drain(s).held == []
    ensures Ordered(s) <==> InDisplayOrder(Drain(s).output)
    decreases |s.held|
  {
    if |s.held| > 0 {
      EmitKeepsOrder(s);
      DrainKeepsOrder(Emit(s));
    }
  }

  lemma FlushKeepsDichotomy(s: State, n: nat)
    requires Dichotomy(s, n)
    ensures Dichotomy(FlushStep(s), n)
  {
    FlushKeepsInv(s);
    DrainKeepsInv(s);
    DrainKeepsOrder(s);
    assert Ordered(s) <==> Ordered(FlushStep(s));
  }

  /** While a run is in order, the new picture breaks it exactly if more than n pictures overtake it. */
  lemma PushMeetsBound(s: State, poc: int, n: nat)
    requires Dichotomy(s, n) && Ordered(s)
    ensures Ordered(Push(s, poc)) <==> Larger(s.decoded, Pic(|s.decoded|, poc, s.period)) <= n
  {
    hide DelayInv, WithinReorder, Larger, Conserving;
    var y := Pic(|s.decoded|, poc, s.period);
    var t := Push(s, poc);
    LargerSplits(s, y);
    LargerBounds(s.held, y);
    LargerBounds(s.output, y);
    assert t.held[|s.held|] == y;
    if Ordered(t) {
      forall a | 0 <= a < |s.output| ensures !Overtaken(s.output[a], y) {
        assert NoLater(t.output[a], t.held[|s.held|]);
      }
    } else {
      var a, h :| 0 <= a < |s.output| && 0 <= h < |t.held| && !NoLater(s.output[a], t.held[h]);
      assert h == |s.held|;
      assert Overtaken(s.output[a], y);
      assert |s.held| == n;
      var z := s.output[|s.output| - 1];
      forall i | 0 <= i < |s.held| ensures Overtaken(s.held[i], y) {
        assert NoLater(s.output[a], s.held[i]);
      }
    }
  }

  lemma PushWithin(s: State, poc: int, n: nat)
    ensures WithinReorder(Push(s, poc).decoded, n) <==>
            WithinReorder(s.decoded, n) && Larger(s.decoded, Pic(|s.decoded|, poc, s.period)) <= n
  {
    var ds, ds' := s.decoded, Push(s, poc).decoded;
    assert ds'[..|ds|] == ds;
    assert forall i | 0 <= i < |ds| :: ds'[..i] == ds[..i] && ds'[i] == ds[i];
    assert ds'[|ds|] == Pic(|ds|, poc, s.period);
  }

  lemma PushStaysBad(s: State, poc: int)
    requires Bad(s)
    ensures Bad(Push(s, poc))
  {
    var t := Push(s, poc);
    if InDisplayOrder(s.output) {
      var a, h :| 0 <= a < |s.output| && 0 <= h < |s.held| && !NoLater(s.output[a], s.held[h]);
      assert t.held[h] == s.held[h];
    }
  }

  lemma AddKeepsDichotomy(s: State, poc: int, n: nat)
    requires Dichotomy(s, n)
    ensures Dichotomy(Update(Push(s, poc)), n)
  {
    hide DelayInv, Conserving, Larger, WithinReorder, Remove, MinIdx, InDisplayOrder;
    var t := Push(s, poc);
    PushKeepsInv(s, poc);
    UpdateKeepsInv(t);
    PushWithin(s, poc, n);
    if Ordered(s) { PushMeetsBound(s, poc, n); } else { PushStaysBad(s, poc); }
    assert OnePeriod(t);
    EmitKeepsOrder(t);
    if |t.held| < t.cap {
      assert forall a | 0 <= a < |t.output| :: s.output[a].period != s.period;
    }
  }

  predicate FixedReorder(es: seq<Event>) {
    forall i | 0 <= i < |es| :: !es[i].SetReorder?
  }

  lemma {:induction false} RunKeepsDichotomy(n: nat, es: seq<Event>)
    requires FixedReorder(es)
    ensures Dichotomy(Run(INITIAL.(cap := n + 1), es), n)
    decreases |es|
  {
    var s0 := INITIAL.(cap := n + 1);
    if es == [] {
      assert Inv(s0) by { assert DelayInv(s0); }
    } else {
      var s := Run(s0, es[..|es| - 1]);
      RunKeepsDichotomy(n, es[..|es| - 1]);
      FlushKeepsDichotomy(s, n);
      match es[|es| - 1]
      case Flush =>
      case Add(poc, idr) => AddKeepsDichotomy(if idr then FlushStep(s) else s, poc, n);
    }
  }

  /** Main result.  With the reorder count fixed at n, a run followed by a final flush outputs all
      its pictures, periods one after the other and each in POC order, exactly if no picture has
      more than n earlier-decoded pictures of its period with larger POC. */
  lemma OutputIsDisplayOrder(n: nat, es: seq<Event>)
    requires FixedReorder(es)
    ensures var s := Drain(Run(INITIAL.(cap := n + 1), es));
            && multiset(s.output) == multiset(s.decoded)
            && (InDisplayOrder(s.output) <==> WithinReorder(s.decoded, n))
  {
    RunKeepsDichotomy(n, es);
    var s := Run(INITIAL.(cap := n + 1), es);
    DrainKeepsInv(s);
    DrainKeepsOrder(s);
    assert multiset(Drain(s).held) == multiset{};
  }

  // ---------------------------------------------------------------- capacity of the arrays

  /** No slot past the 33 the source declares is ever written: a picture is stored at index
      |held| <= 32. */
  ghost predicate RoomForOneMore(s: State) { |s.held| < DP_CNT_MAX }

  predicate BoundedReorder(es: seq<Event>, top: int) {
    forall i | 0 <= i < |es| :: es[i].SetReorder? ==> es[i].n <= top
  }

  ghost predicate Small(s: State) { RoomForOneMore(s) && s.cap <= DP_CNT_MAX }

  lemma SmallStep(s: State, e: Event)
    requires Small(s) && (e.SetReorder? ==> e.n <= DP_CNT_MAX - 1)
    ensures Small(Step(s, e))
  {
    DrainEmpties(s);
  }

  lemma {:induction false} SmallReorderNeverOverflows(es: seq<Event>)
    requires BoundedReorder(es, DP_CNT_MAX - 1)
    ensures Small(Run(INITIAL, es))
    decreases |es|
  {
    if es != [] {
      SmallReorderNeverOverflows(es[..|es| - 1]);
      SmallStep(Run(INITIAL, es[..|es| - 1]), es[|es| - 1]);
    }
  }

  lemma {:induction false} DrainEmpties(s: State)
    ensures Drain(s).held == [] && Drain(s).cap == s.cap
    decreases |s.held|
  {
    if |s.held| > 0 { DrainEmpties(Emit(s)); }
  }

  lemma {:induction false} HoldsUpTo(n: int, k: nat)
    requires k <= n
    ensures |Run(INITIAL, [SetReorder(n)] + seq(k, i => Add(i, false))).held| == k
    ensures Run(INITIAL, [SetReorder(n)] + seq(k, i => Add(i, false))).cap == n + 1
  {
    var es := [SetReorder(n)] + seq(k, i => Add(i, false));
    if k == 0 {
      assert es[..0] == [] && es[0] == SetReorder(n) && |es| == 1;
      assert Run(INITIAL, []) == INITIAL;
    } else {
      assert es[..|es| - 1] == [SetReorder(n)] + seq(k - 1, i => Add(i, false));
      assert es[|es| - 1] == Add(k - 1, false);
      HoldsUpTo(n, k - 1);
    }
  }

  /** The arrays are large enough for every run with reorder counts up to n exactly if n <= 32. */
  lemma ArraysFitExactly(n: int)
    ensures (forall es: seq<Event> | BoundedReorder(es, n) :: |Run(INITIAL, es).held| < 33) <==> n <= 32
  {
    if n <= DP_CNT_MAX - 1 {
      forall es: seq<Event> | BoundedReorder(es, n) ensures RoomForOneMore(Run(INITIAL, es)) {
        assert BoundedReorder(es, DP_CNT_MAX - 1);
        SmallReorderNeverOverflows(es);
      }
    } else {
      var es := [SetReorder(n)] + seq(DP_CNT_MAX, i => Add(i, false));
      HoldsUpTo(n, DP_CNT_MAX);
      assert BoundedReorder(es, n);
      assert !RoomForOneMore(Run(INITIAL, es));
    }
  }
}
