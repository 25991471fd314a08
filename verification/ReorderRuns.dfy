/** Whole runs of the reorder buffer: any sequence of calls on a new buffer, and what it gives. */
module ReorderRuns {
  import opened ReorderModel
  import opened DisplayOrder
  import opened ReorderBuffer

  /** A call on the buffer: one that the model sees, or the bound of the readiness check. */
  datatype Call = OnModel(event: Event) | SetMaxRef(bound: int)

  /** What the model sees of a run. */
  function Events(calls: seq<Call>): (es: seq<Event>)
    ensures |es| <= |calls|
  {
    if calls == [] then []
    else
      var last := calls[|calls| - 1];
      Events(calls[..|calls| - 1]) + if last.OnModel? then [last.event] else []
  }

  /** Reorder counts fit the arrays, and readiness bounds the first section of the map. */
  predicate Allowed(c: Call) {
    match c
    case OnModel(e) => e.SetReorder? ==> e.n <= DP_CNT_MAX - 1
    case SetMaxRef(n) => n < SECTION
  }

  /** One call. */
  method Make(p: Apoc, c: Call)
    requires p.Valid() && p.refAuMax < SECTION && Small(p.run) && p.docNext < PRIM_SIZE * SECTION && Allowed(c)
    modifies p, p.docs, p.pocs, p.sections
    ensures p.Valid() && p.refAuMax < SECTION && Small(p.run)
    ensures p.run == if c.OnModel? then Step(old(p.run), c.event) else old(p.run)
    ensures old(p.sections) <= p.sections
    ensures forall i | |old(p.sections)| <= i < |p.sections| :: fresh(p.sections[i])
  {
    hide Step, Small, Apoc.Valid;
    if c.OnModel? { SmallStep(p.run, c.event); }
    HeldIsStored(p);
    match c
    case SetMaxRef(n) => p.SetMaxRefAu(n);
    case OnModel(e) =>
      match e
      case SetReorder(n) => p.SetNumReorderAu(n);
      case Flush => p.Flush();
      case Add(poc, idr) => p.Add(poc, idr);
  }

  lemma HeldIsStored(p: Apoc)
    requires p.Valid() && Small(p.run)
    ensures p.dpCnt < DP_CNT_MAX
  {
  }

  lemma StepCounts(s: State, e: Event)
    requires Inv(s)
    ensures |Step(s, e).decoded| <= |s.decoded| + 1
  {
    if e.Flush? || (e.Add? && e.idr) { FlushKeepsInv(s); }
    if e.Add? {
      var t := Push(if e.idr then FlushStep(s) else s, e.poc);
      assert |t.held| > 0;
    }
  }

  /** Any calls on a new buffer, with reorder counts up to 32, readiness bounds below 1024 and no more
      pictures than the map has room for: the buffer is in the state the model reaches, and its delay is the
      least sufficient one. */
  method Play(calls: seq<Call>) returns (p: Apoc)
    requires (forall i | 0 <= i < |calls| :: Allowed(calls[i])) && |calls| <= PRIM_SIZE * SECTION
    ensures fresh(p) && p.Valid() && p.run == Run(INITIAL, Events(calls))
    ensures PicturesOf(Events(calls), p.run.decoded) && p.run.cap == ReorderCount(Events(calls)) + 1
    ensures |p.run.output| > 0 ==> forall d :: Sufficient(p.run, d) <==> d >= p.reorderMin
  {
    hide PicturesOf, ReorderCount, Apoc.Valid, Small, Sufficient, Run, Step, Allowed;
    p := new Apoc();
    StartsSmall();
    NoCalls();
    CountsDecoded(p);
    assert calls[..0] == [];
    for i := 0 to |calls|
      invariant fresh(p) && fresh(p.docs) && fresh(p.pocs)
      invariant forall k | 0 <= k < |p.sections| :: fresh(p.sections[k])
      invariant p.Valid() && p.refAuMax < SECTION && p.run == Run(INITIAL, Events(calls[..i])) && Small(p.run)
        && p.docNext <= i
    {
      RunNext(calls, i);
      CountsDecoded(p);
      if calls[i].OnModel? { StepCounts(p.run, calls[i].event); }
      Make(p, calls[i]);
      CountsDecoded(p);
    }
    assert calls[..|calls|] == calls;
    CountsDecoded(p);
    Initially();
    DecodedAre(INITIAL, Events(calls));
    CapacityIs(Events(calls));
    if |p.run.output| > 0 {
      forall d: int ensures Sufficient(p.run, d) <==> d >= p.reorderMin { ReorderDelayIsMinimal(Events(calls), d); }
    }
  }

  lemma CountsDecoded(p: Apoc)
    requires p.Valid()
    ensures p.docNext == |p.run.decoded| && Inv(p.run) && p.reorderMin == p.run.reorderMin
  {
  }

  lemma Initially()
    ensures Inv(INITIAL) && INITIAL.decoded == [] && INITIAL.period == 0
  {
    assert DelayInv(INITIAL);
  }

  lemma StartsSmall()
    ensures Small(INITIAL)
  {
  }

  lemma NoCalls()
    ensures Run(INITIAL, []) == INITIAL
  {
  }

  lemma RunNext(calls: seq<Call>, i: nat)
    requires i < |calls|
    ensures Run(INITIAL, Events(calls[..i + 1]))
      == if calls[i].OnModel? then Step(Run(INITIAL, Events(calls[..i])), calls[i].event)
        else Run(INITIAL, Events(calls[..i]))
  {
    assert calls[..i + 1][..i] == calls[..i];
    var es := Events(calls[..i]);
    assert es + [] == es;
    assert calls[i].OnModel? ==> (es + [calls[i].event])[..|es|] == es;
  }

  /** Setting the reorder count first is starting with that capacity. */
  lemma {:induction false} SetFirst(n: int, es: seq<Event>)
    ensures Run(INITIAL, [SetReorder(n)] + es) == Run(INITIAL.(cap := n + 1), es)
    decreases |es|
  {
    var all := [SetReorder(n)] + es;
    if es == [] {
      assert all[..0] == [] && all[0] == SetReorder(n);
      assert Run(INITIAL, all[..0]) == INITIAL;
    } else {
      assert all[..|all| - 1] == [SetReorder(n)] + es[..|es| - 1] && all[|all| - 1] == es[|es| - 1];
      SetFirst(n, es[..|es| - 1]);
    }
  }

  /** A stream decoded with a fixed reorder count and flushed at its end: every picture comes out once,
      and in display order exactly when none has more than n larger predecessors in its period, where periods
      are counted by the flushes and IDR pictures among the events. */
  method PlayStream(n: nat, es: seq<Event>) returns (p: Apoc)
    requires n <= DP_CNT_MAX - 1 && FixedReorder(es) && |es| + 2 <= PRIM_SIZE * SECTION
    ensures fresh(p) && p.Valid() && p.run.decoded == Run(INITIAL.(cap := n + 1), es).decoded
    ensures PicturesOf(es, p.run.decoded) && multiset(p.run.output) == multiset(p.run.decoded)
    ensures InDisplayOrder(p.run.output) <==> WithinReorder(p.run.decoded, n)
  {
    hide PicturesOf, Apoc.Valid, InDisplayOrder, WithinReorder;
    var first: seq<Event> := [SetReorder(n)];
    var all := first + es + [Event.Flush];
    EventsOf(all);
    p := Play(seq(|all|, i requires 0 <= i < |all| => OnModel(all[i])));
    assert all[..|all| - 1] == first + es && all[|all| - 1] == Event.Flush;
    SetFirst(n, es);
    RunKeepsDichotomy(n, es);
    DrainKeepsInv(Run(INITIAL.(cap := n + 1), es));
    OutputIsDisplayOrder(n, es);
    StartsRight(n);
    DecodedAre(INITIAL.(cap := n + 1), es);
  }

  lemma StartsRight(n: nat)
    ensures var s := INITIAL.(cap := n + 1); Inv(s) && s.decoded == [] && s.period == 0
  {
    assert DelayInv(INITIAL.(cap := n + 1));
  }

  lemma {:induction false} EventsOf(es: seq<Event>)
    ensures Events(seq(|es|, i requires 0 <= i < |es| => OnModel(es[i]))) == es
  {
    if es != [] {
      var n := |es| - 1;
      var calls := seq(|es|, i requires 0 <= i < |es| => OnModel(es[i]));
      EventsOf(es[..n]);
      assert calls[..n] == seq(n, i requires 0 <= i < n => OnModel(es[..n][i]));
    }
  }
}
