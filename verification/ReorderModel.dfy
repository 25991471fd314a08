/** What the decoded-picture reorder buffer of src/esparser/parser_avc_dpb.c does, call by call,
    and what its whole runs guarantee.  The class that shifts the arrays in place is
    `ReorderBuffer.Apoc`; each of its methods is proved equal to a step of this module. */
module ReorderModel {

  /** A decoded picture: its index in decoding order, its picture order count, and the number of
      flushes that preceded it (pictures between two flushes form one period). */
  datatype Pic = Pic(doc: nat, poc: int, period: nat)

  /** `held` is the buffer in decoding order, `output` the pictures in the order they left it,
      `cap` is one more than the configured reorder count. */
  datatype State = State(
    cap: int,
    period: nat,
    decoded: seq<Pic>,
    held: seq<Pic>,
    output: seq<Pic>,
    reorderMin: nat)

  datatype Event = SetReorder(n: int) | Flush | Add(poc: int, idr: bool)

  /** The capacity the source starts with: DP_CNT_MAX. */
  const DP_CNT_MAX := 33

  const INITIAL := State(DP_CNT_MAX, 0, [], [], [], 0)

  /** Index of the first picture of least POC among the first n. */
  function MinIdx(held: seq<Pic>, n: nat): (m: nat)
    requires 0 < n <= |held|
    ensures m < n
    ensures forall i | 0 <= i < n :: held[m].poc <= held[i].poc
    ensures forall i | 0 <= i < m :: held[m].poc < held[i].poc
  {
    if n == 1 then 0
    else
      var m' := MinIdx(held, n - 1);
      if held[n - 1].poc < held[m'].poc then n - 1 else m'
  }

  function Remove<T>(s: seq<T>, i: nat): (r: seq<T>)
    requires i < |s|
    ensures multiset(r) == multiset(s) - multiset{s[i]}
    ensures |r| == |s| - 1
    ensures forall j | 0 <= j < |r| :: r[j] == s[if j < i then j else j + 1]
  {
    assert s == s[..i] + [s[i]] + s[i + 1..];
    s[..i] + s[i + 1..]
  }

  function Emit(s: State): State
    requires |s.held| > 0
  {
    var k := MinIdx(s.held, |s.held|);
    s.(held := Remove(s.held, k),
       output := s.output + [s.held[k]],
       reorderMin := if s.reorderMin < k then k else s.reorderMin)
  }

  function Update(s: State): State
    requires |s.held| > 0
  {
    if |s.held| < s.cap then s else Emit(s)
  }

  function Drain(s: State): State
    decreases |s.held|
  {
    if |s.held| == 0 then s else Drain(Emit(s))
  }

  /** A flush empties the buffer and opens a new period. */
  function FlushStep(s: State): State {
    var t := Drain(s);
    t.(period := t.period + 1)
  }

  function Push(s: State, poc: int): State {
    var p := Pic(|s.decoded|, poc, s.period);
    s.(decoded := s.decoded + [p], held := s.held + [p])
  }

  function Step(s: State, e: Event): State {
    match e
    case SetReorder(n) => s.(cap := n + 1)
    case Flush => FlushStep(s)
    case Add(poc, idr) => Update(Push(if idr then FlushStep(s) else s, poc))
  }

  function Run(s: State, es: seq<Event>): State
    decreases |es|
  {
    if es == [] then s else Step(Run(s, es[..|es| - 1]), es[|es| - 1])
  }

  // ---------------------------------------------------------------- conservation

  /** Held and output pictures partition the decoded ones, each picture knows its decode index,
      and the buffer keeps decoding order. */
  ghost predicate Conserving(s: State) {
    && multiset(s.held) + multiset(s.output) == multiset(s.decoded)
    && |s.held| + |s.output| == |s.decoded|
    && (forall i | 0 <= i < |s.decoded| :: s.decoded[i].doc == i)
    && (forall i, j | 0 <= i < j < |s.held| :: s.held[i].doc < s.held[j].doc)
  }

  lemma MultisetMember<T>(a: seq<T>, b: seq<T>, c: seq<T>, x: T)
    requires multiset(a) + multiset(b) == multiset(c)
    ensures x in c <==> x in a || x in b
  {
    assert x in c <==> x in multiset(c);
    assert x in a <==> x in multiset(a);
    assert x in b <==> x in multiset(b);
  }

  /** Every decoded picture has exactly one place: one buffer slot or one output index. */
  ghost predicate UniquePlace(s: State) {
    && (forall i, j | 0 <= i < j < |s.output| :: s.output[i].doc != s.output[j].doc)
    && (forall i, j | 0 <= i < |s.held| && 0 <= j < |s.output| :: s.held[i].doc != s.output[j].doc)
    && (forall d | 0 <= d < |s.decoded| :: s.decoded[d] in s.held || s.decoded[d] in s.output)
    && (forall i | 0 <= i < |s.output| :: s.output[i].doc < |s.decoded| && s.decoded[s.output[i].doc] == s.output[i])
    && (forall i | 0 <= i < |s.held| :: s.held[i].doc < |s.decoded| && s.decoded[s.held[i].doc] == s.held[i])
  }

  lemma NoDuplicates(c: seq<Pic>, p: Pic)
    requires forall i | 0 <= i < |c| :: c[i].doc == i
    ensures multiset(c)[p] <= 1
    ensures p in c ==> p.doc < |c| && c[p.doc] == p
  {
    if p in c {
      var i :| 0 <= i < |c| && c[i] == p;
      assert c == c[..i] + [c[i]] + c[i + 1..];
      assert p !in c[..i] && p !in c[i + 1..];
      assert multiset(c) == multiset(c[..i]) + multiset{p} + multiset(c[i + 1..]);
    }
  }

  lemma {:induction false} TwoPlaces<T>(s: seq<T>, i: nat, j: nat)
    requires i < j < |s| && s[i] == s[j]
    ensures multiset(s)[s[i]] >= 2
  {
    assert s == s[..i] + [s[i]] + s[i + 1..j] + [s[j]] + s[j + 1..];
  }

  lemma PlacesAreUnique(s: State)
    requires Conserving(s)
    ensures UniquePlace(s)
  {
    forall p: Pic
      ensures multiset(s.held)[p] + multiset(s.output)[p] <= 1
      ensures p in s.held || p in s.output ==> p.doc < |s.decoded| && s.decoded[p.doc] == p
    {
      NoDuplicates(s.decoded, p);
      MultisetMember(s.held, s.output, s.decoded, p);
      assert multiset(s.decoded)[p] == multiset(s.held)[p] + multiset(s.output)[p];
    }
    forall i, j | 0 <= i < j < |s.output| ensures s.output[i].doc != s.output[j].doc {
      if s.output[i] == s.output[j] { TwoPlaces(s.output, i, j); }
      assert s.output[i] in s.output && s.output[j] in s.output;
    }
    forall i, j | 0 <= i < |s.held| && 0 <= j < |s.output| ensures s.held[i].doc != s.output[j].doc {
      assert s.held[i] in multiset(s.held) && s.output[j] in multiset(s.output);
      assert s.output[j] in s.output && s.held[i] in s.held;
    }
    forall d | 0 <= d < |s.decoded| ensures s.decoded[d] in s.held || s.decoded[d] in s.output {
      MultisetMember(s.held, s.output, s.decoded, s.decoded[d]);
    }
  }

  // ---------------------------------------------------------------- reorder delay

  /** The bookkeeping that makes buffer positions speak about decode and output indexes. */
  ghost predicate DelayInv(s: State) {
    && (forall k | 0 <= k < |s.held| :: s.held[k].doc <= k + |s.output|)
    && (forall k | 0 <= k < |s.held| && (k > s.reorderMin || |s.output| == 0) :: s.held[k].doc == k + |s.output|)
    && (forall o | 0 <= o < |s.output| :: s.output[o].doc - o <= s.reorderMin)
    && (|s.output| > 0 ==> exists o | 0 <= o < |s.output| :: s.output[o].doc - o == s.reorderMin)
    && (|s.output| == 0 ==> s.reorderMin == 0)
  }

  ghost predicate Inv(s: State) { Conserving(s) && DelayInv(s) }

  /** An element that leaves one sequence for the other is still there. */
  lemma MovesOne<T>(a: seq<T>, b: seq<T>, k: nat)
    requires k < |a|
    ensures multiset(Remove(a, k)) + multiset(b + [a[k]]) == multiset(a) + multiset(b)
  {
    hide Remove;
    assert a[k] in multiset(a);
    assert multiset(b + [a[k]]) == multiset(b) + multiset{a[k]};
  }

  lemma EmitConserves(s: State)
    requires Conserving(s) && |s.held| > 0
    ensures Conserving(Emit(s))
  {
    hide MinIdx, Remove;
    MovesOne(s.held, s.output, MinIdx(s.held, |s.held|));
  }

  lemma EmitBoundsDelay(s: State)
    requires DelayInv(s) && |s.held| > 0
    ensures DelayInv(Emit(s))
  {
    var k := MinIdx(s.held, |s.held|);
    var t := Emit(s);
    assert s.held[k].doc <= k + |s.output|;
    assert t.output[|s.output|] == s.held[k];
    if s.reorderMin < k || |s.output| == 0 {
      assert t.output[|s.output|].doc - |s.output| == t.reorderMin;
    } else {
      var o :| 0 <= o < |s.output| && s.output[o].doc - o == s.reorderMin;
      assert t.output[o].doc - o == t.reorderMin;
    }
  }

  lemma EmitKeepsInv(s: State)
    requires Inv(s) && |s.held| > 0
    ensures Inv(Emit(s))
  {
    EmitConserves(s);
    EmitBoundsDelay(s);
  }

  lemma PushConserves(s: State, poc: int)
    requires Conserving(s)
    ensures Conserving(Push(s, poc))
  {
    var t := Push(s, poc);
    var p := t.decoded[|s.decoded|];
    assert multiset(t.held) == multiset(s.held) + multiset{p};
    assert multiset(t.decoded) == multiset(s.decoded) + multiset{p};
    forall i | 0 <= i < |s.held| ensures s.held[i].doc < |s.decoded| {
      PlacesAreUnique(s);
    }
  }

  lemma PushKeepsInv(s: State, poc: int)
    requires Inv(s)
    ensures Inv(Push(s, poc))
  {
    PushConserves(s, poc);
    assert DelayInv(Push(s, poc)) by {
      var t := Push(s, poc);
      if |s.output| > 0 {
        var o :| 0 <= o < |s.output| && s.output[o].doc - o == s.reorderMin;
        assert t.output[o].doc - o == t.reorderMin;
      }
    }
  }

  lemma {:induction false} DrainKeepsInv(s: State)
    requires Inv(s)
    ensures Inv(Drain(s)) && Drain(s).held == [] && Drain(s).decoded == s.decoded
    ensures Drain(s).period == s.period && Drain(s).cap == s.cap
    ensures s.output <= Drain(s).output
    decreases |s.held|
  {
    if |s.held| > 0 {
      EmitKeepsInv(s);
      DrainKeepsInv(Emit(s));
    }
  }

  lemma UpdateKeepsInv(s: State)
    requires Inv(s) && |s.held| > 0
    ensures Inv(Update(s)) && s.output <= Update(s).output && Update(s).decoded == s.decoded
  {
    if |s.held| >= s.cap { EmitKeepsInv(s); }
  }

  /** A period ends: everything held leaves the buffer. */
  lemma FlushKeepsInv(s: State)
    requires Inv(s)
    ensures Inv(FlushStep(s)) && FlushStep(s).held == []
    ensures s.output <= FlushStep(s).output && FlushStep(s).decoded == s.decoded
  {
    DrainKeepsInv(s);
    assert DelayInv(FlushStep(s)) by { assert DelayInv(Drain(s)); }
  }

  lemma StepKeepsInv(s: State, e: Event)
    requires Inv(s)
    ensures Inv(Step(s, e)) && s.output <= Step(s, e).output && s.decoded <= Step(s, e).decoded
  {
    match e
    case SetReorder(n) => assert DelayInv(Step(s, e)) by { assert DelayInv(s); }
    case Flush => FlushKeepsInv(s);
    case Add(poc, idr) =>
      FlushKeepsInv(s);
      var t := if idr then FlushStep(s) else s;
      PushKeepsInv(t, poc);
      UpdateKeepsInv(Push(t, poc));
  }

  lemma {:induction false} RunKeepsInv(s: State, es: seq<Event>)
    requires Inv(s)
    ensures Inv(Run(s, es))
    decreases |es|
  {
    if es != [] {
      RunKeepsInv(s, es[..|es| - 1]);
      StepKeepsInv(Run(s, es[..|es| - 1]), es[|es| - 1]);
    }
  }

  /** In every reachable state the buffered and the output pictures partition the decoded ones,
      and the output index is a bijection between output pictures and 0..|output|-1. */
  lemma ReachableConserving(es: seq<Event>)
    ensures Conserving(Run(INITIAL, es)) && UniquePlace(Run(INITIAL, es))
  {
    RunKeepsInv(INITIAL, es);
    PlacesAreUnique(Run(INITIAL, es));
  }

  /** Delay d is enough: every output picture can be shown d ticks after its decode index. */
  ghost predicate Sufficient(s: State, d: int) {
    forall o | 0 <= o < |s.output| :: d + o - s.output[o].doc >= 0
  }

  /** The tracked delay is exactly the least one that keeps every composition offset non-negative. */
  lemma ReorderDelayIsMinimal(es: seq<Event>, d: int)
    requires |Run(INITIAL, es).output| > 0
    ensures Sufficient(Run(INITIAL, es), d) <==> d >= Run(INITIAL, es).reorderMin
  {
    RunKeepsInv(INITIAL, es);
    var s := Run(INITIAL, es);
    var o :| 0 <= o < |s.output| && s.output[o].doc - o == s.reorderMin;
  }

  // ---------------------------------------------------------------- what each event does

  /** Pictures in POC order, equal ones in decoding order. */
  ghost predicate ByPoc(ps: seq<Pic>) {
    forall i, j | 0 <= i < j < |ps| :: ps[i].poc < ps[j].poc || (ps[i].poc == ps[j].poc && ps[i].doc < ps[j].doc)
  }

  ghost predicate ByDoc(ps: seq<Pic>) {
    forall i, j | 0 <= i < j < |ps| :: ps[i].doc < ps[j].doc
  }

  ghost predicate IsLeast(held: seq<Pic>, k: nat) {
    && k < |held| && (forall i | 0 <= i < |held| :: held[k].poc <= held[i].poc)
    && forall i | 0 <= i < k :: held[k].poc < held[i].poc
  }

  /** Draining appends what is held, in POC order. */
  lemma {:induction false} DrainSorts(s: State) returns (tail: seq<Pic>)
    requires ByDoc(s.held)
    ensures Drain(s).output == s.output + tail && multiset(tail) == multiset(s.held) && ByPoc(tail)
    decreases |s.held|
  {
    hide ByPoc, ByDoc, Drain, IsLeast, Emit;
    DrainNext(s);
    if |s.held| == 0 {
      NothingSorted();
      tail := [];
    } else {
      var k := EmitParts(s);
      var rest := DrainSorts(Emit(s));
      LeastFirst(s.held, k, rest);
      tail := [s.held[k]] + rest;
      Regroup(s.output, s.held[k], rest);
    }
  }

  lemma Regroup(a: seq<Pic>, x: Pic, b: seq<Pic>)
    ensures (a + [x]) + b == a + ([x] + b)
  {
  }

  lemma DrainNext(s: State)
    ensures Drain(s) == if |s.held| == 0 then s else Drain(Emit(s))
  {
  }

  lemma EmitParts(s: State) returns (k: nat)
    requires |s.held| > 0 && ByDoc(s.held)
    ensures IsLeast(s.held, k) && k < |s.held| && |Emit(s).held| == |s.held| - 1 && ByDoc(Emit(s).held)
    ensures multiset(Emit(s).held) == multiset(Remove(s.held, k)) && Emit(s).output == s.output + [s.held[k]]
  {
    k := MinIdx(s.held, |s.held|);
    RemoveKeepsOrder(s.held, k);
  }

  lemma NothingSorted()
    ensures ByPoc([])
  {
  }

  lemma RemoveKeepsOrder(held: seq<Pic>, k: nat)
    requires k < |held| && ByDoc(held)
    ensures ByDoc(Remove(held, k))
  {
  }

  lemma LeastFirst(held: seq<Pic>, k: nat, rest: seq<Pic>)
    requires k < |held| && multiset(rest) == multiset(Remove(held, k)) && ByPoc(rest) && ByDoc(held)
    requires IsLeast(held, k)
    ensures multiset([held[k]] + rest) == multiset(held) && ByPoc([held[k]] + rest)
  {
    hide Remove;
    var all := [held[k]] + rest;
    MovesOne(held, [], k);
    assert multiset(all) == multiset{held[k]} + multiset(rest);
    assert multiset([] + [held[k]]) == multiset{held[k]};
    forall i, j | 0 <= i < j < |all|
      ensures all[i].poc < all[j].poc || (all[i].poc == all[j].poc && all[i].doc < all[j].doc)
    {
      assert all[j] == rest[j - 1];
      if i > 0 { assert all[i] == rest[i - 1]; } else { LaterThanLeast(held, k, rest, j - 1); }
    }
  }

  lemma LaterThanLeast(held: seq<Pic>, k: nat, rest: seq<Pic>, j: nat)
    requires k < |held| && j < |rest| && multiset(rest) == multiset(Remove(held, k)) && ByDoc(held)
    requires IsLeast(held, k)
    ensures held[k].poc < rest[j].poc || (held[k].poc == rest[j].poc && held[k].doc < rest[j].doc)
  {
    hide Remove;
    var left := Remove(held, k);
    assert rest[j] in multiset(rest);
    assert rest[j] in left;
    var i :| 0 <= i < |left| && left[i] == rest[j];
    assert rest[j] == held[if i < k then i else i + 1];
  }

  /** A flush puts everything held out in POC order; nothing else about the pictures changes. */
  lemma FlushEffect(s: State) returns (tail: seq<Pic>)
    requires Inv(s)
    ensures var t := Step(s, Flush);
      && t.held == [] && t.decoded == s.decoded && t.cap == s.cap
      && t.output == s.output + tail && multiset(tail) == multiset(s.held) && ByPoc(tail)
  {
    DrainKeepsInv(s);
    tail := DrainSorts(s);
  }

  /** A picture that is not IDR joins the held ones; when the capacity is reached, exactly one picture leaves:
      the one of least POC, the earliest of several. */
  lemma AddEffect(s: State, poc: int)
    requires Inv(s)
    ensures var t, all := Step(s, Add(poc, false)), s.held + [Pic(|s.decoded|, poc, s.period)];
      && t.decoded == s.decoded + [Pic(|s.decoded|, poc, s.period)] && t.cap == s.cap && t.period == s.period
      && (|s.held| + 1 < s.cap ==> t.held == all && t.output == s.output)
      && (|s.held| + 1 >= s.cap ==>
           exists k | 0 <= k < |all| ::
             && t.output == s.output + [all[k]] && t.held == all[..k] + all[k + 1..]
             && (forall i | 0 <= i < |all| :: all[k].poc <= all[i].poc)
             && forall i | 0 <= i < k :: all[k].poc < all[i].poc)
  {
    hide Conserving, DelayInv, MinIdx, Emit;
    var u := Push(s, poc);
    assert Step(s, Add(poc, false)) == Update(u);
    if |s.held| + 1 >= s.cap { var k := EmitAt(u); }
  }

  lemma EmitAt(s: State) returns (k: nat)
    requires |s.held| > 0
    ensures k < |s.held| && Emit(s) == s.(held := s.held[..k] + s.held[k + 1..], output := s.output + [s.held[k]],
                                          reorderMin := Emit(s).reorderMin)
    ensures forall i | 0 <= i < |s.held| :: s.held[k].poc <= s.held[i].poc
    ensures forall i | 0 <= i < k :: s.held[k].poc < s.held[i].poc
  {
    k := MinIdx(s.held, |s.held|);
  }

  /** A new reorder count changes nothing but the capacity. */
  lemma SetEffect(s: State, n: int)
    ensures Step(s, SetReorder(n)) == s.(cap := n + 1)
  {
  }

  /** An IDR picture ends the period: everything decoded before it is put out first. */
  lemma IdrEffect(s: State, poc: int)
    requires Inv(s)
    ensures Step(s, Add(poc, true)) == Step(Step(s, Flush), Add(poc, false))
    ensures var t, n := Step(s, Add(poc, true)), |s.decoded|;
      && t.period == s.period + 1 && n <= |t.output| <= n + 1 && multiset(t.output[..n]) == multiset(s.decoded)
      && t.decoded == s.decoded + [Pic(n, poc, s.period + 1)]
      && (|t.output| == n + 1 ==> t.output[n] == t.decoded[n] && t.held == [])
      && (|t.output| == n ==> t.held == [t.decoded[n]])
  {
    hide Conserving, DelayInv, Step;
    IdrIsFlush(s, poc);
    FlushKeepsInv(s);
    FlushIs(s);
    var u := Step(s, Flush);
    AllOut(u);
    AddToNone(u, poc);
    assert Step(u, Add(poc, false)).output[..|s.decoded|] == u.output;
  }

  lemma IdrIsFlush(s: State, poc: int)
    ensures Step(s, Add(poc, true)) == Step(Step(s, Flush), Add(poc, false))
  {
    hide Update, Drain;
  }

  lemma FlushIs(s: State)
    requires Inv(s)
    ensures var t := Step(s, Flush);
      t == FlushStep(s) && t.decoded == s.decoded && t.period == s.period + 1 && t.cap == s.cap
  {
    hide Conserving, DelayInv;
    DrainKeepsInv(s);
  }

  /** With nothing held, everything decoded is out. */
  lemma AllOut(s: State)
    requires Conserving(s) && s.held == []
    ensures |s.output| == |s.decoded| && multiset(s.output) == multiset(s.decoded)
  {
  }

  lemma AddToNone(s: State, poc: int)
    requires s.held == []
    ensures var t, p := Step(s, Add(poc, false)), Pic(|s.decoded|, poc, s.period);
      && t.decoded == s.decoded + [p] && t.period == s.period
      && if 1 < s.cap then t.held == [p] && t.output == s.output else t.held == [] && t.output == s.output + [p]
  {
    assert [] + [Pic(|s.decoded|, poc, s.period)] == [Pic(|s.decoded|, poc, s.period)];
  }

  // ---------------------------------------------------------------- pictures and periods by the events alone

  /** Pictures added. */
  function Adds(es: seq<Event>): nat {
    if es == [] then 0 else Adds(es[..|es| - 1]) + if es[|es| - 1].Add? then 1 else 0
  }

  predicate OpensPeriod(e: Event) {
    e.Flush? || (e.Add? && e.idr)
  }

  /** Periods opened: by a flush, or by an IDR picture. */
  function Openings(es: seq<Event>): nat {
    if es == [] then 0
    else Openings(es[..|es| - 1]) + if OpensPeriod(es[|es| - 1]) then 1 else 0
  }

  /** The pictures are those added, each in the period that its flushes and IDR pictures give. */
  ghost predicate PicturesOf(es: seq<Event>, decoded: seq<Pic>) {
    && |decoded| == Adds(es)
    && forall i | 0 <= i < |es| && es[i].Add? :: IsPicture(es, i, decoded)
  }

  ghost predicate IsPicture(es: seq<Event>, i: nat, decoded: seq<Pic>)
    requires i < |es| && es[i].Add?
  {
    && Adds(es[..i]) < |decoded|
    && decoded[Adds(es[..i])] == Pic(Adds(es[..i]), es[i].poc, Openings(es[..i + 1]))
  }

  lemma {:induction false} DecodedAre(s: State, es: seq<Event>)
    requires Inv(s) && s.decoded == [] && s.period == 0
    ensures PicturesOf(es, Run(s, es).decoded) && Run(s, es).period == Openings(es)
    decreases |es|
  {
    hide Step, Inv;
    if es != [] {
      var n := |es| - 1;
      var before, u := es[..n], Run(s, es[..n]);
      DecodedAre(s, before);
      RunKeepsInv(s, before);
      LastPicture(u, es[n]);
      OnePictureMore(es, u.decoded, Run(s, es).decoded);
    }
  }

  /** The reorder count in force: the last one set, or 32. */
  function ReorderCount(es: seq<Event>): int {
    if es == [] then 32
    else if es[|es| - 1].SetReorder? then es[|es| - 1].n
    else ReorderCount(es[..|es| - 1])
  }

  lemma {:induction false} CapacityIs(es: seq<Event>)
    ensures Run(INITIAL, es).cap == ReorderCount(es) + 1
    decreases |es|
  {
    hide Conserving, DelayInv, Drain, Update;
    if es != [] {
      var s := Run(INITIAL, es[..|es| - 1]);
      CapacityIs(es[..|es| - 1]);
      RunKeepsInv(INITIAL, es[..|es| - 1]);
      CapacityKept(s, es[|es| - 1]);
    }
  }

  lemma CapacityKept(s: State, e: Event)
    requires Inv(s)
    ensures Step(s, e).cap == if e.SetReorder? then e.n + 1 else s.cap
  {
    hide Conserving, DelayInv;
    DrainKeepsInv(s);
  }

  lemma OnePictureMore(es: seq<Event>, before: seq<Pic>, decoded: seq<Pic>)
    requires es != [] && PicturesOf(es[..|es| - 1], before)
    requires decoded == before + match es[|es| - 1]
      case Add(poc, idr) => [Pic(|before|, poc, Openings(es))]
      case _ => []
    ensures PicturesOf(es, decoded)
  {
    hide Openings, IsPicture, Adds;
    AddsNext(es);
    var n := |es| - 1;
    forall i | 0 <= i < |es| && es[i].Add? ensures IsPicture(es, i, decoded) {
      if i < n { PictureStays(es, i, before, decoded); } else { NewPicture(es, before, decoded); }
    }
  }

  lemma AddsNext(es: seq<Event>)
    requires es != []
    ensures Adds(es) == Adds(es[..|es| - 1]) + if es[|es| - 1].Add? then 1 else 0
  {
  }

  lemma PictureStays(es: seq<Event>, i: nat, before: seq<Pic>, decoded: seq<Pic>)
    requires i < |es| - 1 && es[i].Add? && before <= decoded && IsPicture(es[..|es| - 1], i, before)
    ensures IsPicture(es, i, decoded)
  {
    assert es[..i] == es[..|es| - 1][..i] && es[..i + 1] == es[..|es| - 1][..i + 1];
  }

  lemma NewPicture(es: seq<Event>, before: seq<Pic>, decoded: seq<Pic>)
    requires es != [] && es[|es| - 1].Add? && |before| == Adds(es[..|es| - 1])
    requires decoded == before + [Pic(|before|, es[|es| - 1].poc, Openings(es))]
    ensures IsPicture(es, |es| - 1, decoded)
  {
    assert es[..|es|] == es;
  }

  lemma LastPicture(s: State, e: Event)
    requires Inv(s)
    ensures Step(s, e).decoded == s.decoded + match e
      case Add(poc, idr) => [Pic(|s.decoded|, poc, if idr then s.period + 1 else s.period)]
      case _ => []
    ensures Step(s, e).period == s.period + if OpensPeriod(e) then 1 else 0
  {
    hide Conserving, DelayInv, Step;
    match e
    case Add(poc, idr) => if idr { IdrEffect(s, poc); } else { AddEffect(s, poc); }
    case Flush => FlushIs(s);
    case SetReorder(n) => SetEffect(s, n);
  }

  // ---------------------------------------------------------------- how far decoding runs ahead

  /** If every output picture has a decode index below m, a buffered one is at most its slot past m. */
  lemma {:induction false} LeadBound(s: State, m: nat, k: nat)
    requires Conserving(s) && k < |s.held|
    requires forall o | 0 <= o < |s.output| :: s.output[o].doc < m
    ensures s.held[k].doc <= m + k
    decreases k
  {
    if s.held[k].doc > m {
      var d := s.held[k].doc - 1;
      PlacesAreUnique(s);
      assert s.decoded[d] in s.held;
      var i :| 0 <= i < |s.held| && s.held[i] == s.decoded[d];
      assert i < k;
      LeadBound(s, m, k - 1);
    }
  }

  /** Hence no more pictures were output than there are decode indexes below m. */
  lemma OutputBound(s: State, m: nat)
    requires Conserving(s)
    requires forall o | 0 <= o < |s.output| :: s.output[o].doc < m
    ensures |s.output| <= m
  {
    var n := |s.decoded|;
    if n > m {
      PlacesAreUnique(s);
      assert s.decoded[n - 1] in s.held;
      var i :| 0 <= i < |s.held| && s.held[i] == s.decoded[n - 1];
      LeadBound(s, m, i);
    }
  }

  /** A held picture is new to the output, and less than 33 past any bound on the output so far. */
  lemma HeldIsNew(s: State, m: nat, k: nat)
    requires Conserving(s) && k < |s.held| <= DP_CNT_MAX
    requires forall o | 0 <= o < |s.output| :: s.output[o].doc < m
    ensures s.held[k].doc < m + DP_CNT_MAX && s.held[k].doc < |s.decoded|
    ensures forall o | 0 <= o < |s.output| :: s.output[o].doc != s.held[k].doc
  {
    PlacesAreUnique(s);
    LeadBound(s, m, k);
  }

  // ---------------------------------------------------------------- decode index => output index

  /** The output index of decode index d, or -1. */
  function OutIndex(output: seq<Pic>, d: int): (r: int)
    ensures -1 <= r < |output|
    ensures r >= 0 ==> output[r].doc == d
    ensures r == -1 ==> forall o | 0 <= o < |output| :: output[o].doc != d
  {
    var n := |output|;
    if n == 0 then -1
    else if output[n - 1].doc == d then n - 1
    else OutIndex(output[..n - 1], d)
  }

  lemma OutIndexStep(output: seq<Pic>, p: Pic)
    ensures forall d :: OutIndex(output + [p], d) == if d == p.doc then |output| else OutIndex(output, d)
  {
    assert (output + [p])[..|output|] == output;
  }
}
