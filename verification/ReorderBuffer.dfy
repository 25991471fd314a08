/** The picture reorder buffer as src/esparser/parser_avc_dpb.c keeps it: two fixed arrays shifted
    in place, a few counters, and a map from decode index to output index cut into sections of
    1024 entries that are allocated on demand. */
module ReorderBuffer {
  import opened ReorderModel

  const SECTION := 1024
  const PRIM_SIZE := 4096

  class Apoc {
    var docNext: nat
    var dpCnt: nat
    var dpCntMax: int
    const docs: array<int>
    const pocs: array<int>
    var refAuMax: int
    var ready: bool
    var reorderMin: nat
    var docAtPocMin: nat
    var pocOutNext: nat
    var sections: seq<array<int>>

    /** The run so far, in the terms of `ReorderModel`. */
    ghost var run: State

    /** The bytes of the map allocated so far, in entries. */
    function MapSize(): nat
      reads `sections
    {
      |sections| * SECTION
    }

    function MapAt(doc: nat): int
      requires doc < MapSize()
      requires forall i | 0 <= i < |sections| :: sections[i].Length == SECTION
      reads `sections, sections
    {
      sections[doc / SECTION][doc % SECTION]
    }

    ghost predicate Separate()
      reads `sections
    {
      && docs != pocs
      && (forall i | 0 <= i < |sections| :: sections[i] != docs && sections[i] != pocs)
      && (forall i, j | 0 <= i < j < |sections| :: sections[i] != sections[j])
    }

    /** The arrays hold exactly the buffered pictures. */
    ghost predicate BufferMatches()
      reads `dpCnt, `run, docs, pocs
    {
      BufferMatchesRun(run)
    }

    ghost predicate BufferMatchesRun(s: State)
      reads `dpCnt, docs, pocs
    {
      && docs.Length == DP_CNT_MAX && pocs.Length == DP_CNT_MAX
      && dpCnt == |s.held| <= DP_CNT_MAX
      && (forall i | 0 <= i < dpCnt :: docs[i] == s.held[i].doc && pocs[i] == s.held[i].poc)
    }

    /** The sectioned map is the flat map: the output index of every output picture, -1 elsewhere. */
    ghost predicate MapMatches()
      reads `run, `sections, sections
    {
      MapMatchesRun(run)
    }

    ghost predicate MapMatchesRun(s: State)
      reads `sections, sections
    {
      && (forall i | 0 <= i < |sections| :: sections[i].Length == SECTION)
      && (forall o | 0 <= o < |s.output| :: s.output[o].doc < MapSize())
      && (forall d | 0 <= d < MapSize() :: MapAt(d) == OutIndex(s.output, d))
    }

    /** The concrete fields represent the state s. */
    ghost predicate Matches(s: State)
      reads this, docs, pocs, sections
    {
      && Separate() && BufferMatchesRun(s) && MapMatchesRun(s)
      && docNext == |s.decoded| && dpCntMax == s.cap && reorderMin == s.reorderMin
      && pocOutNext == |s.output|
      && docAtPocMin == FirstShown(s)
      && (ready ==> |s.output| > 0)
    }

    ghost predicate Valid()
      reads this, docs, pocs, sections
    {
      Matches(run) && Inv(run)
    }

    /** The readiness check reads the map at the bound, which must not lie past the first section or what is
        allocated. */
    predicate Checkable()
      reads `ready, `refAuMax, `sections
    {
      ready || refAuMax < SECTION || refAuMax < MapSize()
    }

    /** apoc_create, apoc_init. */
    constructor ()
      ensures Valid() && run == INITIAL && refAuMax == 0 && !ready && sections == []
      ensures fresh(docs) && fresh(pocs)
    {
      docNext, dpCnt, dpCntMax := 0, 0, DP_CNT_MAX;
      docs, pocs := new int[DP_CNT_MAX], new int[DP_CNT_MAX];
      refAuMax, ready, reorderMin, docAtPocMin, pocOutNext := 0, false, 0, 0, 0;
      sections := [];
      run := INITIAL;
      new;
      assert DelayInv(run);
    }

    method SetNumReorderAu(n: int)
      requires Valid()
      modifies `dpCntMax, `run
      ensures Valid() && run == Step(old(run), SetReorder(n))
    {
      hide DelayInv, Conserving;
      dpCntMax := n + 1;
      run := Step(run, SetReorder(n));
      StepKeepsInv(old(run), SetReorder(n));
    }

    method SetMaxRefAu(n: int)
      requires Valid()
      modifies `refAuMax
      ensures Valid() && refAuMax == n && run == old(run)
    {
      refAuMax := n;
    }

    /** The loop over pocs[] that picks the first picture of least POC. */
    method FindMin() returns (idx: nat)
      requires BufferMatches() && dpCnt > 0
      ensures idx == MinIdx(run.held, dpCnt)
    {
      idx := 0;
      var i := 1;
      while i < dpCnt
        invariant 1 <= i <= dpCnt
        invariant idx == MinIdx(run.held, i)
      {
        if pocs[i] < pocs[idx] { idx := i; }
        i := i + 1;
      }
    }

    /** Closes the gap at idx by moving the later entries of both arrays one slot down. */
    method CloseGap(idx: nat, ghost next: State)
      requires docs != pocs && BufferMatches() && idx < dpCnt && next.held == Remove(run.held, idx)
      modifies `dpCnt, docs, pocs
      ensures BufferMatchesRun(next)
    {
      hide OutIndex, Remove;
      ghost var ds, ps := docs[..], pocs[..];
      dpCnt := dpCnt - 1;
      var i := idx;
      while i < dpCnt
        invariant idx <= i <= dpCnt == old(dpCnt) - 1
        invariant forall j | 0 <= j < idx :: docs[j] == ds[j] && pocs[j] == ps[j]
        invariant forall j | idx <= j < i :: docs[j] == ds[j + 1] && pocs[j] == ps[j + 1]
        invariant forall j | i <= j < DP_CNT_MAX :: docs[j] == ds[j] && pocs[j] == ps[j]
      {
        docs[i] := docs[i + 1];
        pocs[i] := pocs[i + 1];
        i := i + 1;
      }
      forall j | 0 <= j < dpCnt ensures docs[j] == next.held[j].doc && pocs[j] == next.held[j].poc {
        RemovedAt(run.held, idx, j);
      }
    }

    static lemma RemovedAt(held: seq<Pic>, idx: nat, j: nat)
      requires idx < |held| && j < |held| - 1
      ensures |Remove(held, idx)| == |held| - 1 && Remove(held, idx)[j] == held[if j < idx then j else j + 1]
    {
    }

    /** Records doc => next output index, allocating one section of -1 entries when doc lies past
        the map. */
    method Record(doc: nat)
      requires Separate() && MapMatches() && pocOutNext == |run.output|
      requires doc < MapSize() + SECTION
      modifies `sections, `pocOutNext, sections
      ensures Separate() && old(sections) <= sections && doc < MapSize()
      ensures forall i | |old(sections)| <= i < |sections| :: fresh(sections[i])
      ensures |sections| == |old(sections)| + if doc < old(MapSize()) then 0 else 1
      ensures pocOutNext == |run.output| + 1
      ensures forall i | 0 <= i < |sections| :: sections[i].Length == SECTION == 1024
      ensures forall d | 0 <= d < MapSize() :: MapAt(d) == if d == doc then |run.output| else OutIndex(run.output, d)
    {
      if doc >= MapSize() {
        var section := new int[SECTION](_ => -1);
        sections := sections + [section];
      }
      sections[doc / SECTION][doc % SECTION] := pocOutNext;
      pocOutNext := pocOutNext + 1;
    }

    /** Enters the next output picture into the map. */
    method Enter(idx: nat, ghost next: State)
      requires Separate() && BufferMatches() && MapMatches() && Conserving(run)
      requires idx < dpCnt && pocOutNext == |run.output|
      requires next.output == run.output + [run.held[idx]]
      requires docNext == |run.decoded| <= PRIM_SIZE * SECTION
      requires docAtPocMin == FirstShown(run)
      modifies `sections, `pocOutNext, `docAtPocMin, sections
      ensures Separate() && old(sections) <= sections
      ensures forall i | |old(sections)| <= i < |sections| :: fresh(sections[i])
      ensures SECTION <= MapSize() && pocOutNext == |run.output| + 1
      ensures docAtPocMin == FirstShown(next)
      ensures MapMatchesRun(next)
    {
      hide Conserving, OutIndex;
      var doc := docs[idx];
      assert doc == run.held[idx].doc;
      HeldIsNew(run, MapSize(), idx);
      assert doc >= MapSize() ==> |sections| < PRIM_SIZE;
      if pocOutNext == 0 { docAtPocMin := doc; }
      Record(doc);
      OutIndexStep(run.output, run.held[idx]);
    }

    /** Emission proper: the part of apoc_update behind its guard. */
    method Output(idx: nat, ghost next: State)
      requires Matches(run) && Conserving(run)
      requires idx < dpCnt && docNext <= PRIM_SIZE * SECTION
      requires next.output == run.output + [run.held[idx]] && next.held == Remove(run.held, idx)
      requires next.reorderMin == if run.reorderMin < idx then idx else run.reorderMin
      requires next.decoded == run.decoded && next.cap == run.cap
      modifies this, docs, pocs, sections
      ensures Matches(next) && refAuMax == old(refAuMax) && run == next
      ensures old(sections) <= sections
      ensures forall i | |old(sections)| <= i < |sections| :: fresh(sections[i])
      ensures ready == old(ready) && SECTION <= MapSize()
    {
      hide Conserving, OutIndex, Remove;
      Enter(idx, next);
      if reorderMin < idx { reorderMin := idx; }
      CloseGap(idx, next);
      run := next;
    }

    /** apoc_update. */
    method Update(flush: bool)
      requires Valid() && Checkable() && dpCnt > 0 && docNext <= PRIM_SIZE * SECTION
      modifies this, docs, pocs, sections
      ensures Valid() && Checkable() && refAuMax == old(refAuMax)
      ensures ready <==> old(ready) || (|run.output| > old(|run.output|) && AllOutput(run, refAuMax))
      ensures run == if flush then Emit(old(run)) else ReorderModel.Update(old(run))
      ensures old(sections) <= sections
      ensures forall i | |old(sections)| <= i < |sections| :: fresh(sections[i])
    {
      hide DelayInv, MinIdx;
      if !flush && dpCnt < dpCntMax { return; }
      var idx := FindMin();
      ghost var next := Emit(run);
      EmitKeepsInv(run);
      Output(idx, next);
      if !ready { CheckReady(); }
    }

    /** apoc_flush. */
    method Flush()
      requires Valid() && Checkable() && docNext <= PRIM_SIZE * SECTION
      modifies this, docs, pocs, sections
      ensures Valid() && Checkable() && refAuMax == old(refAuMax) && run == Step(old(run), ReorderModel.Flush)
      ensures dpCnt == 0 && docNext == old(docNext)
      ensures old(ready) ==> ready
      ensures old(sections) <= sections
      ensures forall i | |old(sections)| <= i < |sections| :: fresh(sections[i])
    {
      hide Conserving, DelayInv;
      ghost var s0 := run;
      while dpCnt > 0
        invariant Valid() && Checkable() && refAuMax == old(refAuMax) && docNext == old(docNext)
        invariant Drain(run) == Drain(s0)
        invariant old(ready) ==> ready
        invariant old(sections) <= sections
        invariant forall i | |old(sections)| <= i < |sections| :: fresh(sections[i])
        decreases dpCnt
      {
        Update(true);
      }
      OpenPeriod();
    }

    /** The label of the next period; no concrete field changes. */
    ghost method OpenPeriod()
      requires Valid()
      modifies `run
      ensures Valid() && run == old(run).(period := old(run).period + 1)
    {
      assert DelayInv(run);
      run := run.(period := run.period + 1);
      assert DelayInv(run);
    }

    /** Stores one picture in the first free slot. */
    method Store(poc: int)
      requires Valid() && dpCnt < DP_CNT_MAX
      modifies `docNext, `dpCnt, `run, docs, pocs
      ensures Valid() && run == Push(old(run), poc) && refAuMax == old(refAuMax) && ready == old(ready)
      ensures dpCnt == old(dpCnt) + 1 && docNext == old(docNext) + 1 && sections == old(sections)
    {
      hide DelayInv, Conserving, OutIndex;
      docs[dpCnt] := docNext;
      pocs[dpCnt] := poc;
      docNext := docNext + 1;
      dpCnt := dpCnt + 1;
      PushKeepsInv(run, poc);
      run := Push(run, poc);
    }

    /** The non-IDR part of apoc_add. */
    method AddToPeriod(poc: int)
      requires Valid() && Checkable() && dpCnt < DP_CNT_MAX && docNext < PRIM_SIZE * SECTION
      modifies this, docs, pocs, sections
      ensures Valid() && Checkable() && refAuMax == old(refAuMax) && run == ReorderModel.Update(Push(old(run), poc))
      ensures old(ready) ==> ready
      ensures old(sections) <= sections
      ensures forall i | |old(sections)| <= i < |sections| :: fresh(sections[i])
    {
      hide DelayInv, Conserving;
      Store(poc);
      Update(false);
    }

    /** apoc_add. */
    method Add(poc: int, isIdr: bool)
      requires Valid() && Checkable() && dpCnt < DP_CNT_MAX && docNext < PRIM_SIZE * SECTION
      modifies this, docs, pocs, sections
      ensures Valid() && Checkable() && refAuMax == old(refAuMax) && run == Step(old(run), ReorderModel.Add(poc, isIdr))
      ensures old(ready) ==> ready
      ensures old(sections) <= sections
      ensures forall i | |old(sections)| <= i < |sections| :: fresh(sections[i])
    {
      hide DelayInv, Conserving;
      if isIdr { Flush(); }
      AddToPeriod(poc);
    }

    /** apoc_reorder_num: -1 for a picture not output yet, otherwise its composition offset, which
        is never negative. */
    method ReorderNum(doc: nat) returns (r: int)
      requires Valid()
      ensures r >= 0 <==> ready && doc < |run.output| && OutIndex(run.output, doc) >= 0
      ensures r >= 0 ==> r == run.reorderMin + OutIndex(run.output, doc) - doc
      ensures r < 0 ==> r == -1
    {
      if doc >= pocOutNext || !ready { return -1; }
      OutputBound(run, MapSize());
      var pocOut := MapAt(doc);
      if pocOut < 0 { return -1; }
      return reorderMin + pocOut - doc;
    }

    /** apoc_min_cts: the delay itself, unless the first output picture cannot be looked up yet;
        then its decode index, which is no larger. */
    method MinCts() returns (r: int)
      requires Valid()
      ensures r == if ready && FirstShown(run) < |run.output| then run.reorderMin else FirstShown(run)
      ensures r <= run.reorderMin
    {
      var rnum := ReorderNum(docAtPocMin);
      PlacesAreUnique(run);
      if rnum < 0 { rnum := 0; }
      return rnum + docAtPocMin;
    }

    /** apoc_need_adj_cts. */
    method NeedAdjCts() returns (b: bool)
      requires Valid()
      ensures b <==> exists o | 0 <= o < |run.output| :: run.output[o].doc > o
    {
      b := reorderMin > 0;
      if b {
        ghost var o :| 0 <= o < |run.output| && run.output[o].doc - o == run.reorderMin;
      }
    }

    /** "The first refAuMax + 1 pictures in decoding order resolve the delay." */
    method CheckReady()
      requires MapMatches() && |run.output| > 0 && refAuMax < MapSize()
      modifies `ready
      ensures ready <==> AllOutput(run, refAuMax)
    {
      var r := refAuMax;
      while r >= 0 && MapAt(r) >= 0
        invariant -1 <= r <= refAuMax || r == refAuMax < -1
        invariant forall d | r < d <= refAuMax && 0 <= d :: WasOutput(run, d)
        decreases r
      {
        assert run.output[MapAt(r)].doc == r;
        r := r - 1;
      }
      ready := r < 0;
      assert r >= 0 ==> !WasOutput(run, r);
    }
  }

  /** Decode index of the picture shown first; 0 before there is one. */
  ghost function FirstShown(s: State): nat {
    if |s.output| == 0 then 0 else s.output[0].doc
  }

  ghost predicate WasOutput(s: State, d: int) {
    exists o | 0 <= o < |s.output| :: s.output[o].doc == d
  }

  ghost predicate AllOutput(s: State, top: int) {
    forall d | 0 <= d <= top :: WasOutput(s, d)
  }
}
