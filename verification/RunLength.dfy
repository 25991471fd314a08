/** Run-length lists: the count/value lists of src/util/list_itr.c and the tables built from them. */
module RunLength {

  /** `count` consecutive items of value `value`. */
  datatype Run = Run(count: nat, value: nat)

  function Repeat(v: nat, n: nat): (s: seq<nat>)
    ensures |s| == n && forall i | 0 <= i < n :: s[i] == v
  {
    seq(n, _ => v)
  }

  /** The items a list of runs stands for. */
  function Expand(rs: seq<Run>): seq<nat> {
    if rs == [] then [] else Expand(rs[..|rs| - 1]) + Repeat(rs[|rs| - 1].value, rs[|rs| - 1].count)
  }

  /** Number of items. */
  function Total(rs: seq<Run>): nat {
    if rs == [] then 0 else Total(rs[..|rs| - 1]) + rs[|rs| - 1].count
  }

  /** Sum of the items, computed run by run. */
  function Weight(rs: seq<Run>): nat {
    if rs == [] then 0 else Weight(rs[..|rs| - 1]) + rs[|rs| - 1].count * rs[|rs| - 1].value
  }

  function Sum(s: seq<nat>): nat {
    if s == [] then 0 else Sum(s[..|s| - 1]) + s[|s| - 1]
  }

  // ---------------------------------------------------------------- sums

  lemma {:induction false} SumConcat(a: seq<nat>, b: seq<nat>)
    ensures Sum(a + b) == Sum(a) + Sum(b)
    decreases |b|
  {
    if b == [] {
      assert a + b == a;
    } else {
      assert (a + b)[..|a + b| - 1] == a + b[..|b| - 1];
      SumConcat(a, b[..|b| - 1]);
    }
  }

  lemma {:induction false} SumRepeat(v: nat, n: nat)
    ensures Sum(Repeat(v, n)) == n * v
  {
    if n > 0 {
      assert Repeat(v, n)[..n - 1] == Repeat(v, n - 1);
      SumRepeat(v, n - 1);
    }
  }

  lemma SumTakeNext(s: seq<nat>, i: nat)
    requires i < |s|
    ensures Sum(s[..i + 1]) == Sum(s[..i]) + s[i]
  {
    assert s[..i + 1][..i] == s[..i];
  }

  lemma {:induction false} SumMonotone(s: seq<nat>, i: nat, j: nat)
    requires i <= j <= |s|
    ensures Sum(s[..i]) <= Sum(s[..j])
    decreases j
  {
    if i < j {
      SumTakeNext(s, j - 1);
      SumMonotone(s, i, j - 1);
    }
  }

  /** Position t lies in exactly one of the intervals the items of s cut the line into. */
  lemma IntervalIsUnique(s: seq<nat>, t: nat, c: nat, d: nat)
    requires c < |s| && d < |s|
    requires Sum(s[..c]) <= t < Sum(s[..c + 1]) && Sum(s[..d]) <= t < Sum(s[..d + 1])
    ensures c == d
  {
    if c < d { SumMonotone(s, c + 1, d); }
    if d < c { SumMonotone(s, d + 1, c); }
  }

  lemma {:induction false} SumUpdate(s: seq<nat>, i: nat, v: nat)
    requires i < |s|
    ensures Sum(s[i := v]) == Sum(s) - s[i] + v
  {
    var n := |s| - 1;
    if i < n {
      assert s[i := v][..n] == s[..n][i := v];
      SumUpdate(s[..n], i, v);
    } else {
      assert s[i := v][..n] == s[..n];
    }
  }

  /** The item whose interval contains t. */
  function Locate(s: seq<nat>, t: nat): (c: nat)
    requires t < Sum(s)
    ensures c < |s| && Sum(s[..c]) <= t < Sum(s[..c + 1])
  {
    var n := |s| - 1;
    assert s[..n + 1] == s;
    if Sum(s[..n]) <= t then n
    else
      var c := Locate(s[..n], t);
      assert s[..n][..c] == s[..c] && s[..n][..c + 1] == s[..c + 1];
      c
  }

  lemma LocateIs(s: seq<nat>, t: nat, c: nat)
    requires c < |s| && Sum(s[..c]) <= t < Sum(s[..c + 1])
    ensures t < Sum(s) && Locate(s, t) == c
  {
    assert s[..|s|] == s;
    SumMonotone(s, c + 1, |s|);
    IntervalIsUnique(s, t, c, Locate(s, t));
  }

  // ---------------------------------------------------------------- runs against items

  lemma {:induction false} ExpandLength(rs: seq<Run>)
    ensures |Expand(rs)| == Total(rs)
  {
    if rs != [] { ExpandLength(rs[..|rs| - 1]); }
  }

  lemma {:induction false} ExpandSum(rs: seq<Run>)
    ensures Sum(Expand(rs)) == Weight(rs)
  {
    if rs != [] {
      var r := rs[|rs| - 1];
      ExpandSum(rs[..|rs| - 1]);
      SumRepeat(r.value, r.count);
      SumConcat(Expand(rs[..|rs| - 1]), Repeat(r.value, r.count));
    }
  }

  lemma {:induction false} ExpandConcat(a: seq<Run>, b: seq<Run>)
    ensures Expand(a + b) == Expand(a) + Expand(b)
    ensures Total(a + b) == Total(a) + Total(b) && Weight(a + b) == Weight(a) + Weight(b)
    decreases |b|
  {
    if b == [] {
      assert a + b == a;
    } else {
      assert (a + b)[..|a + b| - 1] == a + b[..|b| - 1];
      ExpandConcat(a, b[..|b| - 1]);
    }
  }

  lemma PrefixStep(rs: seq<Run>, e: nat)
    requires e < |rs|
    ensures Total(rs[..e + 1]) == Total(rs[..e]) + rs[e].count
    ensures Weight(rs[..e + 1]) == Weight(rs[..e]) + rs[e].count * rs[e].value
    ensures Expand(rs[..e + 1]) == Expand(rs[..e]) + Repeat(rs[e].value, rs[e].count)
  {
    assert rs[..e + 1][..e] == rs[..e];
  }

  lemma PrefixSplit(rs: seq<Run>, e: nat)
    requires e <= |rs|
    ensures Expand(rs) == Expand(rs[..e]) + Expand(rs[e..])
    ensures Total(rs) == Total(rs[..e]) + Total(rs[e..])
    ensures Weight(rs) == Weight(rs[..e]) + Weight(rs[e..])
  {
    assert rs == rs[..e] + rs[e..];
    ExpandConcat(rs[..e], rs[e..]);
  }

  /** The k-th item of run e: where it is, what it is, and the sum of all items before it. */
  lemma RunItem(rs: seq<Run>, e: nat, k: nat)
    requires e < |rs| && k <= rs[e].count
    ensures Total(rs[..e]) + k <= |Expand(rs)|
    ensures Sum(Expand(rs)[..Total(rs[..e]) + k]) == Weight(rs[..e]) + k * rs[e].value
    ensures k < rs[e].count ==>
      Total(rs[..e]) + k < |Expand(rs)| && Expand(rs)[Total(rs[..e]) + k] == rs[e].value
  {
    PrefixStep(rs, e);
    PrefixSplit(rs, e + 1);
    ExpandLength(rs[..e]);
    var head, mid, tail := Expand(rs[..e]), Repeat(rs[e].value, rs[e].count), Expand(rs[e + 1..]);
    assert Expand(rs) == head + mid + tail;
    assert Expand(rs)[..|head| + k] == head + mid[..k];
    assert mid[..k] == Repeat(rs[e].value, k);
    SumConcat(head, mid[..k]);
    SumRepeat(rs[e].value, k);
    ExpandSum(rs[..e]);
  }

  // ---------------------------------------------------------------- building a list of runs

  /** No two neighbouring runs could be merged, and none is empty. */
  ghost predicate Canonical(rs: seq<Run>) {
    && (forall i | 0 <= i < |rs| :: rs[i].count > 0)
    && (forall i, j | 0 <= i && j == i + 1 && j < |rs| :: rs[i].value != rs[j].value)
  }

  /** Appends one item: extends the last run when its value matches. */
  function AppendItem(rs: seq<Run>, v: nat): seq<Run> {
    if rs != [] && rs[|rs| - 1].value == v
    then rs[..|rs| - 1] + [Run(rs[|rs| - 1].count + 1, v)]
    else rs + [Run(1, v)]
  }

  lemma AppendItemExpands(rs: seq<Run>, v: nat)
    ensures Expand(AppendItem(rs, v)) == Expand(rs) + [v]
    ensures Total(AppendItem(rs, v)) == Total(rs) + 1
    ensures Canonical(rs) ==> Canonical(AppendItem(rs, v))
  {
    var rs' := AppendItem(rs, v);
    if rs != [] && rs[|rs| - 1].value == v {
      assert rs'[..|rs| - 1] == rs[..|rs| - 1];
      assert Repeat(v, rs[|rs| - 1].count + 1) == Repeat(v, rs[|rs| - 1].count) + [v];
    } else {
      assert rs'[..|rs|] == rs;
      assert Repeat(v, 1) == [v];
    }
  }

  lemma CanonicalEmpty(rs: seq<Run>)
    requires Canonical(rs)
    ensures rs == [] <==> Expand(rs) == []
  {
    if rs != [] { assert |Repeat(rs[|rs| - 1].value, rs[|rs| - 1].count)| > 0; }
  }

  /** A canonical list is determined by its items: the encoding is the shortest one. */
  lemma {:induction false} CanonicalIsUnique(a: seq<Run>, b: seq<Run>)
    requires Canonical(a) && Canonical(b) && Expand(a) == Expand(b)
    ensures a == b
    decreases |a|
  {
    ExpandLength(a);
    ExpandLength(b);
    if a != [] && b != [] {
      LastRun(a);
      LastRun(b);
      var m, n := a[|a| - 1].count, b[|b| - 1].count;
      assert Expand(a)[Total(a) - 1] == Expand(b)[Total(b) - 1];
      assert m == n;
      assert Expand(a[..|a| - 1]) == Expand(a)[..Total(a) - m] == Expand(b[..|b| - 1]);
      CanonicalIsUnique(a[..|a| - 1], b[..|b| - 1]);
    }
  }

  /** The last run is a maximal block of equal items. */
  lemma LastRun(a: seq<Run>)
    requires Canonical(a) && a != []
    ensures |Expand(a)| == Total(a) && a[|a| - 1].count <= Total(a)
    ensures Expand(a)[..Total(a) - a[|a| - 1].count] == Expand(a[..|a| - 1])
    ensures forall i | Total(a) - a[|a| - 1].count <= i < Total(a) :: Expand(a)[i] == a[|a| - 1].value
    ensures |a| > 1 ==>
      0 < Total(a) - a[|a| - 1].count
      && Expand(a)[Total(a) - a[|a| - 1].count - 1] != a[|a| - 1].value
    ensures |a| == 1 ==> a[0].count == Total(a)
  {
    ExpandLength(a);
    ExpandLength(a[..|a| - 1]);
    if |a| > 1 {
      var a' := a[..|a| - 1];
      assert Expand(a') == Expand(a'[..|a'| - 1]) + Repeat(a'[|a'| - 1].value, a'[|a'| - 1].count);
    }
  }

  /** Locating t run by run: the run by its weight, the item inside it by division. */
  lemma LocateInRun(rs: seq<Run>, e: nat, t: nat)
    requires e < |rs| && Weight(rs[..e]) <= t < Weight(rs[..e]) + rs[e].count * rs[e].value
    ensures rs[e].value > 0
    ensures t < Sum(Expand(rs)) && Locate(Expand(rs), t) == Total(rs[..e]) + (t - Weight(rs[..e])) / rs[e].value
    ensures Sum(Expand(rs)[..Locate(Expand(rs), t)]) == t - (t - Weight(rs[..e])) % rs[e].value
  {
    var d, v := t - Weight(rs[..e]), rs[e].value;
    DivideInside(d, v, rs[e].count);
    var k := d / v;
    RunItem(rs, e, k);
    RunItem(rs, e, k + 1);
    LocateIs(Expand(rs), t, Total(rs[..e]) + k);
  }

  lemma DivideInside(d: nat, v: nat, n: nat)
    requires d < n * v
    ensures v > 0 && d / v < n && d == d / v * v + d % v
    ensures (d / v + 1) * v == d / v * v + v
  {
    if d / v >= n { MulMonotone(n, d / v, v); }
  }

  lemma DivMod(d: nat, v: nat)
    requires v > 0
    ensures d / v >= 0 && d - d / v * v == d % v <= d
  {
    assert d == d / v * v + d % v;
    MulMonotone(0, d / v, v);
  }

  lemma MulMonotone(a: nat, b: nat, v: nat)
    requires a <= b
    ensures a * v <= b * v
  {
  }

  /** Prefixes only grow. */
  lemma PrefixMonotone(rs: seq<Run>, e: nat)
    requires e <= |rs|
    ensures Total(rs[..e]) <= Total(rs) && Weight(rs[..e]) <= Weight(rs)
  {
    PrefixSplit(rs, e);
  }
}
