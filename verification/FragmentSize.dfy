/** The media size of a fragment: the run-length walk of prepare_traf in src/mp4_muxer.c. */
module FragmentSize {
  import opened RunLength
  import opened FragmentSplit

  lemma SumBetween(s: seq<nat>, a: nat, b: nat)
    requires a <= b <= |s|
    ensures Sum(s[..b]) == Sum(s[..a]) + Sum(s[a..b])
  {
    assert s[..b] == s[..a] + s[a..b];
    SumConcat(s[..a], s[a..b]);
  }

  /** The sum of the first n sizes, n inside or at the end of run e. */
  lemma SumInsideRun(rs: seq<Run>, e: nat, n: nat)
    requires e < |rs| && Total(rs[..e]) <= n <= Total(rs[..e + 1])
    ensures n <= |Expand(rs)| && Sum(Expand(rs)[..n]) == Weight(rs[..e + 1]) - (Total(rs[..e + 1]) - n) * rs[e].value
  {
    hide Expand, Sum, Weight, Total;
    PrefixStep(rs, e);
    var k := n - Total(rs[..e]);
    RunItem(rs, e, k);
    MulSplit(k, rs[e].count, rs[e].value);
  }

  lemma MulSplit(k: nat, c: nat, v: nat)
    requires k <= c
    ensures c * v == k * v + (c - k) * v
  {
  }

  /** Adds up whole runs and corrects the first and the last one, which the fragment may only
      partly cover. */
  method FragmentBytes(sizeLst: seq<Run>, start: nat, stop: nat) returns (size: int)
    requires start < stop <= Total(sizeLst)
    ensures stop <= |Expand(sizeLst)| && size == Sum(Expand(sizeLst)[start..stop])
  {
    hide Expand, Sum, Weight, Total;
    EmptyPrefix(sizeLst);
    assert sizeLst[..|sizeLst|] == sizeLst;
    ExpandLength(sizeLst);
    PrefixStep(sizeLst, 0);
    size := 0;
    var it := 0;
    var pos := sizeLst[0].count;
    while pos < start
      invariant it < |sizeLst| && pos == Total(sizeLst[..it + 1]) && Total(sizeLst[..it]) <= start
      decreases |sizeLst| - it
    {
      it := it + 1;
      PrefixStep(sizeLst, it);
      pos := pos + sizeLst[it].count;
    }
    size := size + (pos - start) * sizeLst[it].value;
    SumInsideRun(sizeLst, it, start);
    ghost var before := Sum(Expand(sizeLst)[..start]);
    assert Total(sizeLst[..it]) <= stop;
    while pos < stop
      invariant it < |sizeLst| && pos == Total(sizeLst[..it + 1]) && Total(sizeLst[..it]) <= stop
      invariant size == Weight(sizeLst[..it + 1]) - before
      decreases |sizeLst| - it
    {
      it := it + 1;
      PrefixStep(sizeLst, it);
      size := size + sizeLst[it].count * sizeLst[it].value;
      pos := pos + sizeLst[it].count;
    }
    size := size - (pos - stop) * sizeLst[it].value;
    SumInsideRun(sizeLst, it, stop);
    SumBetween(Expand(sizeLst), start, stop);
  }

  lemma EmptyPrefix(rs: seq<Run>)
    ensures Total(rs[..0]) == 0 && Weight(rs[..0]) == 0
    ensures Total(rs) > 0 ==> rs != []
  {
    assert rs[..0] == [];
  }

  /** The bytes of all fragments together. */
  function FragBytes(sizes: seq<nat>, frags: seq<Frag>): nat {
    if frags == [] then 0
    else
      var f := frags[|frags| - 1];
      FragBytes(sizes, frags[..|frags| - 1]) + if f.start <= f.stop <= |sizes| then Sum(sizes[f.start..f.stop]) else 0
  }

  /** Over a partition the fragment sizes add up to the size of the whole. */
  lemma {:induction false} FragmentsAddUp(sizes: seq<nat>, frags: seq<Frag>, n: nat)
    requires Partition(frags, n) && n <= |sizes|
    ensures FragBytes(sizes, frags) == Sum(sizes[..n])
    decreases |frags|
  {
    if frags == [] {
      assert sizes[..0] == [];
    } else {
      var rest, f := frags[..|frags| - 1], frags[|frags| - 1];
      assert Partition(rest, f.start);
      FragmentsAddUp(sizes, rest, f.start);
      SumBetween(sizes, f.start, f.stop);
    }
  }
}
