/** Which chunks chunk_update of src/mp4_muxer.c forms: a new one exactly on a new sample description, at the
    window top, or at the size limit.  The rule determines the chunks of a sample list. */
module ChunkRule {
  import opened RunLength
  import opened Samples
  import opened TimeScale

  /** The decode times of the first samples of the chunks. */
  function Firsts(ss: seq<Sample>, cs: seq<Chunk>): (r: seq<nat>)
    requires InBounds(ss, cs)
    ensures |r| == |cs| && forall c | 0 <= c < |cs| :: r[c] == ss[First(cs[c])].dts
  {
    seq(|cs|, c requires 0 <= c < |cs| => ss[First(cs[c])].dts)
  }

  /** The span-aligned window of a decode time. */
  function WindowBegin(dts: nat, span: nat): nat
    requires span > 0
  {
    dts / span * span
  }

  function WindowEnd(dts: nat, span: nat): nat
    requires span > 0
  {
    (dts / span + 1) * span
  }

  lemma WindowHolds(dts: nat, span: nat)
    requires span > 0
    ensures Aligned(WindowBegin(dts, span), span)
    ensures WindowBegin(dts, span) <= dts < WindowEnd(dts, span) == WindowBegin(dts, span) + span
    ensures WindowEnd(dts, span) == (dts / span + 1) * span
  {
    AlignedFloor(dts, span);
  }

  /** The window top after chunks that start at these decode times: it ends the span of the first one, and
      later moves by a single span.  Without a span it keeps the value it was set up with. */
  function Top(span: nat, setUp: nat, firsts: seq<nat>): nat {
    if span == 0 || firsts == [] then setUp
    else if |firsts| == 1 then WindowEnd(firsts[0], span)
    else
      var t := Top(span, setUp, firsts[..|firsts| - 1]);
      if firsts[|firsts| - 1] >= t then t + span else t
  }

  /** The first chunk sets the top to the end of its span; a later one raises it by one span when it starts at or
      after it, however far. */
  lemma TopNext(span: nat, setUp: nat, firsts: seq<nat>, dts: nat)
    ensures Top(span, setUp, firsts + [dts]) ==
      if span == 0 then setUp
      else if firsts == [] then (dts / span + 1) * span
      else if dts >= Top(span, setUp, firsts) then Top(span, setUp, firsts) + span else Top(span, setUp, firsts)
    ensures span == 0 ==> Top(span, setUp, firsts) == setUp
  {
    assert (firsts + [dts])[..|firsts|] == firsts;
  }

  /** Sample s does not join a chunk of this size under this top. */
  predicate Opens(maxSize: nat, top: nat, size: nat, s: Sample) {
    s.newDesc || s.dts >= top || size + s.Size() > maxSize
  }

  /** Every chunk but the first was opened for a reason, and every other sample of a chunk was below the
      window top. */
  ghost predicate ByRule(g: Grouping, setUp: nat, ss: seq<Sample>, cs: seq<Chunk>) {
    && InBounds(ss, cs)
    && (forall b, c | 0 <= b && c == b + 1 && c < |cs| :: OpensAt(g, setUp, ss, cs, b, c))
    && forall c | 0 <= c < |cs| :: BelowTop(g, setUp, ss, cs, c)
  }

  ghost predicate OpensAt(g: Grouping, setUp: nat, ss: seq<Sample>, cs: seq<Chunk>, b: nat, c: nat)
    requires InBounds(ss, cs) && b < c < |cs|
  {
    Opens(g.maxSize, Top(g.span, setUp, Firsts(ss, cs)[..c]), cs[b].size, ss[First(cs[c])])
  }

  ghost predicate BelowTop(g: Grouping, setUp: nat, ss: seq<Sample>, cs: seq<Chunk>, c: nat)
    requires InBounds(ss, cs) && c < |cs|
  {
    forall j | First(cs[c]) < j < End(cs[c]) :: ss[j].dts < Top(g.span, setUp, Firsts(ss, cs)[..c + 1])
  }

  lemma RuleJoin(g: Grouping, setUp: nat, ss: seq<Sample>, cs: seq<Chunk>, s: Sample)
    requires AreChunks(g.maxSize, ss, cs) && ByRule(g, setUp, ss, cs) && cs != []
    requires s.dts < Top(g.span, setUp, Firsts(ss, cs))
    ensures ByRule(g, setUp, ss + [s], Joined(cs, s)) && Firsts(ss + [s], Joined(cs, s)) == Firsts(ss, cs)
  {
    hide IsChunk, Top;
    var n := |cs| - 1;
    var ss', cs' := ss + [s], Joined(cs, s);
    assert Firsts(ss', cs') == Firsts(ss, cs);
    assert Firsts(ss, cs)[..n + 1] == Firsts(ss, cs);
    forall b, c | 0 <= b && c == b + 1 && c < |cs'| ensures OpensAt(g, setUp, ss', cs', b, c) {
      assert OpensAt(g, setUp, ss, cs, b, c);
    }
    forall c | 0 <= c < |cs'| ensures BelowTop(g, setUp, ss', cs', c) {
      assert BelowTop(g, setUp, ss, cs, c);
    }
  }

  lemma RuleOpen(g: Grouping, setUp: nat, ss: seq<Sample>, cs: seq<Chunk>, s: Sample, ch: Chunk)
    requires AreChunks(g.maxSize, ss, cs) && ByRule(g, setUp, ss, cs) && ch.idx == |ss| + 1 && ch.sampleNum == 1
    requires cs != [] ==> Opens(g.maxSize, Top(g.span, setUp, Firsts(ss, cs)), cs[|cs| - 1].size, s)
    ensures ByRule(g, setUp, ss + [s], cs + [ch]) && Firsts(ss + [s], cs + [ch]) == Firsts(ss, cs) + [s.dts]
  {
    hide IsChunk, Top;
    var n := |cs|;
    var ss', cs' := ss + [s], cs + [ch];
    assert Firsts(ss', cs') == Firsts(ss, cs) + [s.dts];
    assert forall c | 0 <= c <= n :: Firsts(ss', cs')[..c] == Firsts(ss, cs)[..c];
    assert Firsts(ss, cs)[..n] == Firsts(ss, cs);
    forall b, c | 0 <= b && c == b + 1 && c < |cs'| ensures OpensAt(g, setUp, ss', cs', b, c) {
      if c < n { assert OpensAt(g, setUp, ss, cs, b, c); }
    }
    forall c | 0 <= c < |cs'| ensures BelowTop(g, setUp, ss', cs', c) {
      if c < n {
        assert BelowTop(g, setUp, ss, cs, c);
        assert Firsts(ss', cs')[..c + 1] == Firsts(ss, cs)[..c + 1];
      }
    }
  }

  /** Everything that holds once a chunk for sample s alone is opened; w is where its window starts. */
  lemma Opened(g: Grouping, setUp: nat, ss: seq<Sample>, cs: seq<Chunk>, s: Sample, ch: Chunk, w: nat)
    requires GoodChunks(g, ss, cs) && ByRule(g, setUp, ss, cs)
    requires cs != [] ==> Opens(g.maxSize, Top(g.span, setUp, Firsts(ss, cs)), cs[|cs| - 1].size, s)
    requires ch == Chunk(|ss| + 1, Rescale(s.dts, g.movieScale, g.mediaScale), 0, 1, s.Size(), NewDescs(ss + [s]))
    requires g.span > 0 ==> Aligned(w, g.span) && (NonDecreasing(ss + [s]) ==> w <= s.dts)
    ensures GoodChunks(g, ss + [s], cs + [ch]) && ByRule(g, setUp, ss + [s], cs + [ch])
    ensures Firsts(ss + [s], cs + [ch]) == Firsts(ss, cs) + [s.dts]
    ensures g.span > 0 ==> OpenWindow(g.span, ss + [s], cs + [ch], w)
  {
    hide Rescale, NewDescs, Aligned, Top, IsChunk, NonDecreasing;
    GoodOpen(g, ss, cs, s, ch, w);
    RuleOpen(g, setUp, ss, cs, s, ch);
  }

  /** Everything that holds once sample s joins the last chunk. */
  lemma JoinedRight(g: Grouping, setUp: nat, ss: seq<Sample>, cs: seq<Chunk>, s: Sample, w: nat)
    requires GoodChunks(g, ss, cs) && ByRule(g, setUp, ss, cs) && cs != []
    requires !Opens(g.maxSize, Top(g.span, setUp, Firsts(ss, cs)), cs[|cs| - 1].size, s)
    requires g.span > 0 ==> OpenWindow(g.span, ss, cs, w) && Top(g.span, setUp, Firsts(ss, cs)) == w + g.span
    ensures GoodChunks(g, ss + [s], Joined(cs, s)) && ByRule(g, setUp, ss + [s], Joined(cs, s))
    ensures Firsts(ss + [s], Joined(cs, s)) == Firsts(ss, cs)
    ensures g.span > 0 ==> OpenWindow(g.span, ss + [s], Joined(cs, s), w)
  {
    hide Rescale, Top, IsChunk, NonDecreasing, Aligned;
    GoodJoin(g, ss, cs, s, w);
    RuleJoin(g, setUp, ss, cs, s);
  }

  // -------------------------------------------------------------- steady tracks

  /** No decode time is further than one span from the one before. */
  ghost predicate Steady(ss: seq<Sample>, span: nat) {
    NonDecreasing(ss) && forall i, j | 0 <= i && j == i + 1 && j < |ss| :: ss[j].dts <= ss[i].dts + span
  }

  lemma QuotientIs(x: nat, k: nat, span: nat)
    requires span > 0 && k * span <= x < k * span + span
    ensures x / span == k
  {
    assert x == x / span * span + x % span;
    AtLeastOneMore(x / span, k, span);
    AtLeastOneMore(k, x / span, span);
  }

  /** In a steady track the top is always the end of the span in which the last chunk starts. */
  lemma {:induction false} SteadyTop(g: Grouping, setUp: nat, ss: seq<Sample>, cs: seq<Chunk>, c: nat)
    requires AreChunks(g.maxSize, ss, cs) && ByRule(g, setUp, ss, cs) && g.span > 0 && Steady(ss, g.span) && c < |cs|
    ensures Top(g.span, setUp, Firsts(ss, cs)[..c + 1]) == WindowBegin(ss[First(cs[c])].dts, g.span) + g.span
    decreases c
  {
    hide Top, IsChunk, AreChunks, ByRule, Steady, WindowBegin;
    ChunksInBounds(g.maxSize, ss, cs);
    var firsts, span := Firsts(ss, cs), g.span;
    assert firsts[..c + 1] == firsts[..c] + [firsts[c]];
    TopNext(span, setUp, firsts[..c], firsts[c]);
    if c == 0 {
      BeginAndEnd(firsts[0], span);
    } else {
      SteadyTop(g, setUp, ss, cs, c - 1);
      NextFirst(g, setUp, ss, cs, c);
      SpanMoves(firsts[c - 1], firsts[c], span);
    }
  }

  lemma BeginAndEnd(x: nat, span: nat)
    requires span > 0
    ensures (x / span + 1) * span == WindowBegin(x, span) + span
      && WindowBegin(x, span) <= x < WindowBegin(x, span) + span
  {
    assert x == x / span * span + x % span;
  }

  /** The next chunk of a steady track starts in the same span or in the one after it. */
  lemma NextFirst(g: Grouping, setUp: nat, ss: seq<Sample>, cs: seq<Chunk>, c: nat)
    requires AreChunks(g.maxSize, ss, cs) && ByRule(g, setUp, ss, cs) && g.span > 0 && Steady(ss, g.span)
      && 0 < c < |cs|
    requires Top(g.span, setUp, Firsts(ss, cs)[..c]) == WindowBegin(ss[First(cs[c - 1])].dts, g.span) + g.span
    ensures var a, b := ss[First(cs[c - 1])].dts, ss[First(cs[c])].dts;
      a <= b < WindowBegin(a, g.span) + g.span + g.span
  {
    hide Top, IsChunk, OpensAt, WindowBegin;
    var first, j := First(cs[c - 1]), First(cs[c]) - 1;
    assert First(cs[c]) == End(cs[c - 1]) && first <= j;
    assert BelowTop(g, setUp, ss, cs, c - 1);
    BeginAndEnd(ss[first].dts, g.span);
    assert ss[j + 1].dts <= ss[j].dts + g.span;
  }

  lemma SpanMoves(a: nat, b: nat, span: nat)
    requires span > 0 && a <= b < WindowBegin(a, span) + span + span
    ensures WindowBegin(b, span)
      == WindowBegin(a, span) + if b >= WindowBegin(a, span) + span then span else 0
  {
    BeginAndEnd(a, span);
    if b >= WindowBegin(a, span) + span {
      QuotientIs(b, a / span + 1, span);
    } else {
      QuotientIs(b, a / span, span);
    }
  }

  lemma SameWindow(x: nat, y: nat, span: nat)
    requires span > 0
    ensures WindowBegin(x, span) <= y < WindowBegin(x, span) + span <==> x / span == y / span
  {
    if WindowBegin(x, span) <= y < WindowBegin(x, span) + span { QuotientIs(y, x / span, span); }
    BeginAndEnd(y, span);
  }

  /** Main result for steady tracks: a new chunk starts exactly at a new sample description, in another
      span-aligned window than the chunk before, or when the sample would take that chunk over the size limit. */
  lemma SteadyChunks(g: Grouping, setUp: nat, ss: seq<Sample>, cs: seq<Chunk>, c: nat)
    requires AreChunks(g.maxSize, ss, cs) && ByRule(g, setUp, ss, cs) && g.span > 0 && Steady(ss, g.span) && c < |cs|
    ensures c + 1 < |cs| ==> OpensInTime(g, ss, cs[c])
    ensures StaysInTime(g, ss, cs[c])
  {
    hide Top, Sum, AreChunks, WindowBegin, Steady;
    SteadyTop(g, setUp, ss, cs, c);
    ChunkParts(g.maxSize, ss, cs, c);
    var first := First(cs[c]);
    BeginAndEnd(ss[first].dts, g.span);
    assert BelowTop(g, setUp, ss, cs, c);
    forall j | first < j < End(cs[c]) ensures ss[j].dts / g.span == ss[first].dts / g.span {
      InOrder(ss, g.span, first, j);
      SameWindow(ss[first].dts, ss[j].dts, g.span);
    }
    if c + 1 < |cs| {
      assert OpensAt(g, setUp, ss, cs, c, c + 1);
      InOrder(ss, g.span, first, End(cs[c]));
      SameWindow(ss[first].dts, ss[End(cs[c])].dts, g.span);
    }
  }

  lemma InOrder(ss: seq<Sample>, span: nat, i: nat, j: nat)
    requires Steady(ss, span) && i <= j < |ss|
    ensures ss[i].dts <= ss[j].dts
  {
  }

  lemma ChunkParts(maxSize: nat, ss: seq<Sample>, cs: seq<Chunk>, c: nat)
    requires AreChunks(maxSize, ss, cs) && c < |cs|
    ensures IsChunk(maxSize, ss, cs[c])
    ensures c + 1 < |cs| ==> First(cs[c + 1]) == End(cs[c]) < |ss|
  {
    hide Sum;
    if c + 1 < |cs| { assert IsChunk(maxSize, ss, cs[c + 1]); }
  }

  /** The sample behind the chunk has a reason to open the next one. */
  ghost predicate OpensInTime(g: Grouping, ss: seq<Sample>, ch: Chunk)
    requires g.span > 0
  {
    && 0 <= First(ch) < |ss| && 0 <= End(ch) < |ss|
    && var s := ss[End(ch)];
    s.newDesc || s.dts / g.span != ss[First(ch)].dts / g.span || ch.size + |s.data| > g.maxSize
  }

  /** No other sample of the chunk has one. */
  ghost predicate StaysInTime(g: Grouping, ss: seq<Sample>, ch: Chunk)
    requires g.span > 0
  {
    && 0 <= First(ch) < End(ch) <= |ss| && (ch.sampleNum > 1 ==> ch.size <= g.maxSize)
    && forall j | First(ch) < j < End(ch) :: !ss[j].newDesc && ss[j].dts / g.span == ss[First(ch)].dts / g.span
  }

  /** Across a gap the top lags behind: with a span of 100, samples at 0, 250 and 260 start three chunks, although
      the last two lie in one window. */
  lemma GapsSplitWindows(setUp: nat)
    ensures Top(100, setUp, [0]) == 100 && Top(100, setUp, [0, 250]) == 200 && 260 >= 200
    ensures Top(100, setUp, [0, 250, 260]) == 300 && 250 / 100 == 260 / 100
  {
    TopNext(100, setUp, [], 0);
    TopNext(100, setUp, [0], 250);
    TopNext(100, setUp, [0, 250], 260);
    assert [] + [0] == [0] && [0] + [250] == [0, 250] && [0, 250] + [260] == [0, 250, 260];
  }

  // -------------------------------------------------------------- uniqueness

  /** One chunk cannot be longer than another one that starts at the same sample under the same top. */
  lemma NotLonger(g: Grouping, setUp: nat, ss: seq<Sample>, a: seq<Chunk>, b: seq<Chunk>, c: nat)
    requires AreChunks(g.maxSize, ss, a) && ByRule(g, setUp, ss, a) && AreChunks(g.maxSize, ss, b)
      && ByRule(g, setUp, ss, b)
    requires c < |a| && c < |b| && First(a[c]) == First(b[c])
    requires Firsts(ss, a)[..c + 1] == Firsts(ss, b)[..c + 1]
    ensures End(a[c]) >= End(b[c])
  {
    hide Sum, Top, NewDescs;
    var first, j := First(a[c]), End(a[c]);
    assert IsChunk(g.maxSize, ss, a[c]) && IsChunk(g.maxSize, ss, b[c]);
    if j < End(b[c]) {
      assert j < |ss|;
      assert c + 1 < |a| && First(a[c + 1]) == j;
      assert OpensAt(g, setUp, ss, a, c, c + 1) && BelowTop(g, setUp, ss, b, c);
      SizesGrow(ss, first, j, End(b[c]));
      assert false;
    }
  }

  lemma SizesGrow(ss: seq<Sample>, first: nat, j: nat, end: nat)
    requires first <= j < end <= |ss|
    ensures Sum(Sizes(ss[first..j])) + ss[j].Size() <= Sum(Sizes(ss[first..end]))
  {
    var sizes := Sizes(ss[first..end]);
    assert sizes[..j - first] == Sizes(ss[first..j]);
    SumTakeNext(sizes, j - first);
    SumMonotone(sizes, j - first + 1, |sizes|);
    assert sizes[..|sizes|] == sizes;
  }

  lemma {:induction false} SameStart(g: Grouping, setUp: nat, ss: seq<Sample>, a: seq<Chunk>, b: seq<Chunk>, c: nat)
    requires AreChunks(g.maxSize, ss, a) && ByRule(g, setUp, ss, a) && AreChunks(g.maxSize, ss, b)
      && ByRule(g, setUp, ss, b)
    requires c < |a|
    ensures c < |b| && First(a[c]) == First(b[c]) && End(a[c]) == End(b[c])
    ensures Firsts(ss, a)[..c + 1] == Firsts(ss, b)[..c + 1]
    decreases c
  {
    hide IsChunk, OpensAt, BelowTop;
    if c > 0 {
      SameStart(g, setUp, ss, a, b, c - 1);
      assert End(b[c - 1]) == First(a[c]) < |ss|;
    }
    var x, y := Firsts(ss, a), Firsts(ss, b);
    assert x[..c + 1] == x[..c] + [x[c]] && y[..c + 1] == y[..c] + [y[c]];
    NotLonger(g, setUp, ss, a, b, c);
    NotLonger(g, setUp, ss, b, a, c);
  }

  /** The samples determine their chunks: two chunk lists made by the rule agree in number and bounds. */
  lemma RuleIsUnique(g: Grouping, setUp: nat, ss: seq<Sample>, a: seq<Chunk>, b: seq<Chunk>)
    requires AreChunks(g.maxSize, ss, a) && ByRule(g, setUp, ss, a) && AreChunks(g.maxSize, ss, b)
      && ByRule(g, setUp, ss, b)
    ensures |a| == |b|
    ensures forall c | 0 <= c < |a| :: First(a[c]) == First(b[c]) && End(a[c]) == End(b[c])
  {
    hide AreChunks, ByRule;
    if |a| > 0 { SameStart(g, setUp, ss, a, b, |a| - 1); }
    if |b| > 0 { SameStart(g, setUp, ss, b, a, |b| - 1); }
    forall c | 0 <= c < |a| ensures First(a[c]) == First(b[c]) && End(a[c]) == End(b[c]) {
      SameStart(g, setUp, ss, a, b, c);
    }
  }
}
