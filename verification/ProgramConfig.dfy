/** The program config element that follows channel configuration 0 (section 4.4.1.1 of ISO/IEC 14496-3),
    as parser_aac_write_binary_dsis prints it and parser_aac_codec_config parses it. */
module ProgramConfig {
  import opened Bits
  import opened BitIO
  import opened BitFields
  import opened Samples
  import opened Options

  /** The flag marks a channel pair, or an independently switched coupling channel. */
  datatype Element = Element(flag: bool, tag: nat)

  datatype Mixdown = Mixdown(present: bool, number: nat)

  datatype Matrix = Matrix(present: bool, index: nat, surround: bool)

  /** A comment byte is None while it is allocated but has not been written. */
  datatype Pce = Pce(tag: nat, objectType: nat, fsIndex: nat, mono: Mixdown, stereo: Mixdown, matrix: Matrix,
                     front: seq<Element>, side: seq<Element>, back: seq<Element>, lfe: seq<nat>, assoc: seq<nat>,
                     cc: seq<Element>, comment: seq<Option<Byte>>)

  const NO_PCE := Pce(0, 0, 0, Mixdown(false, 0), Mixdown(false, 0), Matrix(false, 0, false), [], [], [], [], [], [],
    [])

  function Channels(es: seq<Element>): nat {
    if es == [] then 0 else (if es[0].flag then 2 else 1) + Channels(es[1..])
  }

  /** One channel per element, and one more for each pair. */
  lemma {:induction false} ChannelsAre(es: seq<Element>)
    ensures Channels(es) == |es| + |set i | 0 <= i < |es| && es[i].flag|
  {
    hide Channels;
    NoChannels();
    var pairs := set i | 0 <= i < |es| && es[i].flag;
    if es == [] {
      assert pairs == {};
    } else {
      var n := |es| - 1;
      var before := set i | 0 <= i < n && es[..n][i].flag;
      ChannelsAre(es[..n]);
      ChannelsSnoc(es[..n], es[n]);
      assert es == es[..n] + [es[n]];
      assert pairs == before + if es[n].flag then {n} else {};
    }
  }

  function ChannelCount(p: Pce): nat {
    Channels(p.front) + Channels(p.side) + Channels(p.back) + |p.lfe|
  }

  // -------------------------------------------------------------- printing

  function ElementsBits(es: seq<Element>): seq<bool> {
    if es == [] then [] else FlagBits(es[0].flag) + BitsOf(es[0].tag, 4) + ElementsBits(es[1..])
  }

  function TagsBits(ts: seq<nat>): seq<bool> {
    if ts == [] then [] else BitsOf(ts[0], 4) + TagsBits(ts[1..])
  }

  function MixdownBits(m: Mixdown): seq<bool> {
    FlagBits(m.present) + if m.present then BitsOf(m.number, 4) else []
  }

  function MatrixBits(m: Matrix): seq<bool> {
    FlagBits(m.present) + if m.present then BitsOf(m.index, 2) + FlagBits(m.surround) else []
  }

  function IdBits(p: Pce): seq<bool> {
    BitsOf(p.tag, 4) + BitsOf(p.objectType, 2) + BitsOf(p.fsIndex, 4)
  }

  function CountBits(p: Pce): seq<bool> {
    BitsOf(|p.front|, 4) + BitsOf(|p.side|, 4) + BitsOf(|p.back|, 4)
    + BitsOf(|p.lfe|, 2) + BitsOf(|p.assoc|, 3) + BitsOf(|p.cc|, 4)
  }

  function MixBits(p: Pce): seq<bool> {
    MixdownBits(p.mono) + MixdownBits(p.stereo) + MatrixBits(p.matrix)
  }

  function ListBits(p: Pce): seq<bool> {
    ElementsBits(p.front) + ElementsBits(p.side) + ElementsBits(p.back)
    + TagsBits(p.lfe) + TagsBits(p.assoc) + ElementsBits(p.cc)
  }

  function PceBits(p: Pce): seq<bool> {
    IdBits(p) + CountBits(p) + MixBits(p) + ListBits(p)
  }

  predicate CommentSet(bs: seq<Option<Byte>>) {
    forall i | 0 <= i < |bs| :: bs[i].Some?
  }

  function CommentBits(bs: seq<Option<Byte>>): (r: seq<bool>)
    requires CommentSet(bs)
    ensures |r| == 8 * |bs|
  {
    if bs == [] then [] else BitsOf(bs[0].value, 8) + CommentBits(bs[1..])
  }

  method WriteElements(sink: BitSink, es: seq<Element>)
    requires sink.Valid()
    modifies sink
    ensures sink.Valid() && sink.Stream() == old(sink.Stream()) + ElementsBits(es)
  {
    hide BitsOf, BitSink.Stream;
    var i := 0;
    while i < |es|
      invariant 0 <= i <= |es| && sink.Valid()
      invariant sink.Stream() + ElementsBits(es[i..]) == old(sink.Stream()) + ElementsBits(es)
    {
      ghost var before := sink.Stream();
      sink.WriteBits(1, Bit(es[i].flag));
      sink.WriteBits(4, es[i].tag);
      assert before + ElementsBits(es[i..]) == sink.Stream() + ElementsBits(es[i + 1..]);
      i := i + 1;
    }
    assert es[|es|..] == [];
  }

  method WriteTags(sink: BitSink, ts: seq<nat>)
    requires sink.Valid()
    modifies sink
    ensures sink.Valid() && sink.Stream() == old(sink.Stream()) + TagsBits(ts)
  {
    hide BitsOf, BitSink.Stream;
    var i := 0;
    while i < |ts|
      invariant 0 <= i <= |ts| && sink.Valid()
      invariant sink.Stream() + TagsBits(ts[i..]) == old(sink.Stream()) + TagsBits(ts)
    {
      ghost var before := sink.Stream();
      sink.WriteBits(4, ts[i]);
      assert before + TagsBits(ts[i..]) == sink.Stream() + TagsBits(ts[i + 1..]);
      i := i + 1;
    }
    assert ts[|ts|..] == [];
  }

  method WriteComment(sink: BitSink, bs: seq<Option<Byte>>)
    requires sink.Valid() && CommentSet(bs)
    modifies sink
    ensures sink.Valid() && sink.Stream() == old(sink.Stream()) + CommentBits(bs)
  {
    hide BitsOf, BitSink.Stream;
    var i := 0;
    while i < |bs|
      invariant 0 <= i <= |bs| && sink.Valid()
      invariant sink.Stream() + CommentBits(bs[i..]) == old(sink.Stream()) + CommentBits(bs)
    {
      ghost var before := sink.Stream();
      sink.WriteBits(8, bs[i].value);
      assert before + CommentBits(bs[i..]) == sink.Stream() + CommentBits(bs[i + 1..]);
      i := i + 1;
    }
    assert bs[|bs|..] == [];
  }

  method WriteMixdown(sink: BitSink, m: Mixdown)
    requires sink.Valid()
    modifies sink
    ensures sink.Valid() && sink.Stream() == old(sink.Stream()) + MixdownBits(m)
  {
    hide BitsOf, BitSink.Stream, BitSink.Valid;
    sink.WriteBits(1, Bit(m.present));
    if m.present { sink.WriteBits(4, m.number); }
  }

  method WriteMatrix(sink: BitSink, m: Matrix)
    requires sink.Valid()
    modifies sink
    ensures sink.Valid() && sink.Stream() == old(sink.Stream()) + MatrixBits(m)
  {
    hide BitsOf, BitSink.Stream, BitSink.Valid;
    sink.WriteBits(1, Bit(m.present));
    if m.present {
      sink.WriteBits(2, m.index);
      sink.WriteBits(1, Bit(m.surround));
    }
  }

  method WriteIdAndCounts(sink: BitSink, p: Pce)
    requires sink.Valid()
    modifies sink
    ensures sink.Valid() && sink.Stream() == old(sink.Stream()) + IdBits(p) + CountBits(p)
  {
    hide BitsOf, BitSink.Stream, BitSink.Valid;
    sink.WriteBits(4, p.tag);
    sink.WriteBits(2, p.objectType);
    sink.WriteBits(4, p.fsIndex);
    assert sink.Stream() == old(sink.Stream()) + IdBits(p);
    sink.WriteBits(4, |p.front|);
    sink.WriteBits(4, |p.side|);
    sink.WriteBits(4, |p.back|);
    sink.WriteBits(2, |p.lfe|);
    sink.WriteBits(3, |p.assoc|);
    sink.WriteBits(4, |p.cc|);
  }

  method WriteMixes(sink: BitSink, p: Pce)
    requires sink.Valid()
    modifies sink
    ensures sink.Valid() && sink.Stream() == old(sink.Stream()) + MixBits(p)
  {
    hide MixdownBits, MatrixBits, BitSink.Stream, BitSink.Valid;
    WriteMixdown(sink, p.mono);
    WriteMixdown(sink, p.stereo);
    WriteMatrix(sink, p.matrix);
  }

  method WriteLists(sink: BitSink, p: Pce)
    requires sink.Valid()
    modifies sink
    ensures sink.Valid() && sink.Stream() == old(sink.Stream()) + ListBits(p)
  {
    hide ElementsBits, TagsBits, BitSink.Stream, BitSink.Valid;
    WriteElements(sink, p.front);
    WriteElements(sink, p.side);
    WriteElements(sink, p.back);
    WriteTags(sink, p.lfe);
    WriteTags(sink, p.assoc);
    WriteElements(sink, p.cc);
  }

  /** The element up to its comment, where the last byte is filled up. */
  method WritePce(sink: BitSink, p: Pce)
    requires sink.Valid() && CommentSet(p.comment)
    modifies sink
    ensures sink.Valid()
    ensures sink.Stream() == Filled(old(sink.Stream()) + PceBits(p)) + CommentBits(p.comment)
  {
    hide IdBits, CountBits, MixBits, ListBits, CommentBits, BytesBits, BitSink.Stream, BitSink.Valid, Filled;
    ghost var before := sink.Stream();
    WriteIdAndCounts(sink, p);
    WriteMixes(sink, p);
    WriteLists(sink, p);
    assert sink.Stream() == before + PceBits(p);
    sink.Flush();
    WriteComment(sink, p.comment);
  }

  // -------------------------------------------------------------- parsing

  datatype Counts = Counts(front: nat, side: nat, back: nat, lfe: nat, assoc: nat, cc: nat)

  function ParseElements(r: seq<bool>, n: nat): (parsed: (seq<Element>, seq<bool>))
    ensures |parsed.0| == n
    decreases n
  {
    if n == 0 then ([], r) else
      var (es, rest) := ParseElements(Drop(Drop(r, 1), 4), n - 1);
      ([Element(Num(r, 1) == 1, Num(Drop(r, 1), 4))] + es, rest)
  }

  function ParseTags(r: seq<bool>, n: nat): (parsed: (seq<nat>, seq<bool>))
    ensures |parsed.0| == n
    decreases n
  {
    if n == 0 then ([], r) else
      var (ts, rest) := ParseTags(Drop(r, 4), n - 1);
      ([Num(r, 4)] + ts, rest)
  }

  function ParseMixdown(r: seq<bool>, was: Mixdown): (Mixdown, seq<bool>) {
    if Num(r, 1) == 1 then (Mixdown(true, Num(Drop(r, 1), 4)), Drop(Drop(r, 1), 4))
    else (Mixdown(false, was.number), Drop(r, 1))
  }

  function ParseMatrix(r: seq<bool>, was: Matrix): (Matrix, seq<bool>) {
    var r1 := Drop(r, 1);
    if Num(r, 1) == 1 then (Matrix(true, Num(r1, 2), Num(Drop(r1, 2), 1) == 1), Drop(Drop(r1, 2), 1))
    else (was.(present := false), r1)
  }

  function ParseId(r: seq<bool>, p: Pce): (Pce, seq<bool>) {
    var r1 := Drop(r, 4);
    var r2 := Drop(r1, 2);
    (p.(tag := Num(r, 4), objectType := Num(r1, 2), fsIndex := Num(r2, 4)), Drop(r2, 4))
  }

  function ParseCounts(r: seq<bool>): (Counts, seq<bool>) {
    var r1 := Drop(r, 4);
    var r2 := Drop(r1, 4);
    var r3 := Drop(r2, 4);
    var r4 := Drop(r3, 2);
    var r5 := Drop(r4, 3);
    (Counts(Num(r, 4), Num(r1, 4), Num(r2, 4), Num(r3, 2), Num(r4, 3), Num(r5, 4)), Drop(r5, 4))
  }

  function ParseMixes(r: seq<bool>, p: Pce): (Pce, seq<bool>) {
    var (mono, r1) := ParseMixdown(r, p.mono);
    var (stereo, r2) := ParseMixdown(r1, p.stereo);
    var (matrix, r3) := ParseMatrix(r2, p.matrix);
    (p.(mono := mono, stereo := stereo, matrix := matrix), r3)
  }

  function ParseLists(r: seq<bool>, n: Counts, p: Pce): (Pce, seq<bool>) {
    var (front, r1) := ParseElements(r, n.front);
    var (side, r2) := ParseElements(r1, n.side);
    var (back, r3) := ParseElements(r2, n.back);
    var (lfe, r4) := ParseTags(r3, n.lfe);
    var (assoc, r5) := ParseTags(r4, n.assoc);
    var (cc, r6) := ParseElements(r5, n.cc);
    (p.(front := front, side := side, back := back, lfe := lfe, assoc := assoc, cc := cc), r6)
  }

  /** Everything up to the comment. */
  function ParseFields(r: seq<bool>, p: Pce): (Pce, seq<bool>) {
    var (p1, r1) := ParseId(r, p);
    var (n, r2) := ParseCounts(r1);
    var (p2, r3) := ParseMixes(r2, p1);
    ParseLists(r3, n, p2)
  }

  /** Bytes that are allocated only. */
  function Unset(n: nat): (r: seq<Option<Byte>>)
    ensures |r| == n && forall i | 0 <= i < n :: r[i] == None
  {
    seq(n, _ => None)
  }

  /** A length, and that many bytes read as one number: its low byte becomes the first byte of the
      comment, and no other byte is written. */
  function ParseComment(r: seq<bool>): (seq<Option<Byte>>, seq<bool>) {
    var n, r1 := Num(r, 8), Drop(r, 8);
    if n == 0 then ([], r1) else ([Some(Num(r1, 8 * n) % 256)] + Unset(n - 1), Drop(r1, 8 * n))
  }

  function ParsePce(r: seq<bool>, p: Pce): (Pce, seq<bool>) {
    var (p1, r1) := ParseFields(r, p);
    var (comment, r2) := ParseComment(Drop(r1, |r1| % 8));
    (p1.(comment := comment), r2)
  }

  /** parser_aac_read_pce_element_channel_count */
  method ReadElements(src: BitSource, n: nat) returns (es: seq<Element>, channels: nat)
    requires src.Valid()
    modifies src
    ensures src.Valid() && (es, src.rest) == ParseElements(old(src.rest), n) && channels == Channels(es)
  {
    hide Num, Drop, BitSource.Valid, Channels;
    NoChannels();
    es, channels := [], 0;
    while |es| < n
      invariant |es| <= n && src.Valid() && channels == Channels(es)
      invariant es + ParseElements(src.rest, n - |es|).0 == ParseElements(old(src.rest), n).0
      invariant ParseElements(src.rest, n - |es|).1 == ParseElements(old(src.rest), n).1
    {
      var flag := ReadNum(src, 1);
      var tag := ReadNum(src, 4);
      var e := Element(flag == 1, tag);
      ChannelsSnoc(es, e);
      ghost var more := ParseElements(src.rest, n - |es| - 1).0;
      assert es + ([e] + more) == (es + [e]) + more;
      es, channels := es + [e], channels + if e.flag then 2 else 1;
    }
    assert es + [] == es;
  }

  lemma NoChannels()
    ensures Channels([]) == 0
  {
  }

  lemma {:induction false} ChannelsSnoc(es: seq<Element>, e: Element)
    ensures Channels(es + [e]) == Channels(es) + if e.flag then 2 else 1
  {
    if es != [] {
      assert (es + [e])[1..] == es[1..] + [e];
      ChannelsSnoc(es[1..], e);
    }
  }

  method ReadTags(src: BitSource, n: nat) returns (ts: seq<nat>)
    requires src.Valid()
    modifies src
    ensures src.Valid() && (ts, src.rest) == ParseTags(old(src.rest), n)
  {
    hide Num, Drop, BitSource.Valid;
    ts := [];
    while |ts| < n
      invariant |ts| <= n && src.Valid()
      invariant ts + ParseTags(src.rest, n - |ts|).0 == ParseTags(old(src.rest), n).0
      invariant ParseTags(src.rest, n - |ts|).1 == ParseTags(old(src.rest), n).1
    {
      var tag := ReadNum(src, 4);
      ts := ts + [tag];
    }
    assert ts + [] == ts;
  }

  method ReadMixdown(src: BitSource, was: Mixdown) returns (m: Mixdown)
    requires src.Valid()
    modifies src
    ensures src.Valid() && (m, src.rest) == ParseMixdown(old(src.rest), was)
  {
    hide Num, Drop, BitSource.Valid;
    var bit := ReadNum(src, 1);
    m := was.(present := bit == 1);
    if m.present {
      var number := ReadNum(src, 4);
      m := m.(number := number);
    }
  }

  method ReadMatrix(src: BitSource, was: Matrix) returns (m: Matrix)
    requires src.Valid()
    modifies src
    ensures src.Valid() && (m, src.rest) == ParseMatrix(old(src.rest), was)
  {
    hide Num, Drop, BitSource.Valid;
    var bit := ReadNum(src, 1);
    m := was.(present := bit == 1);
    if m.present {
      var index := ReadNum(src, 2);
      bit := ReadNum(src, 1);
      m := m.(index := index, surround := bit == 1);
    }
  }

  method ReadIdAndCounts(src: BitSource, was: Pce) returns (p: Pce, n: Counts)
    requires src.Valid()
    modifies src
    ensures src.Valid()
    ensures p == ParseId(old(src.rest), was).0 && (n, src.rest) == ParseCounts(ParseId(old(src.rest), was).1)
  {
    hide Num, Drop, BitSource.Valid;
    var tag := ReadNum(src, 4);
    var objectType := ReadNum(src, 2);
    var fsIndex := ReadNum(src, 4);
    p := was.(tag := tag, objectType := objectType, fsIndex := fsIndex);
    var front := ReadNum(src, 4);
    var side := ReadNum(src, 4);
    var back := ReadNum(src, 4);
    var lfe := ReadNum(src, 2);
    var assoc := ReadNum(src, 3);
    var cc := ReadNum(src, 4);
    n := Counts(front, side, back, lfe, assoc, cc);
  }

  method ReadLists(src: BitSource, n: Counts, was: Pce) returns (p: Pce, channels: nat)
    requires src.Valid()
    modifies src
    ensures src.Valid() && (p, src.rest) == ParseLists(old(src.rest), n, was) && channels == ChannelCount(p)
  {
    hide ParseElements, ParseTags, Channels, BitSource.Valid;
    var front, frontChannels := ReadElements(src, n.front);
    var side, sideChannels := ReadElements(src, n.side);
    var back, backChannels := ReadElements(src, n.back);
    channels := frontChannels + sideChannels + backChannels + n.lfe;
    var lfe := ReadTags(src, n.lfe);
    var assoc := ReadTags(src, n.assoc);
    var cc, ccChannels := ReadElements(src, n.cc);
    p := was.(front := front, side := side, back := back, lfe := lfe, assoc := assoc, cc := cc);
  }

  method ReadComment(src: BitSource) returns (comment: seq<Option<Byte>>)
    requires src.Valid()
    modifies src
    ensures src.Valid() && (comment, src.rest) == ParseComment(old(src.rest))
  {
    hide Num, Drop, BitSource.Valid;
    var n := ReadNum(src, 8);
    comment := Unset(n);
    if n > 0 {
      var word := ReadLowByte(src, 8 * n);
      comment := comment[0 := Some(word)];
      OneByte(word, n);
    }
  }

  lemma OneByte(b: Byte, n: nat)
    requires n > 0
    ensures Unset(n)[0 := Some(b)] == [Some(b)] + Unset(n - 1)
  {
  }

  /** A read of any width, cast to a byte. */
  method ReadLowByte(src: BitSource, n: nat) returns (v: Byte)
    requires src.Valid()
    modifies src
    ensures src.Valid() && v == Num(old(src.rest), n) % 256 && src.rest == Drop(old(src.rest), n)
  {
    hide BytesBits, Drop, BitSource.Valid, BitsOf, Val, Front;
    var word := src.ReadBits(n);
    v := word % 256;
  }

  method ReadPce(src: BitSource, was: Pce) returns (p: Pce, channels: nat)
    requires src.Valid()
    modifies src
    ensures src.Valid() && (p, src.rest) == ParsePce(old(src.rest), was) && channels == ChannelCount(p)
  {
    hide ParseId, ParseCounts, ParseMixdown, ParseMatrix, ParseLists, ParseComment, Drop, Channels, BytesBits;
    var n: Counts;
    p, n := ReadIdAndCounts(src, was);
    var mono := ReadMixdown(src, p.mono);
    var stereo := ReadMixdown(src, p.stereo);
    var matrix := ReadMatrix(src, p.matrix);
    p := p.(mono := mono, stereo := stereo, matrix := matrix);
    p, channels := ReadLists(src, n, p);
    src.ByteAlign();
    var comment := ReadComment(src);
    p := p.(comment := comment);
  }

  // -------------------------------------------------------------- what was printed reads back

  predicate FitsElements(es: seq<Element>) {
    forall i | 0 <= i < |es| :: es[i].tag < 16
  }

  predicate FitsTags(ts: seq<nat>) {
    forall i | 0 <= i < |ts| :: ts[i] < 16
  }

  /** Every field and every count fits the width it is printed with. */
  predicate FitsPce(p: Pce) {
    && p.tag < 16 && p.objectType < 4 && p.fsIndex < 16
    && p.mono.number < 16 && p.stereo.number < 16 && p.matrix.index < 4
    && |p.front| < 16 && |p.side| < 16 && |p.back| < 16 && |p.lfe| < 4 && |p.assoc| < 8 && |p.cc| < 16
    && FitsElements(p.front) && FitsElements(p.side) && FitsElements(p.back) && FitsElements(p.cc)
    && FitsTags(p.lfe) && FitsTags(p.assoc) && CommentSet(p.comment)
  }

  function KeptMixdown(m: Mixdown): Mixdown {
    if m.present then m else Mixdown(false, 0)
  }

  function KeptMatrix(m: Matrix): Matrix {
    if m.present then m else Matrix(false, 0, false)
  }

  /** p with the fields cleared that are not printed. */
  function KeptPce(p: Pce): Pce {
    p.(mono := KeptMixdown(p.mono), stereo := KeptMixdown(p.stereo), matrix := KeptMatrix(p.matrix))
  }

  lemma {:induction false} ElementsRead(es: seq<Element>, tail: seq<bool>)
    requires FitsElements(es)
    ensures ParseElements(ElementsBits(es) + tail, |es|) == (es, tail)
  {
    FieldPowers();
    hide Num, Drop, Pow2, BitsOf, FlagBits;
    if es == [] {
      assert ElementsBits(es) + tail == tail;
    } else {
      var more := ElementsBits(es[1..]) + tail;
      FlagRead(es[0].flag, BitsOf(es[0].tag, 4) + more);
      NumRead(es[0].tag, 4, more);
      ElementsRead(es[1..], tail);
      assert es == [es[0]] + es[1..];
      assert ElementsBits(es) + tail == FlagBits(es[0].flag) + (BitsOf(es[0].tag, 4) + more);
    }
  }

  lemma {:induction false} TagsRead(ts: seq<nat>, tail: seq<bool>)
    requires FitsTags(ts)
    ensures ParseTags(TagsBits(ts) + tail, |ts|) == (ts, tail)
  {
    FieldPowers();
    hide Num, Drop, Pow2, BitsOf;
    if ts == [] {
      assert TagsBits(ts) + tail == tail;
    } else {
      var more := TagsBits(ts[1..]) + tail;
      NumRead(ts[0], 4, more);
      TagsRead(ts[1..], tail);
      assert ts == [ts[0]] + ts[1..];
      assert TagsBits(ts) + tail == BitsOf(ts[0], 4) + more;
    }
  }

  lemma MixdownRead(m: Mixdown, tail: seq<bool>)
    requires m.number < 16
    ensures ParseMixdown(MixdownBits(m) + tail, Mixdown(false, 0)) == (KeptMixdown(m), tail)
  {
    FieldPowers();
    hide Num, Drop, Pow2, BitsOf, FlagBits;
    var more := if m.present then BitsOf(m.number, 4) + tail else tail;
    FlagRead(m.present, more);
    NumRead(m.number, 4, tail);
    assert MixdownBits(m) + tail == FlagBits(m.present) + more;
  }

  lemma MatrixRead(m: Matrix, tail: seq<bool>)
    requires m.index < 4
    ensures ParseMatrix(MatrixBits(m) + tail, Matrix(false, 0, false)) == (KeptMatrix(m), tail)
  {
    FieldPowers();
    hide Num, Drop, Pow2, BitsOf, FlagBits;
    var last := FlagBits(m.surround) + tail;
    var more := if m.present then BitsOf(m.index, 2) + last else tail;
    FlagRead(m.present, more);
    NumRead(m.index, 2, last);
    FlagRead(m.surround, tail);
    assert MatrixBits(m) + tail == FlagBits(m.present) + more;
  }

  lemma IdRead(p: Pce, was: Pce, tail: seq<bool>)
    requires FitsPce(p)
    ensures ParseId(IdBits(p) + tail, was)
      == (was.(tag := p.tag, objectType := p.objectType, fsIndex := p.fsIndex), tail)
  {
    FieldPowers();
    hide Num, Drop, Pow2, BitsOf;
    var r2 := BitsOf(p.fsIndex, 4) + tail;
    var r1 := BitsOf(p.objectType, 2) + r2;
    NumRead(p.tag, 4, r1);
    NumRead(p.objectType, 2, r2);
    NumRead(p.fsIndex, 4, tail);
    assert IdBits(p) + tail == BitsOf(p.tag, 4) + r1;
  }

  function CountsOf(p: Pce): Counts {
    Counts(|p.front|, |p.side|, |p.back|, |p.lfe|, |p.assoc|, |p.cc|)
  }

  lemma CountsRead(p: Pce, tail: seq<bool>)
    requires FitsPce(p)
    ensures ParseCounts(CountBits(p) + tail) == (CountsOf(p), tail)
  {
    FieldPowers();
    hide Num, Drop, Pow2, BitsOf, FitsElements, FitsTags, CommentSet;
    var r5 := BitsOf(|p.cc|, 4) + tail;
    var r4 := BitsOf(|p.assoc|, 3) + r5;
    var r3 := BitsOf(|p.lfe|, 2) + r4;
    var r2 := BitsOf(|p.back|, 4) + r3;
    var r1 := BitsOf(|p.side|, 4) + r2;
    NumRead(|p.front|, 4, r1);
    NumRead(|p.side|, 4, r2);
    NumRead(|p.back|, 4, r3);
    NumRead(|p.lfe|, 2, r4);
    NumRead(|p.assoc|, 3, r5);
    NumRead(|p.cc|, 4, tail);
    assert CountBits(p) + tail == BitsOf(|p.front|, 4) + r1;
  }

  lemma MixesRead(p: Pce, was: Pce, tail: seq<bool>)
    requires FitsPce(p) && was.mono == was.stereo == Mixdown(false, 0) && was.matrix == Matrix(false, 0, false)
    ensures ParseMixes(MixBits(p) + tail, was)
      == (was.(mono := KeptMixdown(p.mono), stereo := KeptMixdown(p.stereo), matrix := KeptMatrix(p.matrix)), tail)
  {
    hide ParseMixdown, ParseMatrix, MixdownBits, MatrixBits, FitsElements, FitsTags, CommentSet;
    var r2 := MatrixBits(p.matrix) + tail;
    var r1 := MixdownBits(p.stereo) + r2;
    MixdownRead(p.mono, r1);
    MixdownRead(p.stereo, r2);
    MatrixRead(p.matrix, tail);
    assert MixBits(p) + tail == MixdownBits(p.mono) + r1;
  }

  lemma ListsRead(p: Pce, was: Pce, tail: seq<bool>)
    requires FitsPce(p)
    ensures ParseLists(ListBits(p) + tail, CountsOf(p), was)
      == (was.(front := p.front, side := p.side, back := p.back, lfe := p.lfe, assoc := p.assoc, cc := p.cc), tail)
  {
    hide ParseElements, ParseTags, ElementsBits, TagsBits, FitsElements, FitsTags, CommentSet;
    var r5 := ElementsBits(p.cc) + tail;
    var r4 := TagsBits(p.assoc) + r5;
    var r3 := TagsBits(p.lfe) + r4;
    var r2 := ElementsBits(p.back) + r3;
    var r1 := ElementsBits(p.side) + r2;
    ElementsRead(p.front, r1);
    ElementsRead(p.side, r2);
    ElementsRead(p.back, r3);
    TagsRead(p.lfe, r4);
    TagsRead(p.assoc, r5);
    ElementsRead(p.cc, tail);
    assert ListBits(p) + tail == ElementsBits(p.front) + r1;
  }

  lemma FieldsRead(p: Pce, tail: seq<bool>)
    requires FitsPce(p)
    ensures ParseFields(PceBits(p) + tail, NO_PCE) == (KeptPce(p).(comment := []), tail)
  {
    hide IdBits, CountBits, MixBits, ListBits, ParseId, ParseCounts, ParseMixes, ParseLists, FitsPce;
    var r3 := ListBits(p) + tail;
    var r2 := MixBits(p) + r3;
    var r1 := CountBits(p) + r2;
    var p1 := NO_PCE.(tag := p.tag, objectType := p.objectType, fsIndex := p.fsIndex);
    var p2 := p1.(mono := KeptMixdown(p.mono), stereo := KeptMixdown(p.stereo), matrix := KeptMatrix(p.matrix));
    IdRead(p, NO_PCE, r1);
    CountsRead(p, r2);
    MixesRead(p, p1, r3);
    ListsRead(p, p2, tail);
    assert PceBits(p) + tail == IdBits(p) + r1;
  }

  /** The filled-up byte ends where the comment starts. */
  lemma PceRead(p: Pce, k: nat, tail: seq<bool>)
    requires FitsPce(p) && k < 8 && |tail| % 8 == 0
    ensures ParsePce(PceBits(p) + (Zeros(k) + tail), NO_PCE)
      == (KeptPce(p).(comment := ParseComment(tail).0), ParseComment(tail).1)
  {
    hide ParseFields, ParseComment, PceBits, FitsPce;
    FieldsRead(p, Zeros(k) + tail);
    assert Drop(Zeros(k) + tail, k) == tail;
  }

  /** The comment is printed without its length.  What comes back is the comment that was printed only if
      there is none and a zero byte follows, or if it is a single byte of 1 and another 1 follows. */
  lemma CommentRead(bs: seq<Option<Byte>>, tail: seq<bool>)
    requires CommentSet(bs)
    ensures ParseComment(CommentBits(bs) + tail).0 == bs <==>
      (bs == [] && Num(tail, 8) == 0) || (bs == [Some(1)] && Num(tail, 8) == 1)
  {
    if bs == [] {
      assert CommentBits(bs) + tail == tail;
    } else {
      SomeCommentRead(bs, tail);
    }
  }

  /** With a length in front, the parser keeps the last byte of the comment, as its first one, and goes on behind
      it; the other bytes are never written. */
  lemma OnlyLastByteKept(bs: seq<Option<Byte>>, tail: seq<bool>)
    requires CommentSet(bs) && 0 < |bs| < 256
    ensures ParseComment(BitsOf(|bs|, 8) + (CommentBits(bs) + tail)) == ([bs[|bs| - 1]] + Unset(|bs| - 1), tail)
  {
    FieldPowers();
    hide Num, Drop, Pow2, BitsOf;
    NumRead(|bs|, 8, CommentBits(bs) + tail);
    LastByteValue(bs, tail);
  }

  lemma {:induction false} LastByteValue(bs: seq<Option<Byte>>, tail: seq<bool>)
    requires CommentSet(bs) && bs != []
    ensures Num(CommentBits(bs) + tail, 8 * |bs|) % 256 == bs[|bs| - 1].value
    ensures Drop(CommentBits(bs) + tail, 8 * |bs|) == tail
  {
    FieldPowers();
    CommentSnoc(bs);
    var n := |bs| - 1;
    var before, last := CommentBits(bs[..n]), BitsOf(bs[n].value, 8);
    assert Front(CommentBits(bs) + tail, 8 * |bs|) == before + last;
    hide CommentBits, BitsOf, Front, Pow2;
    ValConcat(before, last);
    ValOfBits(bs[n].value, 8);
    hide Val;
    LowByte(Val(before), bs[n].value);
  }

  lemma LowByte(x: nat, b: Byte)
    ensures (x * 256 + b % 256) % 256 == b
  {
  }

  lemma {:induction false} CommentSnoc(bs: seq<Option<Byte>>)
    requires CommentSet(bs) && bs != []
    ensures CommentBits(bs) == CommentBits(bs[..|bs| - 1]) + BitsOf(bs[|bs| - 1].value, 8)
  {
    hide BitsOf;
    if |bs| > 1 {
      CommentSnoc(bs[1..]);
      assert bs[1..][..|bs| - 2] == bs[..|bs| - 1][1..];
    }
  }

  lemma SomeCommentRead(bs: seq<Option<Byte>>, tail: seq<bool>)
    requires CommentSet(bs) && bs != []
    ensures ParseComment(CommentBits(bs) + tail).0 == bs <==> bs == [Some(1)] && Num(tail, 8) == 1
  {
    FieldPowers();
    hide Num, Drop, Pow2, BitsOf;
    var more := CommentBits(bs[1..]) + tail;
    assert CommentBits(bs) + tail == BitsOf(bs[0].value, 8) + more;
    NumRead(bs[0].value, 8, more);
    ByteNumber(tail);
    var comment := ParseComment(CommentBits(bs) + tail).0;
    assert |comment| == bs[0].value;
    if |comment| == |bs| == 1 {
      assert more == tail;
      assert bs == [Some(1)];
      assert comment == [Some(Num(tail, 8))];
    } else if |comment| == |bs| {
      assert comment[1].None?;
    }
  }

  lemma ByteNumber(r: seq<bool>)
    ensures Num(r, 8) < 256
  {
    FieldPowers();
    BitsOfVal(Front(r, 8));
  }
}
