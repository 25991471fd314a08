/** The tables of ISO/IEC 14496-3 (sections 1.6.2.1, 4.4.1 and 4.4.1.1) as lists of fields, with widths and values
    written out: what a printed AudioSpecificConfig is, bit by bit, and what its optional parts are read as. */
module AudioSyntax {
  import opened AudioConfig
  import opened AudioRoundTrip
  import opened BitFields
  import opened BitIO
  import opened Bits
  import opened Options
  import opened ProgramConfig
  import opened Samples

  function Kind(a: Aot): nat {
    if a.id == 31 then 32 + a.ext else a.id
  }

  function Flag(b: bool): Field {
    Field(1, if b then 1 else 0)
  }

  function TypeFields(a: Aot): seq<Field> {
    [Field(5, a.id)] + if a.id == 31 then [Field(6, a.ext)] else []
  }

  function RateFields(r: Rate): seq<Field> {
    [Field(4, r.index)] + if r.index == 15 then [Field(24, r.hz)] else []
  }

  function GaFields(g: GaConfig): seq<Field> {
    [Flag(g.frameLengthFlag), Flag(g.dependsOnCoreCoder)]
    + (if g.dependsOnCoreCoder then [Field(14, g.coreCoderDelay)] else []) + [Flag(g.extensionFlag)]
  }

  /** The config up to its extension flag. */
  function CoreFields(d: Dsi): seq<Field> {
    TypeFields(d.aot) + RateFields(d.fs) + [Field(4, d.channelConfiguration)]
    + (if Kind(d.aot) != 5 && Kind(d.aot) != 29 then []
       else RateFields(d.sbrFs) + TypeFields(d.aot2)
            + if Kind(d.aot2) == 22 then [Field(4, d.extensionChannelConfiguration)] else [])
    + GaFields(d.ga)
  }

  function SbrFields(d: Dsi): seq<Field> {
    [Flag(d.hasSbr)] + if d.hasSbr then RateFields(d.sbrFs) else []
  }

  /** The extension that a decoder without SBR can skip. */
  function SyncFields(d: Dsi): seq<Field> {
    if Kind(d.aot) == 5 || Kind(d.aot) == 29 || !d.haveSbrExt then []
    else
      [Field(11, 0x2b7)] + TypeFields(d.extAot)
      + if Kind(d.extAot) == 5 then SbrFields(d) + (if d.havePsExt then [Field(11, 0x548), Flag(d.hasPs)] else [])
        else if Kind(d.extAot) == 22 then SbrFields(d) + [Field(4, d.extensionChannelConfiguration)]
        else []
  }

  function ElementFields(es: seq<Element>): seq<Field> {
    if es == [] then [] else [Flag(es[0].flag), Field(4, es[0].tag)] + ElementFields(es[1..])
  }

  function TagFields(ts: seq<nat>): seq<Field> {
    if ts == [] then [] else [Field(4, ts[0])] + TagFields(ts[1..])
  }

  function MixdownFields(m: Mixdown): seq<Field> {
    [Flag(m.present)] + if m.present then [Field(4, m.number)] else []
  }

  /** The program config element up to its comment. */
  function PceFields(p: Pce): seq<Field> {
    [Field(4, p.tag), Field(2, p.objectType), Field(4, p.fsIndex),
     Field(4, |p.front|), Field(4, |p.side|), Field(4, |p.back|), Field(2, |p.lfe|), Field(3, |p.assoc|),
       Field(4, |p.cc|)]
    + MixdownFields(p.mono) + MixdownFields(p.stereo)
    + [Flag(p.matrix.present)] + (if p.matrix.present then [Field(2, p.matrix.index), Flag(p.matrix.surround)] else [])
    + ElementFields(p.front) + ElementFields(p.side) + ElementFields(p.back)
    + TagFields(p.lfe) + TagFields(p.assoc) + ElementFields(p.cc)
  }

  function CommentFields(bs: seq<Option<Byte>>): seq<Field>
    requires CommentSet(bs)
  {
    if bs == [] then [] else [Field(8, bs[0].value)] + CommentFields(bs[1..])
  }

  // -------------------------------------------------------------- what is printed

  lemma {:induction false} FieldsConcat(a: seq<Field>, b: seq<Field>)
    ensures FieldBits(a + b) == FieldBits(a) + FieldBits(b)
  {
    hide BitsOf;
    if a == [] {
      assert a + b == b;
    } else {
      assert (a + b)[1..] == a[1..] + b;
      FieldsConcat(a[1..], b);
    }
  }

  lemma OneField(w: nat, v: nat)
    ensures FieldBits([Field(w, v)]) == BitsOf(v, w)
  {
    hide BitsOf;
  }

  lemma NoFields()
    ensures FieldBits([]) == []
  {
  }

  lemma OneFlag(b: bool)
    ensures FieldBits([Flag(b)]) == FlagBits(b)
  {
    OneField(1, if b then 1 else 0);
  }

  lemma TypeIs(a: Aot)
    ensures FieldBits(TypeFields(a)) == TypeBits(a)
  {
    hide BitsOf, FieldBits;
    NoFields();
    OneField(5, a.id);
    OneField(6, a.ext);
    FieldsConcat([Field(5, a.id)], if a.id == 31 then [Field(6, a.ext)] else []);
  }

  lemma RateIs(r: Rate)
    ensures FieldBits(RateFields(r)) == RateBits(r)
  {
    hide BitsOf, FieldBits;
    NoFields();
    OneField(4, r.index);
    OneField(24, r.hz);
    FieldsConcat([Field(4, r.index)], if r.index == 15 then [Field(24, r.hz)] else []);
  }

  lemma GaIs(g: GaConfig)
    ensures FieldBits(GaFields(g)) == GaBits(g)
  {
    hide BitsOf, FieldBits, FlagBits, Flag;
    NoFields();
    OneFlag(g.frameLengthFlag);
    OneFlag(g.dependsOnCoreCoder);
    OneFlag(g.extensionFlag);
    OneField(14, g.coreCoderDelay);
    var delay := if g.dependsOnCoreCoder then [Field(14, g.coreCoderDelay)] else [];
    var two := [Flag(g.frameLengthFlag), Flag(g.dependsOnCoreCoder)];
    assert two == [Flag(g.frameLengthFlag)] + [Flag(g.dependsOnCoreCoder)];
    FieldsConcat([Flag(g.frameLengthFlag)], [Flag(g.dependsOnCoreCoder)]);
    FieldsConcat(two, delay);
    FieldsConcat(two + delay, [Flag(g.extensionFlag)]);
  }

  lemma HierarchicalIs(d: Dsi)
    ensures FieldBits(if Kind(d.aot) != 5 && Kind(d.aot) != 29 then []
       else RateFields(d.sbrFs) + TypeFields(d.aot2)
            + if Kind(d.aot2) == 22 then [Field(4, d.extensionChannelConfiguration)] else []) == HierarchicalBits(d)
  {
    hide BitsOf, FieldBits, RateFields, TypeFields, RateBits, TypeBits;
    NoFields();
    RateIs(d.sbrFs);
    TypeIs(d.aot2);
    OneField(4, d.extensionChannelConfiguration);
    var rate, kind := RateFields(d.sbrFs), TypeFields(d.aot2);
    var more := if Kind(d.aot2) == 22 then [Field(4, d.extensionChannelConfiguration)] else [];
    FieldsConcat(rate, kind);
    FieldsConcat(rate + kind, more);
  }

  lemma CoreIs(d: Dsi)
    ensures FieldBits(CoreFields(d)) == CoreBits(d)
  {
    hide BitsOf, FieldBits, RateFields, TypeFields, GaFields, RateBits, TypeBits, GaBits, HierarchicalBits;
    TypeIs(d.aot);
    RateIs(d.fs);
    OneField(4, d.channelConfiguration);
    HierarchicalIs(d);
    GaIs(d.ga);
    var kind, rate, channels := TypeFields(d.aot), RateFields(d.fs), [Field(4, d.channelConfiguration)];
    var more := if Kind(d.aot) != 5 && Kind(d.aot) != 29 then []
       else RateFields(d.sbrFs) + TypeFields(d.aot2)
            + if Kind(d.aot2) == 22 then [Field(4, d.extensionChannelConfiguration)] else [];
    FieldsConcat(kind, rate);
    FieldsConcat(kind + rate, channels);
    FieldsConcat(kind + rate + channels, more);
    FieldsConcat(kind + rate + channels + more, GaFields(d.ga));
  }

  lemma SbrIs(d: Dsi)
    ensures FieldBits(SbrFields(d)) == SbrBits(d)
  {
    hide BitsOf, FieldBits, FlagBits, Flag, RateFields, RateBits;
    NoFields();
    OneFlag(d.hasSbr);
    RateIs(d.sbrFs);
    FieldsConcat([Flag(d.hasSbr)], if d.hasSbr then RateFields(d.sbrFs) else []);
  }

  /** PS signalling. */
  lemma PsIs(d: Dsi)
    ensures FieldBits(if d.havePsExt then [Field(11, 0x548), Flag(d.hasPs)] else []) == PsBits(d)
  {
    hide BitsOf, FieldBits, FlagBits, Flag;
    NoFields();
    OneField(11, 0x548);
    OneFlag(d.hasPs);
    assert [Field(11, 0x548), Flag(d.hasPs)] == [Field(11, 0x548)] + [Flag(d.hasPs)];
    FieldsConcat([Field(11, 0x548)], [Flag(d.hasPs)]);
  }

  lemma ExtensionIs(d: Dsi)
    ensures FieldBits(
      if Kind(d.extAot) == 5 then SbrFields(d) + (if d.havePsExt then [Field(11, 0x548), Flag(d.hasPs)] else [])
      else if Kind(d.extAot) == 22 then SbrFields(d) + [Field(4, d.extensionChannelConfiguration)]
      else []) == ExtensionBits(d)
  {
    hide BitsOf, FieldBits, SbrFields, SbrBits, PsBits;
    NoFields();
    SbrIs(d);
    PsIs(d);
    OneField(4, d.extensionChannelConfiguration);
    FieldsConcat(SbrFields(d), if d.havePsExt then [Field(11, 0x548), Flag(d.hasPs)] else []);
    FieldsConcat(SbrFields(d), [Field(4, d.extensionChannelConfiguration)]);
  }

  lemma SyncIs(d: Dsi)
    ensures FieldBits(SyncFields(d)) == SyncBits(d)
  {
    hide BitsOf, FieldBits, SbrFields, TypeFields, TypeBits, ExtensionBits;
    NoFields();
    OneField(11, 0x2b7);
    TypeIs(d.extAot);
    ExtensionIs(d);
    var more :=
      if Kind(d.extAot) == 5 then SbrFields(d) + (if d.havePsExt then [Field(11, 0x548), Flag(d.hasPs)] else [])
      else if Kind(d.extAot) == 22 then SbrFields(d) + [Field(4, d.extensionChannelConfiguration)]
      else [];
    FieldsConcat([Field(11, 0x2b7)], TypeFields(d.extAot));
    FieldsConcat([Field(11, 0x2b7)] + TypeFields(d.extAot), more);
  }

  lemma {:induction false} ElementsAre(es: seq<Element>)
    ensures FieldBits(ElementFields(es)) == ElementsBits(es)
  {
    hide BitsOf, FieldBits, FlagBits, Flag;
    NoFields();
    if es != [] {
      OneFlag(es[0].flag);
      OneField(4, es[0].tag);
      ElementsAre(es[1..]);
      assert [Flag(es[0].flag), Field(4, es[0].tag)] == [Flag(es[0].flag)] + [Field(4, es[0].tag)];
      FieldsConcat([Flag(es[0].flag)], [Field(4, es[0].tag)]);
      FieldsConcat([Flag(es[0].flag), Field(4, es[0].tag)], ElementFields(es[1..]));
    }
  }

  lemma {:induction false} TagsAre(ts: seq<nat>)
    ensures FieldBits(TagFields(ts)) == TagsBits(ts)
  {
    hide BitsOf, FieldBits;
    NoFields();
    if ts != [] {
      OneField(4, ts[0]);
      TagsAre(ts[1..]);
      FieldsConcat([Field(4, ts[0])], TagFields(ts[1..]));
    }
  }

  lemma {:induction false} CommentIs(bs: seq<Option<Byte>>)
    requires CommentSet(bs)
    ensures FieldBits(CommentFields(bs)) == CommentBits(bs)
  {
    hide BitsOf, FieldBits;
    NoFields();
    if bs != [] {
      OneField(8, bs[0].value);
      CommentIs(bs[1..]);
      FieldsConcat([Field(8, bs[0].value)], CommentFields(bs[1..]));
    }
  }

  lemma MixdownIs(m: Mixdown)
    ensures FieldBits(MixdownFields(m)) == MixdownBits(m)
  {
    hide BitsOf, FieldBits, FlagBits, Flag;
    NoFields();
    OneFlag(m.present);
    OneField(4, m.number);
    FieldsConcat([Flag(m.present)], if m.present then [Field(4, m.number)] else []);
  }

  lemma MatrixIs(m: Matrix)
    ensures FieldBits([Flag(m.present)] + if m.present then [Field(2, m.index), Flag(m.surround)] else [])
      == MatrixBits(m)
  {
    hide BitsOf, FieldBits, FlagBits, Flag;
    NoFields();
    OneFlag(m.present);
    OneField(2, m.index);
    OneFlag(m.surround);
    assert [Field(2, m.index), Flag(m.surround)] == [Field(2, m.index)] + [Flag(m.surround)];
    FieldsConcat([Field(2, m.index)], [Flag(m.surround)]);
    FieldsConcat([Flag(m.present)], if m.present then [Field(2, m.index), Flag(m.surround)] else []);
  }

  /** The nine numbers at the start of the element. */
  lemma NumbersAre(p: Pce)
    ensures FieldBits([Field(4, p.tag), Field(2, p.objectType), Field(4, p.fsIndex), Field(4, |p.front|),
      Field(4, |p.side|), Field(4, |p.back|), Field(2, |p.lfe|), Field(3, |p.assoc|), Field(4, |p.cc|)])
      == IdBits(p) + CountBits(p)
  {
    hide BitsOf, FieldBits;
    var fs := [Field(4, p.tag), Field(2, p.objectType), Field(4, p.fsIndex), Field(4, |p.front|),
      Field(4, |p.side|), Field(4, |p.back|), Field(2, |p.lfe|), Field(3, |p.assoc|), Field(4, |p.cc|)];
    ThreeFields(fs[0], fs[1], fs[2]);
    ThreeFields(fs[3], fs[4], fs[5]);
    ThreeFields(fs[6], fs[7], fs[8]);
    var a, b, c := [fs[0], fs[1], fs[2]], [fs[3], fs[4], fs[5]], [fs[6], fs[7], fs[8]];
    assert fs == a + b + c;
    FieldsConcat(a, b);
    FieldsConcat(a + b, c);
  }

  lemma ThreeFields(a: Field, b: Field, c: Field)
    ensures FieldBits([a, b, c]) == BitsOf(a.value, a.width) + BitsOf(b.value, b.width) + BitsOf(c.value, c.width)
  {
    hide BitsOf, FieldBits;
    OneField(a.width, a.value);
    OneField(b.width, b.value);
    OneField(c.width, c.value);
    assert [a, b, c] == [a] + [b] + [c];
    FieldsConcat([a], [b]);
    FieldsConcat([a] + [b], [c]);
  }

  lemma PceIs(p: Pce)
    ensures FieldBits(PceFields(p)) == PceBits(p)
  {
    hide BitsOf, FieldBits, FlagBits, Flag, MixdownFields, MixdownBits, MatrixBits, ElementFields, ElementsBits,
      TagFields, TagsBits, IdBits, CountBits;
    NumbersAre(p);
    MixdownIs(p.mono);
    MixdownIs(p.stereo);
    MatrixIs(p.matrix);
    ElementsAre(p.front);
    ElementsAre(p.side);
    ElementsAre(p.back);
    TagsAre(p.lfe);
    TagsAre(p.assoc);
    ElementsAre(p.cc);
    var a := [Field(4, p.tag), Field(2, p.objectType), Field(4, p.fsIndex), Field(4, |p.front|), Field(4, |p.side|),
      Field(4, |p.back|), Field(2, |p.lfe|), Field(3, |p.assoc|), Field(4, |p.cc|)];
    var x := [Flag(p.matrix.present)]
      + if p.matrix.present then [Field(2, p.matrix.index), Flag(p.matrix.surround)] else [];
    var mixes := MixdownFields(p.mono) + MixdownFields(p.stereo) + x;
    var elements := ElementFields(p.front) + ElementFields(p.side) + ElementFields(p.back);
    var tags := TagFields(p.lfe) + TagFields(p.assoc);
    FieldsConcat(MixdownFields(p.mono), MixdownFields(p.stereo));
    FieldsConcat(MixdownFields(p.mono) + MixdownFields(p.stereo), x);
    FieldsConcat(ElementFields(p.front), ElementFields(p.side));
    FieldsConcat(ElementFields(p.front) + ElementFields(p.side), ElementFields(p.back));
    FieldsConcat(TagFields(p.lfe), TagFields(p.assoc));
    FieldsConcat(a, mixes);
    FieldsConcat(a + mixes, elements);
    FieldsConcat(a + mixes + elements, tags);
    FieldsConcat(a + mixes + elements + tags, ElementFields(p.cc));
    assert PceFields(p) == a + mixes + elements + tags + ElementFields(p.cc);
  }

  /** Main result on the printer: what it prints are the fields of the tables, in their order and widths, filled
      up to a byte at the end and in front of the comment of a program config element. */
  lemma PrintIs(before: seq<bool>, d: Dsi)
    requires Printable(d)
    ensures d.channelConfiguration != 0 ==>
      PrintAfter(before, d) == Filled(before + FieldBits(CoreFields(d) + SyncFields(d)))
    ensures d.channelConfiguration == 0 ==>
      PrintAfter(before, d) == Filled(Filled(before + FieldBits(CoreFields(d) + PceFields(d.pce)))
                                      + FieldBits(CommentFields(d.pce.comment) + SyncFields(d)))
  {
    hide FieldBits, CoreFields, CoreBits, SyncFields, SyncBits, PceFields, PceBits, Filled;
    CoreIs(d);
    SyncIs(d);
    if d.channelConfiguration == 0 {
      PceIs(d.pce);
      CommentIs(d.pce.comment);
      FieldsConcat(CoreFields(d), PceFields(d.pce));
      FieldsConcat(CommentFields(d.pce.comment), SyncFields(d));
      assert before + CoreBits(d) + PceBits(d.pce) == before + (CoreBits(d) + PceBits(d.pce));
      var head := Filled(before + CoreBits(d) + PceBits(d.pce));
      assert head + CommentBits(d.pce.comment) + SyncBits(d) == head + (CommentBits(d.pce.comment) + SyncBits(d));
    } else {
      FieldsConcat(CoreFields(d), SyncFields(d));
      assert before + CoreBits(d) + SyncBits(d) == before + (CoreBits(d) + SyncBits(d));
    }
  }

  // -------------------------------------------------------------- what only the parser knows

  /** The fields behind the extension flag, by the object type of the core: 6 and 20 are scalable, 22 is BSAC, and
      17, 19, 20 and 23 have resilience flags. */
  function ExtraFields(core: nat, extensionFlag: bool, e: Extra): seq<Field> {
    (if core == 6 || core == 20 then [Field(3, e.layerNr)] else [])
    + if !extensionFlag then [] else
        (if core == 22 then [Field(5, e.numOfSubFrame), Field(11, e.layerLength)] else [])
        + (if core == 17 || core == 19 || core == 20 || core == 23
           then [Flag(e.sectionFlag), Flag(e.scalefactorFlag), Flag(e.spectralFlag)] else [])
        + [Flag(e.extensionFlag3)]
  }

  /** e with the fields that are not there as they were. */
  function ExtraKnown(core: nat, extensionFlag: bool, e: Extra, was: Extra): Extra {
    var bsac := extensionFlag && core == 22;
    var resilient := extensionFlag && (core == 17 || core == 19 || core == 20 || core == 23);
    Extra(if core == 6 || core == 20 then e.layerNr else was.layerNr,
          if bsac then e.numOfSubFrame else was.numOfSubFrame, if bsac then e.layerLength else was.layerLength,
          if resilient then e.sectionFlag else was.sectionFlag,
          if resilient then e.scalefactorFlag else was.scalefactorFlag,
          if resilient then e.spectralFlag else was.spectralFlag,
          if extensionFlag then e.extensionFlag3 else was.extensionFlag3)
  }

  /** Reading one field that stands in front. */
  lemma FieldRead(w: nat, v: nat, fs: seq<Field>, tail: seq<bool>)
    requires v < Pow2(w)
    ensures var r := FieldBits([Field(w, v)] + fs) + tail; Num(r, w) == v && Drop(r, w) == FieldBits(fs) + tail
  {
    hide BitsOf, FieldBits, Num, Drop;
    FieldsConcat([Field(w, v)], fs);
    OneField(w, v);
    NumRead(v, w, FieldBits(fs) + tail);
    assert FieldBits([Field(w, v)] + fs) + tail == BitsOf(v, w) + (FieldBits(fs) + tail);
  }

  lemma FlagFieldRead(b: bool, fs: seq<Field>, tail: seq<bool>)
    ensures var r := FieldBits([Flag(b)] + fs) + tail; (Num(r, 1) == 1) == b && Drop(r, 1) == FieldBits(fs) + tail
  {
    FieldPowers();
    FieldRead(1, if b then 1 else 0, fs, tail);
  }

  lemma LayerRead(core: nat, e: Extra, was: Extra, fs: seq<Field>, tail: seq<bool>)
    requires e.layerNr < 8
    ensures var layer := if core == 6 || core == 20 then [Field(3, e.layerNr)] else [];
      ParseLayer(FieldBits(layer + fs) + tail, core, was)
      == (WithLayer(core, e, was), FieldBits(fs) + tail)
  {
    FieldPowers();
    hide BitsOf, FieldBits, Num, Drop, Pow2;
    FieldRead(3, e.layerNr, fs, tail);
    assert [] + fs == fs;
  }

  lemma SubFramesRead(core: nat, e: Extra, was: Extra, fs: seq<Field>, tail: seq<bool>)
    requires e.numOfSubFrame < 32 && e.layerLength < 0x800
    ensures var frames := if core == 22 then [Field(5, e.numOfSubFrame), Field(11, e.layerLength)] else [];
      ParseSubFrames(FieldBits(frames + fs) + tail, core, was)
      == (WithFrames(core, e, was), FieldBits(fs) + tail)
  {
    FieldPowers();
    hide BitsOf, FieldBits, Num, Drop, Pow2;
    var two := [Field(11, e.layerLength)] + fs;
    FieldRead(5, e.numOfSubFrame, two, tail);
    FieldRead(11, e.layerLength, fs, tail);
    assert [Field(5, e.numOfSubFrame), Field(11, e.layerLength)] + fs == [Field(5, e.numOfSubFrame)] + two;
    assert [] + fs == fs;
  }

  lemma ResilienceRead(core: nat, e: Extra, was: Extra, fs: seq<Field>, tail: seq<bool>)
    ensures var flags := if core == 17 || core == 19 || core == 20 || core == 23
                         then [Flag(e.sectionFlag), Flag(e.scalefactorFlag), Flag(e.spectralFlag)] else [];
      ParseResilience(FieldBits(flags + fs) + tail, core, was)
      == (WithFlags(core, e, was), FieldBits(fs) + tail)
  {
    hide BitsOf, FieldBits, Num, Drop, Flag;
    var c := [Flag(e.spectralFlag)] + fs;
    var b := [Flag(e.scalefactorFlag)] + c;
    FlagFieldRead(e.sectionFlag, b, tail);
    FlagFieldRead(e.scalefactorFlag, c, tail);
    FlagFieldRead(e.spectralFlag, fs, tail);
    assert [Flag(e.sectionFlag), Flag(e.scalefactorFlag), Flag(e.spectralFlag)] + fs == [Flag(e.sectionFlag)] + b;
    assert [] + fs == fs;
  }

  function WithLayer(core: nat, e: Extra, was: Extra): Extra {
    if core == 6 || core == 20 then was.(layerNr := e.layerNr) else was
  }

  function WithFrames(core: nat, e: Extra, was: Extra): Extra {
    if core == 22 then was.(numOfSubFrame := e.numOfSubFrame, layerLength := e.layerLength) else was
  }

  function WithFlags(core: nat, e: Extra, was: Extra): Extra {
    if core == 17 || core == 19 || core == 20 || core == 23
    then was.(sectionFlag := e.sectionFlag, scalefactorFlag := e.scalefactorFlag, spectralFlag := e.spectralFlag)
    else was
  }

  lemma KnownIs(core: nat, e: Extra, was: Extra)
    ensures ExtraKnown(core, false, e, was) == WithLayer(core, e, was)
    ensures ExtraKnown(core, true, e, was)
      == WithFlags(core, e, WithFrames(core, e, WithLayer(core, e, was))).(extensionFlag3 := e.extensionFlag3)
  {
  }

  /** The fields that are never printed are read in the order and widths of the tables. */
  lemma ExtraRead(core: nat, extensionFlag: bool, e: Extra, was: Extra, tail: seq<bool>)
    requires e.layerNr < 8 && e.numOfSubFrame < 32 && e.layerLength < 0x800
    ensures ParseExtra(FieldBits(ExtraFields(core, extensionFlag, e)) + tail, core, extensionFlag, was)
      == (ExtraKnown(core, extensionFlag, e, was), tail)
  {
    KnownIs(core, e, was);
    NoFields();
    assert FieldBits([]) + tail == tail;
    if extensionFlag {
      ExtendedRead(core, e, was, tail);
    } else {
      LayerRead(core, e, was, [], tail);
    }
  }

  lemma ExtendedRead(core: nat, e: Extra, was: Extra, tail: seq<bool>)
    requires e.layerNr < 8 && e.numOfSubFrame < 32 && e.layerLength < 0x800
    ensures ParseExtra(FieldBits(ExtraFields(core, true, e)) + tail, core, true, was)
      == (WithFlags(core, e, WithFrames(core, e, WithLayer(core, e, was))).(extensionFlag3 := e.extensionFlag3), tail)
  {
    hide BitsOf, FieldBits, Num, Drop, Flag, ParseLayer, ParseSubFrames, ParseResilience, WithLayer, WithFrames,
      WithFlags;
    var layer := if core == 6 || core == 20 then [Field(3, e.layerNr)] else [];
    var frames := if core == 22 then [Field(5, e.numOfSubFrame), Field(11, e.layerLength)] else [];
    var flags := if core == 17 || core == 19 || core == 20 || core == 23
                 then [Flag(e.sectionFlag), Flag(e.scalefactorFlag), Flag(e.spectralFlag)] else [];
    var last := [Flag(e.extensionFlag3)];
    var e1 := WithLayer(core, e, was);
    LayerRead(core, e, was, frames + (flags + last), tail);
    SubFramesRead(core, e, e1, flags + last, tail);
    ResilienceRead(core, e, WithFrames(core, e, e1), last, tail);
    FlagFieldRead(e.extensionFlag3, [], tail);
    NoFields();
    assert last + [] == last && FieldBits([]) + tail == tail;
    assert ExtraFields(core, true, e) == layer + (frames + (flags + last));
  }

  // -------------------------------------------------------------- the decisions of the parser

  /** The extension is looked for when the outer type is neither 5 nor 29 and a byte is left; anything but 0x2b7
      ends the parse, and so does a type other than 5 and 22. */
  lemma SyncDecides(r: seq<bool>, d: Dsi)
    ensures Kind(d.aot) == 5 || Kind(d.aot) == 29 || |r| < 8 ==> ParseSync(r, d) == d
    ensures Kind(d.aot) != 5 && Kind(d.aot) != 29 && |r| >= 8 && Num(r, 11) != 0x2b7 ==>
      ParseSync(r, d) == d.(haveSbrExt := true)
    ensures Kind(d.aot) != 5 && Kind(d.aot) != 29 && |r| >= 8 && Num(r, 11) == 0x2b7 ==>
      var found := ParseSync(r, d);
      found.haveSbrExt && found.extAot == ReadType(Drop(r, 11), d.extAot).0
      && (Kind(found.extAot) != 5 && Kind(found.extAot) != 22 ==>
        found == d.(haveSbrExt := true, extAot := found.extAot))
  {
    hide Num, Drop, ReadType, ReadRate;
  }

  /** PS signalling is looked for behind SBR, when a byte is left; anything but 0x548 leaves the PS flag. */
  lemma PsDecides(r: seq<bool>, d: Dsi)
    ensures !d.hasSbr || |r| < 8 ==> ParsePs(r, d) == d
    ensures d.hasSbr && |r| >= 8 && Num(r, 11) != 0x548 ==> ParsePs(r, d) == d.(havePsExt := true)
    ensures d.hasSbr && |r| >= 8 && Num(r, 11) == 0x548 ==>
      ParsePs(r, d) == d.(havePsExt := true, hasPs := Num(Drop(r, 11), 1) == 1)
  {
    hide Num, Drop;
  }

  /** An outer type of 5 or 29 means SBR, and the type number 29 means PS. */
  lemma HierarchyDecides(r: seq<bool>, d: Dsi)
    ensures Kind(d.aot) != 5 && Kind(d.aot) != 29 ==> ParseHierarchical(r, d) == (d, r)
    ensures Kind(d.aot) == 5 || Kind(d.aot) == 29 ==>
      var found := ParseHierarchical(r, d).0;
      found.hasSbr && (found.hasPs <==> d.hasPs || d.aot.id == 29)
      && (Kind(found.aot2) != 22 ==> found.extensionChannelConfiguration == d.extensionChannelConfiguration)
  {
    hide Num, Drop, ReadType, ReadRate;
  }

  // -------------------------------------------------------------- a known config

  /** AAC-LC at 44.1 kHz in stereo, with SBR at 88.2 kHz signalled behind it. */
  const ORDINARY := FRESH.(aot := Aot(2, 0), fs := Rate(4, 0), channelConfiguration := 2, haveSbrExt := true,
                           extAot := Aot(5, 0), hasSbr := true, sbrFs := Rate(1, 0))

  const ORDINARY_BYTES: seq<Byte> := [0x12, 0x10, 0x56, 0xe5, 0x88]

  lemma {:induction false} SameBytes(a: seq<Byte>, b: seq<Byte>)
    requires BytesBits(a) == BytesBits(b)
    ensures a == b
  {
    hide BitsOf, Val;
    if a != [] {
      var n := |a| - 1;
      LastByte(a);
      LastByte(b);
      hide BytesBits;
      assert |b| == n + 1;
      SameBytes(a[..n], b[..n]);
      SameByte(a[n], b[n]);
      assert a == a[..n] + [a[n]] && b == b[..n] + [b[n]];
    }
  }

  lemma LastByte(a: seq<Byte>)
    requires a != []
    ensures var n := |a| - 1; BytesBits(a[..n]) == BytesBits(a)[..8 * n] && BitsOf(a[n], 8) == BytesBits(a)[8 * n..]
    ensures |BytesBits(a)| == 8 * |a|
  {
    hide BitsOf;
  }

  lemma SameByte(x: Byte, y: Byte)
    requires BitsOf(x, 8) == BitsOf(y, 8)
    ensures x == y
  {
    FieldPowers();
    hide BitsOf, Val, Pow2;
    ValOfBits(x, 8);
    ValOfBits(y, 8);
  }

  lemma OrdinaryFields()
    ensures CoreFields(ORDINARY) + SyncFields(ORDINARY)
      == [Field(5, 2), Field(4, 4), Field(4, 2), Field(1, 0), Field(1, 0), Field(1, 0),
          Field(11, 0x2b7), Field(5, 5), Field(1, 1), Field(4, 1)]
  {
  }

  lemma OrdinaryBits()
    ensures FieldBits(CoreFields(ORDINARY) + SyncFields(ORDINARY)) + [false, false, false] == BytesBits(ORDINARY_BYTES)
  {
    hide FieldBits, CoreFields, SyncFields, BytesBits, BitsOf;
    OrdinaryFields();
    ThreeFields(Field(5, 2), Field(4, 4), Field(4, 2));
    ThreeFields(Field(1, 0), Field(1, 0), Field(1, 0));
    ThreeFields(Field(11, 0x2b7), Field(5, 5), Field(1, 1));
    OneField(4, 1);
    var a, b := [Field(5, 2), Field(4, 4), Field(4, 2)], [Field(1, 0), Field(1, 0), Field(1, 0)];
    var c, e := [Field(11, 0x2b7), Field(5, 5), Field(1, 1)], [Field(4, 1)];
    assert CoreFields(ORDINARY) + SyncFields(ORDINARY) == a + b + c + e;
    FieldsConcat(a, b);
    FieldsConcat(a + b, c);
    FieldsConcat(a + b + c, e);
    SmallValues();
    SyncValue();
    OrdinaryBytes();
  }

  lemma SmallValues()
    ensures BitsOf(2, 5) == [false, false, false, true, false] && BitsOf(4, 4) == [false, true, false, false]
    ensures BitsOf(2, 4) == [false, false, true, false] && BitsOf(0, 1) == [false] && BitsOf(1, 1) == [true]
    ensures BitsOf(5, 5) == [false, false, true, false, true] && BitsOf(1, 4) == [false, false, false, true]
  {
    hide BitsOf;
    FourBits(1);
    FourBits(2);
    FourBits(4);
    FewBits(0);
    FewBits(1);
    MoreBits(2, 4);
    MoreBits(5, 4);
  }

  lemma SyncValue()
    ensures BitsOf(0x2b7, 11) == [false, true, false, true, false, true, true, false] + [true, true, true]
  {
    hide BitsOf, Shr, Pow2;
    FieldPowers();
    SplitBits(0x2b7, 8, 3);
    ShiftDivides(0x2b7, 3);
    EightBits(0x56);
    FewBits(0x2b7);
  }

  lemma OrdinaryBytes()
    ensures BytesBits(ORDINARY_BYTES) ==
      [false, false, false, true, false, false, true, false] + [false, false, false, true, false, false, false, false]
      + [false, true, false, true, false, true, true, false] + [true, true, true, false, false, true, false, true]
      + [true, false, false, false, true, false, false, false]
  {
    hide BytesBits, BitsOf;
    FiveBytes(ORDINARY_BYTES);
    FirstValues();
    LastValues();
  }

  lemma FirstValues()
    ensures BitsOf(0x12, 8) == [false, false, false, true, false, false, true, false]
    ensures BitsOf(0x10, 8) == [false, false, false, true, false, false, false, false]
    ensures BitsOf(0x56, 8) == [false, true, false, true, false, true, true, false]
  {
    hide BitsOf;
    EightBits(0x12);
    EightBits(0x10);
    EightBits(0x56);
  }

  lemma LastValues()
    ensures BitsOf(0xe5, 8) == [true, true, true, false, false, true, false, true]
    ensures BitsOf(0x88, 8) == [true, false, false, false, true, false, false, false]
  {
    hide BitsOf;
    EightBits(0xe5);
    EightBits(0x88);
  }

  lemma FiveBytes(b: seq<Byte>)
    requires |b| == 5
    ensures BytesBits(b) == BitsOf(b[0], 8) + BitsOf(b[1], 8) + BitsOf(b[2], 8) + BitsOf(b[3], 8) + BitsOf(b[4], 8)
  {
    hide BitsOf, BytesBits;
    OneMoreByte(b, 4);
    OneMoreByte(b, 3);
    OneMoreByte(b, 2);
    OneMoreByte(b, 1);
    OneMoreByte(b, 0);
    assert b[..5] == b;
    NoBytes(b);
  }

  lemma OneMoreByte(b: seq<Byte>, n: nat)
    requires n < |b|
    ensures BytesBits(b[..n + 1]) == BytesBits(b[..n]) + BitsOf(b[n], 8)
  {
    hide BitsOf;
    assert b[..n + 1][..n] == b[..n];
  }

  lemma NoBytes(b: seq<Byte>)
    ensures BytesBits(b[..0]) == []
  {
  }

  /** It is printed as the bytes 12 10 56 e5 88, and these are parsed as the same config. */
  method OrdinaryConfig() returns (out: seq<Byte>, back: Dsi)
    ensures out == [0x12, 0x10, 0x56, 0xe5, 0x88]
    ensures back.aot == Aot(2, 0) && back.fs == Rate(4, 0) && back.channelConfiguration == back.channelCount == 2
    ensures back.haveSbrExt && back.extAot == Aot(5, 0) && back.hasSbr && back.sbrFs == Rate(1, 0)
    ensures !back.hasPs && !back.havePsExt && back.ga == GaConfig(false, false, 0, false)
  {
    hide PrintAfter, Parse, BytesBits, BitSink.Valid;
    var sink := new BitSink();
    WriteBinaryDsis(sink, ORDINARY);
    out := sink.out;
    OrdinaryPrints();
    SameBytes(out, ORDINARY_BYTES);
    ParsePrinted(ORDINARY);
    var parser := new AacParser(FRESH);
    parser.CodecConfig(out);
    back := parser.currDsi;
  }

  lemma OrdinaryPrints()
    ensures Print(ORDINARY) == BytesBits(ORDINARY_BYTES)
  {
    hide FieldBits, CoreFields, SyncFields, BytesBits, PrintAfter;
    PrintIs([], ORDINARY);
    OrdinaryBits();
    var bits := FieldBits(CoreFields(ORDINARY) + SyncFields(ORDINARY));
    assert [] + bits == bits && |bits| == 37;
    assert Filled(bits) == bits + [false, false, false];
  }
}
