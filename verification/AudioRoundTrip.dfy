/** What an AudioSpecificConfig carries: parsing what was printed gives back every printed field exactly
    when a condition on the printed dsi holds. */
module AudioRoundTrip {
  import opened AudioConfig
  import opened ProgramConfig
  import opened BitFields
  import opened Bits
  import opened BitIO
  import opened Samples
  import opened Options

  // -------------------------------------------------------------- what is printed

  function KeptType(a: Aot): Aot {
    if a.id == 31 then a else Aot(a.id, 0)
  }

  function KeptRate(r: Rate): Rate {
    if r.index == 15 then r else Rate(r.index, 0)
  }

  /** An extension object type that says something about SBR. */
  predicate ExtensionPrinted(d: Dsi) {
    SyncPrinted(d) && (ObjectType(d.extAot) == AOT_SBR || ObjectType(d.extAot) == AOT_ER_BSAC)
  }

  predicate PsPrinted(d: Dsi) {
    SyncPrinted(d) && ObjectType(d.extAot) == AOT_SBR && d.havePsExt
  }

  /** d with everything cleared that a config does not carry; an outer SBR or PS type implies the flags. */
  function Carried(d: Dsi): Dsi {
    Dsi(KeptType(d.aot), KeptRate(d.fs), d.channelConfiguration,
        if d.channelConfiguration == 0 then ChannelCount(d.pce) else d.channelConfiguration,
        if Hierarchical(d) then KeptType(d.aot2) else Aot(0, 0),
        if Hierarchical(d) || (ExtensionPrinted(d) && d.hasSbr) then KeptRate(d.sbrFs) else Rate(0, 0),
        if (if Hierarchical(d) then ObjectType(d.aot2) else if SyncPrinted(d) then ObjectType(d.extAot) else 0)
          == AOT_ER_BSAC
        then d.extensionChannelConfiguration else 0,
        Hierarchical(d) || (ExtensionPrinted(d) && d.hasSbr),
        if Hierarchical(d) then d.aot.id == AOT_PS else PsPrinted(d) && d.hasPs,
        PsPrinted(d), SyncPrinted(d),
        if SyncPrinted(d) then KeptType(d.extAot) else Aot(0, 0),
        if d.ga.dependsOnCoreCoder then d.ga else d.ga.(coreCoderDelay := 0),
        if d.channelConfiguration == 0 then KeptPce(d.pce) else NO_PCE, NO_EXTRA)
  }

  /** Every field fits the width it is printed with. */
  predicate Fits(d: Dsi) {
    && FitsType(d.aot) && FitsType(d.aot2) && FitsType(d.extAot) && FitsRate(d.fs) && FitsRate(d.sbrFs)
    && d.channelConfiguration < 16 && (d.channelConfiguration == 0 ==> FitsPce(d.pce))
    && d.extensionChannelConfiguration < 16 && d.ga.coreCoderDelay < 0x4000
  }

  predicate FitsType(a: Aot) {
    a.id < 32 && a.ext < 64
  }

  predicate FitsRate(r: Rate) {
    r.index < 16 && r.hz < 0x100_0000
  }

  /** Bits the parser reads for the core codec that the printer does not write. */
  function Unprinted(d: Dsi): nat {
    var core := CoreType(d);
    (if core == AOT_AAC_SCALABLE || core == AOT_ER_AAC_SCALABLE then 3 else 0)
    + (if !d.ga.extensionFlag then 0 else
         (if core == AOT_ER_BSAC then 16 else 0) + (if HasResilienceFlags(core) then 3 else 0) + 1)
  }

  /** The stored core coder delay fits eight bits; before a printed extension the parser reads nothing
      extra, or one flag and an extension type of 0; PS is only signalled along with SBR; and a program
      config element has no comment and no printed extension behind it, where its comment length is read. */
  predicate Clean(d: Dsi) {
    && (d.ga.dependsOnCoreCoder ==> d.ga.coreCoderDelay < 256)
    && (SyncPrinted(d) ==> Unprinted(d) == 0 || (Unprinted(d) == 1 && d.extAot.id == 0))
    && (PsPrinted(d) ==> d.hasSbr)
    && (d.channelConfiguration == 0 ==> d.pce.comment == [] && !SyncPrinted(d))
  }

  // -------------------------------------------------------------- reading one item

  lemma Concat3(a: seq<bool>, b: seq<bool>, c: seq<bool>)
    ensures (a + b) + c == a + (b + c)
  {
  }

  lemma TypeRead(a: Aot, was: Aot, tail: seq<bool>)
    requires FitsType(a)
    ensures ReadType(TypeBits(a) + tail, was) == (if a.id == 31 then a else Aot(a.id, was.ext), tail)
  {
    FieldPowers();
    hide Num, Drop, Pow2, BitsOf;
    var more := if a.id == 31 then BitsOf(a.ext, 6) + tail else tail;
    NumRead(a.id, 5, more);
    NumRead(a.ext, 6, tail);
    assert TypeBits(a) + tail == BitsOf(a.id, 5) + more;
  }

  lemma RateRead(f: Rate, was: Rate, tail: seq<bool>)
    requires FitsRate(f)
    ensures ReadRate(RateBits(f) + tail, was) == (if f.index == 15 then f else Rate(f.index, was.hz), tail)
  {
    FieldPowers();
    hide Num, Drop, Pow2, BitsOf;
    var more := if f.index == 15 then BitsOf(f.hz, 24) + tail else tail;
    NumRead(f.index, 4, more);
    NumRead(f.hz, 24, tail);
    assert RateBits(f) + tail == BitsOf(f.index, 4) + more;
  }

  // -------------------------------------------------------------- reading the parts

  lemma HeadRead(d: Dsi, was: Dsi, tail: seq<bool>)
    requires Fits(d)
    ensures ParseHead(HeadBits(d) + tail, was)
      == (was.(aot := if d.aot.id == 31 then d.aot else Aot(d.aot.id, was.aot.ext),
               fs := if d.fs.index == 15 then d.fs else Rate(d.fs.index, was.fs.hz),
               channelConfiguration := d.channelConfiguration), tail)
  {
    FieldPowers();
    hide Num, Drop, Pow2, BitsOf, ReadType, ReadRate, TypeBits, RateBits;
    var r2 := BitsOf(d.channelConfiguration, 4) + tail;
    var r1 := RateBits(d.fs) + r2;
    TypeRead(d.aot, was.aot, r1);
    RateRead(d.fs, was.fs, r2);
    NumRead(d.channelConfiguration, 4, tail);
    assert HeadBits(d) + tail == TypeBits(d.aot) + r1;
  }

  lemma HierarchicalRead(d: Dsi, was: Dsi, tail: seq<bool>)
    requires Fits(d) && Hierarchical(d) && was.aot == KeptType(d.aot) && was.aot2 == Aot(0, 0)
      && was.sbrFs == Rate(0, 0)
    requires was.extensionChannelConfiguration == 0
    ensures ParseHierarchical(HierarchicalBits(d) + tail, was)
      == (was.(hasSbr := true, hasPs := was.hasPs || d.aot.id == AOT_PS,
               sbrFs := KeptRate(d.sbrFs), aot2 := KeptType(d.aot2),
               extensionChannelConfiguration :=
                 if ObjectType(d.aot2) == AOT_ER_BSAC then d.extensionChannelConfiguration else 0), tail)
  {
    FieldPowers();
    hide Num, Drop, Pow2, BitsOf, ReadType, ReadRate, TypeBits, RateBits;
    var r2 := if ObjectType(d.aot2) == AOT_ER_BSAC then BitsOf(d.extensionChannelConfiguration, 4) + tail else tail;
    var r1 := TypeBits(d.aot2) + r2;
    RateRead(d.sbrFs, was.sbrFs, r1);
    TypeRead(d.aot2, was.aot2, r2);
    NumRead(d.extensionChannelConfiguration, 4, tail);
    assert HierarchicalBits(d) + tail == RateBits(d.sbrFs) + r1;
  }

  lemma GaRead(g: GaConfig, was: GaConfig, tail: seq<bool>)
    requires g.coreCoderDelay < 0x4000
    ensures ParseGa(GaBits(g) + tail, was)
      == (g.(coreCoderDelay := if g.dependsOnCoreCoder then g.coreCoderDelay % 256 else was.coreCoderDelay), tail)
  {
    FieldPowers();
    hide Num, Drop, Pow2, BitsOf, FlagBits;
    var r3 := FlagBits(g.extensionFlag) + tail;
    var r2 := if g.dependsOnCoreCoder then BitsOf(g.coreCoderDelay, 14) + r3 else r3;
    var r1 := FlagBits(g.dependsOnCoreCoder) + r2;
    FlagRead(g.frameLengthFlag, r1);
    FlagRead(g.dependsOnCoreCoder, r2);
    NumRead(g.coreCoderDelay, 14, r3);
    FlagRead(g.extensionFlag, tail);
    assert GaBits(g) + tail == FlagBits(g.frameLengthFlag) + r1;
  }

  // -------------------------------------------------------------- padding and the sync word

  /** In padding the unprinted fields read as their defaults, and padding is all that is left. */
  lemma ExtraOfPadding(k: nat, core: nat, flag: bool)
    requires k < 8
    ensures ParseExtra(Zeros(k), core, flag, NO_EXTRA).0 == NO_EXTRA
    ensures |ParseExtra(Zeros(k), core, flag, NO_EXTRA).1| < 8
  {
    hide Num, Drop, Zeros;
    forall j: nat, n: nat ensures Num(Zeros(j), n) == 0 && Drop(Zeros(j), n) == Zeros(if n <= j then j - n else 0) {
      ZeroRead(j, n);
    }
  }

  /** The sync word starts 01010 and its second bit is set. */
  lemma SyncStart(x: seq<bool>)
    ensures var r := BitsOf(SYNC_SBR, 11) + x;
      Num(r, 3) == 2 && Num(r, 5) == 10 && Num(r, 1) == 0 && Num(Drop(r, 1), 1) == 1
  {
    FieldPowers();
    var v := SYNC_SBR;
    SplitBits(v, 3, 8);
    SplitBits(v, 5, 6);
    SplitBits(v, 1, 10);
    SplitBits(v, 1, 9);
    assert Shr(v, 8) == 2 && Shr(v, 6) == 10 && Shr(v, 10) == 0 && Shr(v, 9) == 1;
    hide BitsOf, Pow2;
    ReadFront(2, 3, BitsOf(v, 8) + x);
    ReadFront(10, 5, BitsOf(v, 6) + x);
    ReadFront(0, 1, BitsOf(v, 10) + x);
    ReadFront(1, 1, BitsOf(v, 9) + x);
    Concat3(BitsOf(2, 3), BitsOf(v, 8), x);
    Concat3(BitsOf(10, 5), BitsOf(v, 6), x);
    Concat3(BitsOf(0, 1), BitsOf(v, 10), x);
    Concat3(BitsOf(1, 1), BitsOf(v, 9), x);
  }

  /** One bit on, the sync word is not seen any more: its second bit is set. */
  lemma SyncMissed(x: seq<bool>)
    requires |x| > 0
    ensures var r := Drop(BitsOf(SYNC_SBR, 11) + x, 1); |r| >= 11 && Num(r, 11) != SYNC_SBR
  {
    var v := SYNC_SBR;
    assert Shr(v, 10) == 0 && Shr(v, 9) == 1;
    hide BitsOf, Shr, Val;
    SplitBits(v, 1, 10);
    SplitBits(v, 1, 9);
    var b, c := BitsOf(1, 1), BitsOf(v, 9) + x;
    Concat3(BitsOf(0, 1), BitsOf(v, 10), x);
    Concat3(b, BitsOf(v, 9), x);
    ReadFront(0, 1, b + c);
    assert Front(b + c, 11) == b + c[..10];
    TopBitSet(c[..10]);
  }

  lemma TopBitSet(low: seq<bool>)
    requires |low| == 10
    ensures Val(BitsOf(1, 1) + low) >= 1024
  {
    assert Pow2(10) == 1024 && Pow2(1) == 2;
    hide Pow2, Val, BitsOf;
    ValConcat(BitsOf(1, 1), low);
    ValOfBits(1, 1);
  }

  /** What the parser finds in front of a printed extension. */
  lemma ExtraBeforeSync(core: nat, flag: bool, x: seq<bool>)
    requires |x| > 0
    ensures var (e, r) := ParseExtra(BitsOf(SYNC_SBR, 11) + x, core, flag, NO_EXTRA);
      var layer := core == AOT_AAC_SCALABLE || core == AOT_ER_AAC_SCALABLE;
      && (!layer && !flag ==> e == NO_EXTRA && r == BitsOf(SYNC_SBR, 11) + x)
      && (layer || (flag && (core == AOT_ER_BSAC || HasResilienceFlags(core))) ==> e != NO_EXTRA)
      && (flag && !layer && core != AOT_ER_BSAC && !HasResilienceFlags(core) ==>
           e == NO_EXTRA && |r| >= 11 && Num(r, 11) != SYNC_SBR)
  {
    hide Num, Drop, BitsOf;
    SyncStart(x);
    SyncMissed(x);
  }

  // -------------------------------------------------------------- reading the extension

  lemma SbrRead(d: Dsi, was: Dsi, tail: seq<bool>)
    requires Fits(d) && was.sbrFs == Rate(0, 0)
    ensures ParseSbr(SbrBits(d) + tail, was)
      == (was.(hasSbr := d.hasSbr, sbrFs := if d.hasSbr then KeptRate(d.sbrFs) else Rate(0, 0)), tail)
  {
    hide Num, Drop, FlagBits, RateBits, ReadRate;
    var more := if d.hasSbr then RateBits(d.sbrFs) + tail else tail;
    FlagRead(d.hasSbr, more);
    RateRead(d.sbrFs, was.sbrFs, tail);
    assert SbrBits(d) + tail == FlagBits(d.hasSbr) + more;
  }

  /** PS signalling is told from padding by its length. */
  lemma PsRead(d: Dsi, was: Dsi, k: nat)
    requires k < 8 && !was.havePsExt && !was.hasPs
    ensures ParsePs(PsBits(d) + Zeros(k), was)
      == was.(havePsExt := was.hasSbr && d.havePsExt, hasPs := was.hasSbr && d.havePsExt && d.hasPs)
  {
    FieldPowers();
    hide Num, Drop, Pow2, BitsOf, FlagBits;
    var more := FlagBits(d.hasPs) + Zeros(k);
    NumRead(SYNC_PS, 11, more);
    FlagRead(d.hasPs, Zeros(k));
    assert d.havePsExt ==> PsBits(d) + Zeros(k) == BitsOf(SYNC_PS, 11) + more;
  }

  /** No field that the extension sets is set yet. */
  predicate BeforeSync(was: Dsi) {
    && !Hierarchical(was) && was.sbrFs == Rate(0, 0) && was.extensionChannelConfiguration == 0
      && was.extAot == Aot(0, 0)
    && !was.hasSbr && !was.hasPs && !was.havePsExt && !was.haveSbrExt
  }

  /** was with what is read of the extension printed for d. */
  function WithExtension(d: Dsi, was: Dsi): Dsi {
    var ext := ObjectType(d.extAot);
    var sbr := (ext == AOT_SBR || ext == AOT_ER_BSAC) && d.hasSbr;
    was.(haveSbrExt := true, extAot := KeptType(d.extAot), hasSbr := sbr,
         sbrFs := if sbr then KeptRate(d.sbrFs) else Rate(0, 0),
         havePsExt := ext == AOT_SBR && sbr && d.havePsExt, hasPs := ext == AOT_SBR && sbr && d.havePsExt && d.hasPs,
         extensionChannelConfiguration := if ext == AOT_ER_BSAC then d.extensionChannelConfiguration else 0)
  }

  lemma SyncRead(d: Dsi, was: Dsi, k: nat)
    requires Fits(d) && SyncPrinted(d) && BeforeSync(was) && k < 8
    ensures ParseSync(SyncBits(d) + Zeros(k), was) == WithExtension(d, was)
  {
    FieldPowers();
    hide Num, Drop, Pow2, BitsOf, ReadType, TypeBits, ParseSbr, ParsePs, SbrBits, PsBits, Fits;
    var ext := ObjectType(d.extAot);
    var tail := if ext == AOT_SBR then PsBits(d) + Zeros(k)
                else if ext == AOT_ER_BSAC then BitsOf(d.extensionChannelConfiguration, 4) + Zeros(k) else Zeros(k);
    var r1 := if ext == AOT_SBR || ext == AOT_ER_BSAC then SbrBits(d) + tail else Zeros(k);
    var r := TypeBits(d.extAot) + r1;
    assert SyncBits(d) + Zeros(k) == BitsOf(SYNC_SBR, 11) + r;
    NumRead(SYNC_SBR, 11, r);
    FieldsFit(d);
    TypeRead(d.extAot, was.extAot, r1);
    var d2 := was.(haveSbrExt := true, extAot := KeptType(d.extAot));
    SbrRead(d, d2, tail);
    NumRead(d.extensionChannelConfiguration, 4, Zeros(k));
    var d3 := d2.(hasSbr := d.hasSbr, sbrFs := if d.hasSbr then KeptRate(d.sbrFs) else Rate(0, 0));
    PsRead(d, d3, k);
  }

  lemma FieldsFit(d: Dsi)
    requires Fits(d)
    ensures FitsType(d.extAot) && d.extensionChannelConfiguration < 16
  {
  }

  // -------------------------------------------------------------- the whole config

  /** The dsi in front of the channels, when the core is parsed into a fresh one. */
  function Core(d: Dsi): Dsi {
    FRESH.(aot := KeptType(d.aot), fs := KeptRate(d.fs), channelConfiguration := d.channelConfiguration,
           hasSbr := Hierarchical(d), hasPs := Hierarchical(d) && d.aot.id == AOT_PS,
           sbrFs := if Hierarchical(d) then KeptRate(d.sbrFs) else Rate(0, 0),
           aot2 := if Hierarchical(d) then KeptType(d.aot2) else Aot(0, 0),
           extensionChannelConfiguration :=
             if Hierarchical(d) && ObjectType(d.aot2) == AOT_ER_BSAC then d.extensionChannelConfiguration else 0,
           ga := d.ga.(coreCoderDelay := if d.ga.dependsOnCoreCoder then d.ga.coreCoderDelay % 256 else 0))
  }

  /** Parsing the core, and what is left for the channels and the rest. */
  lemma CoreRead(d: Dsi, tail: seq<bool>)
    requires Fits(d)
    ensures var c := ParseChannels(tail, Core(d)); Parse(CoreBits(d) + tail, FRESH) == ParseRest(c.1, c.0)
  {
    hide HeadBits, ParseHead, HierarchicalBits, ParseHierarchical, GaBits, ParseGa, ParsePce, ParseExtra, ParseSync;
    var r2 := GaBits(d.ga) + tail;
    var r1 := HierarchicalBits(d) + r2;
    HeadRead(d, FRESH, r1);
    var d1 := FRESH.(aot := KeptType(d.aot), fs := KeptRate(d.fs), channelConfiguration := d.channelConfiguration);
    if Hierarchical(d) { HierarchicalRead(d, d1, r2); } else { NotHierarchical(d, d1, r2); }
    GaRead(d.ga, FRESH.ga, tail);
    assert CoreBits(d) + tail == HeadBits(d) + r1;
  }

  lemma NotHierarchical(d: Dsi, was: Dsi, tail: seq<bool>)
    requires !Hierarchical(d) && !Hierarchical(was)
    ensures ParseHierarchical(HierarchicalBits(d) + tail, was) == (was, tail)
  {
    assert HierarchicalBits(d) + tail == tail;
  }

  /** Main result: parsing a printed config into a fresh dsi gives back all that it carries exactly
      when the dsi is clean. */
  lemma ParsePrinted(d: Dsi)
    requires Fits(d)
    ensures Parse(Print(d), FRESH) == Carried(d) <==> Clean(d)
  {
    if d.channelConfiguration == 0 { WithPce(d); } else { WithoutPce(d); }
  }

  lemma WithoutPce(d: Dsi)
    requires Fits(d) && d.channelConfiguration != 0
    ensures Parse(Print(d), FRESH) == Carried(d) <==> Clean(d)
  {
    hide CoreBits, SyncBits, Parse, ParseRest, Zeros, Fits, Clean, Carried;
    var all := CoreBits(d) + SyncBits(d);
    var k := Padding(all);
    assert Print(d) == CoreBits(d) + (SyncBits(d) + Zeros(k)) by { assert [] + CoreBits(d) == CoreBits(d); }
    CoreRead(d, SyncBits(d) + Zeros(k));
    if SyncPrinted(d) { WithSync(d, k); } else { WithoutSync(d, k); }
  }

  /** The dsi behind the channels. */
  function Channelled(d: Dsi): Dsi {
    if d.channelConfiguration == 0 then Core(d).(pce := KeptPce(d.pce), channelCount := ChannelCount(d.pce))
    else Core(d).(channelCount := d.channelConfiguration)
  }

  lemma WithoutSync(d: Dsi, k: nat)
    requires k < 8 && !SyncPrinted(d)
    requires d.channelConfiguration == 0 ==> d.pce.comment == []
    ensures ParseRest(SyncBits(d) + Zeros(k), Channelled(d)) == Carried(d) <==> Clean(d)
  {
    hide ParseExtra, Zeros;
    assert SyncBits(d) + Zeros(k) == Zeros(k);
    ExtraOfPadding(k, CoreType(d), d.ga.extensionFlag);
  }

  lemma WithSync(d: Dsi, k: nat)
    requires Fits(d) && k < 8 && SyncPrinted(d) && d.channelConfiguration != 0
    ensures ParseRest(SyncBits(d) + Zeros(k), Channelled(d)) == Carried(d) <==> Clean(d)
  {
    hide ParseExtra, Zeros, Fits, BitsOf, ReadType, TypeBits, ExtensionBits, ParseSbr, ParsePs, Num;
    var x := TypeBits(d.extAot) + ExtensionBits(d) + Zeros(k);
    assert |x| > 0 by { assert |TypeBits(d.extAot)| > 0 by { TypeNotEmpty(d.extAot); } }
    assert SyncBits(d) + Zeros(k) == BitsOf(SYNC_SBR, 11) + x;
    ExtraBeforeSync(CoreType(d), d.ga.extensionFlag, x);
    var e := ParseExtra(SyncBits(d) + Zeros(k), CoreType(d), d.ga.extensionFlag, NO_EXTRA);
    if Unprinted(d) == 0 { SyncRead(d, Channelled(d), k); }
    ExtraKept(e.1, Channelled(d).(extra := e.0));
  }

  /** Behind a program config element stands its comment, and then the extension or padding; the comment
      length is read from there. */
  lemma WithPce(d: Dsi)
    requires Fits(d) && d.channelConfiguration == 0
    ensures Parse(Print(d), FRESH) == Carried(d) <==> Clean(d)
  {
    hide CoreBits, SyncBits, PceBits, CommentBits, ParsePce, ParseComment, Parse, ParseRest, Zeros, Fits, FitsPce;
    hide Clean, Carried, Print, KeptPce, ChannelCount;
    PceFits(d);
    var j, k := PrintedParts(d);
    var behind := SyncBits(d) + Zeros(k);
    var tail := CommentBits(d.pce.comment) + behind;
    CoreRead(d, PceBits(d.pce) + (Zeros(j) + tail));
    PceRead(d.pce, j, tail);
    var c := ParseComment(tail);
    PceKept(c.1, WithComment(d, c.0));
    ByteBehind(d, k);
    CommentRead(d.pce.comment, behind);
    CommentCarried(d, c.0);
    if c.0 == d.pce.comment {
      assert tail == behind;
      assert behind == Zeros(k);
      NoComment(k);
      ByteBehind(d, 0);
      WithoutSync(d, 0);
    }
  }

  /** The dsi behind a program config element with this comment. */
  function WithComment(d: Dsi, comment: seq<Option<Byte>>): Dsi {
    Core(d).(pce := KeptPce(d.pce).(comment := comment), channelCount := ChannelCount(d.pce))
  }

  /** The parts of a config with a program config element, and the two fillers. */
  lemma PrintedParts(d: Dsi) returns (j: nat, k: nat)
    requires Printable(d) && d.channelConfiguration == 0
    ensures j < 8 && k < 8
    ensures var tail := CommentBits(d.pce.comment) + (SyncBits(d) + Zeros(k));
      |tail| % 8 == 0 && Print(d) == CoreBits(d) + (PceBits(d.pce) + (Zeros(j) + tail))
  {
    hide CoreBits, SyncBits, PceBits, CommentBits, Zeros, Padding;
    var head := CoreBits(d) + PceBits(d.pce);
    assert [] + CoreBits(d) == CoreBits(d);
    var all := Filled(head) + CommentBits(d.pce.comment) + SyncBits(d);
    j, k := Padding(head), Padding(all);
    Regroup(CoreBits(d), PceBits(d.pce), Zeros(j), CommentBits(d.pce.comment), SyncBits(d), Zeros(k));
    LengthLeft(|head| + j, |CommentBits(d.pce.comment) + (SyncBits(d) + Zeros(k))|);
  }

  lemma Regroup(a: seq<bool>, b: seq<bool>, c: seq<bool>, e: seq<bool>, f: seq<bool>, g: seq<bool>)
    ensures a + b + c + e + f + g == a + (b + (c + (e + (f + g))))
  {
  }

  lemma LengthLeft(n: nat, m: nat)
    requires n % 8 == 0 && (n + m) % 8 == 0
    ensures m % 8 == 0
  {
  }

  lemma TypeNotEmpty(a: Aot)
    ensures |TypeBits(a)| >= 5
  {
  }

  /** Reading the extension does not change the other fields. */
  lemma ExtraKept(r: seq<bool>, d: Dsi)
    ensures ParseSync(r, d).extra == d.extra
  {
    hide Num, Drop, ReadType, ReadRate;
  }

  /** Nor the program config element. */
  lemma PceKept(r: seq<bool>, d: Dsi)
    ensures ParseRest(r, d).pce == d.pce
  {
    hide Num, Drop, ReadType, ReadRate, ParseExtra;
  }

  lemma PceFits(d: Dsi)
    requires Fits(d) && d.channelConfiguration == 0
    ensures FitsPce(d.pce) && CommentSet(d.pce.comment)
  {
  }

  lemma CommentCarried(d: Dsi, comment: seq<Option<Byte>>)
    requires d.channelConfiguration == 0
    ensures Carried(d).pce.comment == d.pce.comment && WithComment(d, comment).pce.comment == comment
    ensures ChannelCount(KeptPce(d.pce).(comment := comment)) == ChannelCount(d.pce)
    ensures Clean(d) ==> d.pce.comment == [] && !SyncPrinted(d)
    ensures comment == d.pce.comment ==> WithComment(d, comment) == Channelled(d)
  {
    hide Hierarchical;
  }

  lemma NoComment(k: nat)
    requires k < 8
    ensures ParseComment(Zeros(k)) == ([], Zeros(0))
  {
    ZeroRead(k, 8);
    hide Num, Zeros;
  }

  /** The byte behind the comment: the start of the sync word, or padding. */
  lemma ByteBehind(d: Dsi, k: nat)
    ensures Num(SyncBits(d) + Zeros(k), 8) == if SyncPrinted(d) then 0x56 else 0
    ensures !SyncPrinted(d) ==> SyncBits(d) + Zeros(k) == Zeros(k)
  {
    hide BitsOf, TypeBits, ExtensionBits, Num, Zeros;
    if SyncPrinted(d) {
      var x := TypeBits(d.extAot) + ExtensionBits(d) + Zeros(k);
      assert SyncBits(d) + Zeros(k) == BitsOf(SYNC_SBR, 11) + x;
      SyncByte(x);
    } else {
      assert SyncBits(d) + Zeros(k) == Zeros(k);
      ZeroRead(k, 8);
    }
  }

  lemma SyncByte(x: seq<bool>)
    ensures Num(BitsOf(SYNC_SBR, 11) + x, 8) == 0x56
  {
    FieldPowers();
    var v := SYNC_SBR;
    SplitBits(v, 8, 3);
    assert Shr(v, 3) == 0x56;
    hide BitsOf, Pow2, Num;
    Concat3(BitsOf(0x56, 8), BitsOf(v, 3), x);
    NumRead(0x56, 8, BitsOf(v, 3) + x);
  }

  /** The same for the printer and the parser themselves: a dsi written to a new sink and parsed by a new
      parser. */
  method RoundTrip(d: Dsi) returns (back: Dsi)
    requires Fits(d)
    ensures back == Carried(d) <==> Clean(d)
  {
    hide BytesBits, PrintAfter, Parse, Carried, Clean;
    var sink := new BitSink();
    WriteBinaryDsis(sink, d);
    NotEmpty(d);
    ParsePrinted(d);
    var parser := new AacParser(FRESH);
    parser.CodecConfig(sink.out);
    return parser.currDsi;
  }

  lemma NotEmpty(d: Dsi)
    requires Fits(d)
    ensures |Print(d)| > 0
  {
    assert |CoreBits(d)| >= |GaBits(d.ga)| > 0;
  }

  // -------------------------------------------------------------- configs that do not come back

  const LONG_DELAY := FRESH.(aot := Aot(2, 0), channelConfiguration := 2, ga := GaConfig(false, true, 256, false))

  /** A core coder delay of 256 is cut to eight bits. */
  method LongDelayIsCut() returns (back: Dsi)
    ensures Fits(LONG_DELAY) && back != Carried(LONG_DELAY)
  {
    hide Carried;
    back := RoundTrip(LONG_DELAY);
  }

  const PS_ALONE := FRESH.(aot := Aot(2, 0), channelConfiguration := 2, haveSbrExt := true, extAot := Aot(5, 0),
                           havePsExt := true)

  /** With PS but no SBR in the extension, PS is lost. */
  method PsWithoutSbrIsLost() returns (back: Dsi)
    ensures Fits(PS_ALONE) && back != Carried(PS_ALONE)
  {
    hide Carried;
    back := RoundTrip(PS_ALONE);
  }

  const RESILIENT := FRESH.(aot := Aot(17, 0), channelConfiguration := 2, haveSbrExt := true, extAot := Aot(5, 0),
                            ga := GaConfig(false, false, 0, true))

  /** With the extension flag of an error-resilient type, the parser takes the sync word for the resilience
      flags. */
  method ResilienceFlagsShiftTheSync() returns (back: Dsi)
    ensures Fits(RESILIENT) && back != Carried(RESILIENT)
  {
    hide Carried;
    back := RoundTrip(RESILIENT);
  }

  function Commented(b: Byte): Dsi {
    FRESH.(aot := Aot(2, 0), pce := NO_PCE.(comment := [Some(b)]))
  }

  /** A comment of one byte, whose length is not printed. */
  method CommentIsLost(b: Byte) returns (back: Dsi)
    ensures Fits(Commented(b)) && back != Carried(Commented(b))
  {
    hide Carried;
    back := RoundTrip(Commented(b));
  }

  const EXTENDED := FRESH.(aot := Aot(2, 0), haveSbrExt := true, extAot := Aot(5, 0))

  /** The extension printed behind a program config element is taken for a comment. */
  method ExtensionIsTakenForAComment() returns (back: Dsi)
    ensures Fits(EXTENDED) && back != Carried(EXTENDED)
  {
    hide Carried;
    back := RoundTrip(EXTENDED);
  }
}
